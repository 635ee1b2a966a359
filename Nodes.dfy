/**
  The nodes of the generated program and the C lines each one renders to,
  with the constants the translator writes around them.
 */
module Nodes {
  import opened Text

  // ---------------------------------------------------------------------
  // names and fixed text of the generated program

  const ReturnCode := "rc"
  const ErrMsg := "errMsg"
  const Db := "db"
  const Stmt := "stmt"

  /** Declarations of the four globals the generated code uses. */
  const VarDecls: seq<string> := [
    "sqlite3 *" + Db + ";",
    "char *" + ErrMsg + ";",
    "sqlite3_stmt *" + Stmt + ";",
    "int " + ReturnCode + ";"
  ]

  const Headers := "\n#include <stdio.h>\n#include <stdlib.h>\n#include \"sqlite3.h\"\n"

  /** The C helper every checked call goes through. */
  const ExitOnErrorFunc :=
    "\nvoid exit_if_not_ok(int rc, char *zErrMsg, int correct_code){\n" +
    "    if (rc != correct_code){\n" +
    "        printf(\"Error msg: %s\\n\", zErrMsg);\n" +
    "        exit(rc);\n" +
    "    }\n" +
    "}\n"

  const MainStart := "int main() {"
  const MainEnd := "}"

  const OpenTicker := ".open"
  const CommentTicker := "--"
  const ReadSpecTicker := ".SQL2C_select"

  /** What the file gets after each node. */
  const Blank := "\n"

  const ExitOnErrorCall := "exit_if_not_ok(" + ReturnCode + ", " + ErrMsg + ", SQLITE_OK);"
  const ExitOnDoneCall := "exit_if_not_ok(" + ReturnCode + ", " + ErrMsg + ", SQLITE_DONE);"

  /** The name prefix of the #define a CDefs node writes. */
  const DefPrefix := "TEMP"

  /** lhs\t=rhs */
  function Assign(lhs: string, rhs: string): (r: string)
    ensures |r| == |lhs| + 2 + |rhs|
    ensures r[..|lhs|] == lhs && r[|lhs|..|lhs| + 2] == "\t=" && r[|lhs| + 2..] == rhs
  {
    lhs + "\t=" + rhs
  }

  /** Different right-hand sides make different assignments to the same variable. */
  lemma AssignInjective(lhs: string, rhs1: string, rhs2: string)
    requires Assign(lhs, rhs1) == Assign(lhs, rhs2)
    ensures rhs1 == rhs2
  {
    assert rhs1 == Assign(lhs, rhs1)[|lhs| + 2..];
  }

  // ---------------------------------------------------------------------
  // nodes

  /** The value of a #define: a string or an int. */
  datatype DefValue = DefStr(s: string) | DefInt(i: int)

  /** The value as C source: str() of an int, a string between double quotes. */
  function PrettyValue(v: DefValue): (r: string)
    ensures v.DefInt? ==> r == IntToString(v.i) && IntValue(r) == v.i && NoSpace(r)
    ensures v.DefStr? ==> |r| == |v.s| + 2 && r[0] == '"' && r[|r| - 1] == '"' && r[1..|r| - 1] == v.s
  {
    match v
    case DefInt(i) => IntToString(i)
    case DefStr(s) =>
      var r := "\"" + s + "\"";
      assert r[1..|r| - 1] == s;
      r
  }

  /** Reading the C text back gives the value: no two values print alike. */
  lemma PrettyValueInjective(v: DefValue, w: DefValue)
    requires PrettyValue(v) == PrettyValue(w)
    ensures v == w
  {
    if v.DefInt? && w.DefInt? {
      IntToStringInjective(v.i, w.i);
    }
  }

  datatype Node =
    | Defs(value: DefValue)
    | Open(path: string)
    | Prepare(sql: string)
    | SimpleStr(stmts: seq<string>)
    | Exec(sql: string)

  /** The nodes that render as one checked sqlite3 call. */
  predicate IsCall(n: Node) {
    n.Open? || n.Prepare? || n.Exec?
  }

  /** The text a call node carries: the database path or the SQL statement. */
  function Payload(n: Node): string
    requires IsCall(n)
  {
    match n
    case Open(path) => path
    case Prepare(sql) => sql
    case Exec(sql) => sql
  }

  /** The call up to the opening quote of its string argument. */
  function CallHead(n: Node): string
    requires IsCall(n)
  {
    match n
    case Open(_) => "sqlite3_open(\""
    case Prepare(_) => "sqlite3_prepare_v2(" + Db + ", \""
    case Exec(_) => "sqlite3_exec(" + Db + ", \""
  }

  /** The call from the closing quote of its string argument on. */
  function CallTail(n: Node): string
    requires IsCall(n)
  {
    match n
    case Open(_) => "\", &" + Db + ");"
    case Prepare(_) => "\", -1, &" + Stmt + ", NULL);"
    case Exec(_) => "\", NULL, NULL, &" + ErrMsg + ");"
  }

  /** context.get(key, 0) */
  function Get(ctx: map<string, int>, key: string): int {
    if key in ctx then ctx[key] else 0
  }

  /** #define TEMP_<n> <value> */
  function DefineLine(n: int, v: DefValue): string {
    "#define " + DefPrefix + "_" + (IntToString(n) + " " + PrettyValue(v))
  }

  /** The lines a node contributes to main(), given the naming context. */
  function Render(n: Node, ctx: map<string, int>): seq<string> {
    match n
    case Defs(v) => [DefineLine(Get(ctx, DefPrefix) + 1, v)]
    case SimpleStr(stmts) => stmts
    case _ => [Assign(ReturnCode, CallHead(n) + Payload(n) + CallTail(n)), ExitOnErrorCall]
  }

  /** A call node renders as two lines: the call assigned to rc, with its
      text argument between double quotes exactly as given (nothing is
      escaped), then the check that it returned SQLITE_OK. */
  lemma RenderCall(n: Node, ctx: map<string, int>)
    requires IsCall(n)
    ensures var lines := Render(n, ctx);
      |lines| == 2 &&
      lines[0] == Assign(ReturnCode, CallHead(n) + Payload(n) + CallTail(n)) &&
      lines[1] == ExitOnErrorCall
  {
  }

  lemma Middle(h: string, p: string, t: string)
    ensures var s := h + p + t; s[|h|..|s| - |t|] == p
  {
  }

  lemma SliceOfSuffix(line: string, off: nat, rest: string, i: nat, j: nat)
    requires off <= |line| && line[off..] == rest && i <= j <= |rest|
    ensures line[off + i..off + j] == rest[i..j]
  {
    forall k | 0 <= k < j - i ensures line[off + i..off + j][k] == rest[i..j][k] {
      assert line[off..][i + k] == line[off + i + k];
    }
  }

  /** The SQL or path can be cut back out of the rendered call. */
  lemma RenderCallPayload(n: Node, ctx: map<string, int>)
    requires IsCall(n)
    ensures var line := Render(n, ctx)[0];
      var start := |ReturnCode| + 2 + |CallHead(n)|;
      start + |CallTail(n)| <= |line| &&
      line[start..|line| - |CallTail(n)|] == Payload(n)
  {
    RenderCall(n, ctx);
    var line := Render(n, ctx)[0];
    var rhs := CallHead(n) + Payload(n) + CallTail(n);
    Middle(CallHead(n), Payload(n), CallTail(n));
    SliceOfSuffix(line, |ReturnCode| + 2, rhs, |CallHead(n)|, |rhs| - |CallTail(n)|);
  }

  lemma GoldenExitOnError()
    ensures ExitOnErrorCall == "exit_if_not_ok(rc, errMsg, SQLITE_OK);"
  {
  }

  lemma GoldenOpenPieces(path: string)
    ensures ReturnCode + "\t=" + CallHead(Open(path)) == "rc\t=sqlite3_open(\""
    ensures CallTail(Open(path)) == "\", &db);"
  {
  }

  lemma GoldenExecPieces(sql: string)
    ensures ReturnCode + "\t=" + CallHead(Exec(sql)) == "rc\t=sqlite3_exec(db, \""
    ensures CallTail(Exec(sql)) == "\", NULL, NULL, &errMsg);"
  {
  }

  lemma GoldenPreparePieces(sql: string)
    ensures ReturnCode + "\t=" + CallHead(Prepare(sql)) == "rc\t=sqlite3_prepare_v2(db, \""
    ensures CallTail(Prepare(sql)) == "\", -1, &stmt, NULL);"
  {
  }

  lemma Regroup3(a: string, h: string, p: string, t: string)
    ensures a + (h + p + t) == (a + h) + p + t
  {
  }

  /** The exact text of an open call, as the expected output of the
      project's test shows it. */
  lemma GoldenOpen(path: string)
    ensures Render(Open(path), map[]) ==
      ["rc\t=sqlite3_open(\"" + path + "\", &db);", "exit_if_not_ok(rc, errMsg, SQLITE_OK);"]
  {
    var n := Open(path);
    GoldenOpenPieces(path);
    Regroup3(ReturnCode + "\t=", CallHead(n), path, CallTail(n));
    assert Render(n, map[])[0] == ReturnCode + "\t=" + (CallHead(n) + path + CallTail(n));
    GoldenExitOnError();
  }

  /** The exact text of an exec call. */
  lemma GoldenExec(sql: string)
    ensures Render(Exec(sql), map[]) ==
      ["rc\t=sqlite3_exec(db, \"" + sql + "\", NULL, NULL, &errMsg);", "exit_if_not_ok(rc, errMsg, SQLITE_OK);"]
  {
    var n := Exec(sql);
    GoldenExecPieces(sql);
    Regroup3(ReturnCode + "\t=", CallHead(n), sql, CallTail(n));
    assert Render(n, map[])[0] == ReturnCode + "\t=" + (CallHead(n) + sql + CallTail(n));
    GoldenExitOnError();
  }

  /** The exact text of a prepare call. */
  lemma GoldenPrepare(sql: string)
    ensures Render(Prepare(sql), map[]) ==
      ["rc\t=sqlite3_prepare_v2(db, \"" + sql + "\", -1, &stmt, NULL);", "exit_if_not_ok(rc, errMsg, SQLITE_OK);"]
  {
    var n := Prepare(sql);
    GoldenPreparePieces(sql);
    Regroup3(ReturnCode + "\t=", CallHead(n), sql, CallTail(n));
    assert Render(n, map[])[0] == ReturnCode + "\t=" + (CallHead(n) + sql + CallTail(n));
    GoldenExitOnError();
  }

  /** Only a #define reads the naming context. */
  lemma RenderIgnoresContext(n: Node, ctx1: map<string, int>, ctx2: map<string, int>)
    requires !n.Defs?
    ensures Render(n, ctx1) == Render(n, ctx2)
  {
  }

  /** The three call heads differ at their ninth character (o, p, e). */
  lemma CallHeadsDiffer(n: Node, m: Node)
    requires IsCall(n) && IsCall(m)
    requires n.Open? != m.Open? || n.Prepare? != m.Prepare?
    ensures CallHead(n)[8] != CallHead(m)[8]
  {
  }

  /** A rendered call determines its node: kind and text. */
  lemma RenderCallInjective(n: Node, m: Node, ctx: map<string, int>)
    requires IsCall(n) && IsCall(m)
    requires Render(n, ctx)[0] == Render(m, ctx)[0]
    ensures n == m
  {
    RenderCall(n, ctx);
    RenderCall(m, ctx);
    var rn := CallHead(n) + Payload(n) + CallTail(n);
    var rm := CallHead(m) + Payload(m) + CallTail(m);
    AssignInjective(ReturnCode, rn, rm);
    assert rn[8] == CallHead(n)[8] && rm[8] == CallHead(m)[8];
    if n.Open? != m.Open? || n.Prepare? != m.Prepare? {
      CallHeadsDiffer(n, m);
    } else {
      RenderCallPayload(n, ctx);
      RenderCallPayload(m, ctx);
    }
  }

  /** A #define line names its counter and value, and no other pair gives the same line. */
  lemma DefineLineInjective(n1: int, v1: DefValue, n2: int, v2: DefValue)
    requires DefineLine(n1, v1) == DefineLine(n2, v2)
    ensures n1 == n2 && v1 == v2
  {
    var head := "#define " + DefPrefix + "_";
    var t1 := IntToString(n1) + " " + PrettyValue(v1);
    var t2 := IntToString(n2) + " " + PrettyValue(v2);
    assert t1 == (head + t1)[|head|..];
    assert t2 == (head + t2)[|head|..];
    SplitAtSpace(IntToString(n1), PrettyValue(v1), IntToString(n2), PrettyValue(v2));
    IntToStringInjective(n1, n2);
    PrettyValueInjective(v1, v2);
  }

  // ---------------------------------------------------------------------
  // the naming context

  /** The dict canonicalize receives: how many names each prefix has handed out. */
  class NamingContext {
    var counters: map<string, int>

    constructor ()
      ensures counters == map[]
    {
      counters := map[];
    }

    /** CDefs.canonicalize: the #define takes the next number of its
        prefix, and the context records it. */
    method Define(v: DefValue) returns (lines: seq<string>)
      modifies this
      ensures counters == old(counters)[DefPrefix := Get(old(counters), DefPrefix) + 1]
      ensures lines == [DefineLine(counters[DefPrefix], v)]
    {
      counters := counters[DefPrefix := Get(counters, DefPrefix) + 1];
      lines := [DefineLine(counters[DefPrefix], v)];
    }

    /** canonicalize on any node: a #define goes through the context; every
        other node is a value whose lines ignore it. */
    method Canonicalize(n: Node) returns (lines: seq<string>)
      modifies this
      ensures lines == Render(n, old(counters))
      ensures n.Defs? ==> counters == old(counters)[DefPrefix := Get(old(counters), DefPrefix) + 1]
      ensures !n.Defs? ==> counters == old(counters)
    {
      if n.Defs? {
        lines := Define(n.value);
      } else {
        lines := Render(n, counters);
      }
    }
  }

  /** Two #define nodes canonicalized one after the other in the same
      context get different names, whatever their values. */
  lemma SuccessiveDefinesDiffer(ctx: map<string, int>, v1: DefValue, v2: DefValue)
    ensures var ctx1 := ctx[DefPrefix := Get(ctx, DefPrefix) + 1];
      Render(Defs(v1), ctx) != Render(Defs(v2), ctx1)
  {
    var ctx1 := ctx[DefPrefix := Get(ctx, DefPrefix) + 1];
    if Render(Defs(v1), ctx) == Render(Defs(v2), ctx1) {
      assert Render(Defs(v1), ctx)[0] == Render(Defs(v2), ctx1)[0];
      DefineLineInjective(Get(ctx, DefPrefix) + 1, v1, Get(ctx1, DefPrefix) + 1, v2);
    }
  }
}
