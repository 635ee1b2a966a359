/**
  The column specs of a select directive: the matches of the pattern
  \((text|int), (\d+), ([a-z]+)\) found left to right in the directive
  comment, as re.findall returns them, and the printf call that prints
  one result row from them.

  The scanner works on suffixes: MatchPrefix tries the pattern at the
  start of a string and returns the spec and the text after the match;
  FindAll moves along the string as findall does (past a match, or one
  character on).
 */
module ColumnSpecs {
  import opened Text

  /** The first group of the pattern: the column's type. */
  datatype ColumnKind = TextColumn | IntColumn

  /** One match: the column's type, its index (the digits exactly as
      written) and the name printed before its value. */
  datatype ColumnSpec = ColumnSpec(kind: ColumnKind, ordinal: string, name: string)

  function KindName(k: ColumnKind): string {
    match k
    case TextColumn => "text"
    case IntColumn => "int"
  }

  predicate AllIn(s: string, cls: CharClass) {
    forall k | 0 <= k < |s| :: InClass(s[k], cls)
  }

  /** A spec the pattern can produce: at least one digit, at least one lower-case letter. */
  predicate WellFormed(c: ColumnSpec) {
    |c.ordinal| > 0 && AllIn(c.ordinal, Digit) && |c.name| > 0 && AllIn(c.name, Lower)
  }

  predicate AllWellFormed(cs: seq<ColumnSpec>) {
    |cs| == 0 || (WellFormed(cs[0]) && AllWellFormed(cs[1..]))
  }

  /** The text a spec is matched from: "(kind, ordinal, name)". */
  function SpecText(c: ColumnSpec): string {
    "(" + KindName(c.kind) + ", " + c.ordinal + ", " + c.name + ")"
  }

  /** SpecText followed by more text, grouped the way the matcher reads it. */
  lemma SpecTextNested(c: ColumnSpec, rest: string)
    ensures SpecText(c) + rest ==
            "(" + (KindName(c.kind) + (", " + (c.ordinal + (", " + (c.name + (")" + rest))))))
  {
  }

  // ---------------------------------------------------------------------
  // one match

  lemma StartsSplit(s: string, p: string)
    requires StartsWith(s, p)
    ensures s == p + s[|p|..]
  {
  }

  /** The greedy run at the start of w, and the split it makes. */
  lemma RunPrefix(w: string, cls: CharClass)
    ensures var d := Run(w, 0, cls); AllIn(w[..d], cls) && w == w[..d] + w[d..]
  {
    var d := Run(w, 0, cls);
    forall k | 0 <= k < d ensures InClass(w[..d][k], cls) {
      assert w[..d][k] == w[k];
    }
  }

  /** A run of class cls followed by a character outside it is exactly that run. */
  lemma RunOfPrefix(f: string, rest: string, cls: CharClass)
    requires AllIn(f, cls) && |rest| > 0 && !InClass(rest[0], cls)
    ensures Run(f + rest, 0, cls) == |f|
    ensures (f + rest)[..|f|] == f && (f + rest)[|f|..] == rest
  {
    var y := f + rest;
    forall k | 0 <= k < |f| ensures InClass(y[k], cls) {
      assert y[k] == f[k];
    }
    assert y[|f|] == rest[0];
    RunExact(y, 0, cls, |f|);
  }

  /** A match and the text after it. */
  type Tail = (ColumnSpec, string)

  /** ([a-z]+)\) at the start of y, the kind and ordinal already read. */
  function MatchName(y: string, kind: ColumnKind, ordinal: string): (r: Option<Tail>)
    ensures r.Some? ==>
      var (c, rest) := r.value;
      c.kind == kind && c.ordinal == ordinal && |c.name| > 0 && AllIn(c.name, Lower) &&
      y == c.name + (")" + rest)
  {
    var n := Run(y, 0, Lower);
    if n == 0 then None
    else
      var z := y[n..];
      if !StartsWith(z, ")") then None
      else
        RunPrefix(y, Lower);
        StartsSplit(z, ")");
        Some((ColumnSpec(kind, ordinal, y[..n]), z[1..]))
  }

  lemma MatchNameComplete(name: string, rest: string, kind: ColumnKind, ordinal: string)
    requires |name| > 0 && AllIn(name, Lower)
    ensures MatchName(name + (")" + rest), kind, ordinal) == Some((ColumnSpec(kind, ordinal, name), rest))
  {
    RunOfPrefix(name, ")" + rest, Lower);
  }

  /** (\d+), ([a-z]+)\) at the start of w, the kind already read. */
  function MatchOrdinal(w: string, kind: ColumnKind): (r: Option<Tail>)
    ensures r.Some? ==>
      var (c, rest) := r.value;
      c.kind == kind && |c.ordinal| > 0 && AllIn(c.ordinal, Digit) &&
      |c.name| > 0 && AllIn(c.name, Lower) &&
      w == c.ordinal + (", " + (c.name + (")" + rest)))
  {
    var d := Run(w, 0, Digit);
    if d == 0 then None
    else
      var x := w[d..];
      if !StartsWith(x, ", ") then None
      else
        RunPrefix(w, Digit);
        StartsSplit(x, ", ");
        MatchName(x[2..], kind, w[..d])
  }

  /** A digit run and ", " are consumed; the name is matched next. */
  lemma MatchOrdinalStep(ordinal: string, y: string, kind: ColumnKind)
    requires |ordinal| > 0 && AllIn(ordinal, Digit)
    ensures MatchOrdinal(ordinal + (", " + y), kind) == MatchName(y, kind, ordinal)
  {
    var x := ", " + y;
    RunOfPrefix(ordinal, x, Digit);
    assert x[..2] == ", " && x[2..] == y;
  }

  /** (text|int), (\d+), ([a-z]+)\) at the start of u. */
  function MatchKind(u: string): (r: Option<Tail>)
    ensures r.Some? ==>
      var (c, rest) := r.value;
      WellFormed(c) &&
      u == KindName(c.kind) + (", " + (c.ordinal + (", " + (c.name + (")" + rest)))))
  {
    var kind := if StartsWith(u, "text") then TextColumn else IntColumn;
    if !StartsWith(u, KindName(kind)) then None
    else
      var v := u[|KindName(kind)|..];
      if !StartsWith(v, ", ") then None
      else
        StartsSplit(u, KindName(kind));
        StartsSplit(v, ", ");
        MatchOrdinal(v[2..], kind)
  }

  /** The type name and ", " are consumed; the ordinal is matched next. */
  lemma MatchKindStep(kind: ColumnKind, w: string)
    ensures MatchKind(KindName(kind) + (", " + w)) == MatchOrdinal(w, kind)
  {
    var v := ", " + w;
    var u := KindName(kind) + v;
    assert u[..|KindName(kind)|] == KindName(kind) && u[|KindName(kind)|..] == v;
    assert v[..2] == ", " && v[2..] == w;
  }

  /** The pattern tried at the start of t: the spec it matches and the text after the match. */
  function MatchPrefix(t: string): (r: Option<Tail>)
    ensures r.Some? ==> WellFormed(r.value.0) && t == SpecText(r.value.0) + r.value.1
    ensures r.Some? ==> |r.value.1| < |t|
  {
    if !StartsWith(t, "(") then None
    else
      var r := MatchKind(t[1..]);
      StartsSplit(t, "(");
      if r.None? then None
      else
        SpecTextNested(r.value.0, r.value.1);
        r
  }

  lemma MatchPrefixStep(u: string)
    ensures MatchPrefix("(" + u) == MatchKind(u)
  {
    assert ("(" + u)[1..] == u;
  }

  /** The pattern matches a spec's own text, and ends just after it. */
  lemma MatchPrefixComplete(c: ColumnSpec, rest: string)
    requires WellFormed(c)
    ensures MatchPrefix(SpecText(c) + rest) == Some((c, rest))
  {
    SpecTextNested(c, rest);
    MatchPrefixStep(KindName(c.kind) + (", " + (c.ordinal + (", " + (c.name + (")" + rest))))));
    MatchKindStep(c.kind, c.ordinal + (", " + (c.name + (")" + rest))));
    MatchOrdinalStep(c.ordinal, c.name + (")" + rest), c.kind);
    MatchNameComplete(c.name, rest, c.kind, c.ordinal);
  }

  /** A name run that stops at a character other than ')' is no match. */
  lemma MatchNameStops(name: string, tail: string, kind: ColumnKind, ordinal: string)
    requires AllIn(name, Lower) && |tail| > 0 && tail[0] != ')' && !InClass(tail[0], Lower)
    ensures MatchName(name + tail, kind, ordinal) == None
  {
    RunOfPrefix(name, tail, Lower);
  }

  /** A spec whose name runs into a character that is neither a lower-case
      letter nor ')' (an underscore, a digit, a capital) is not matched. */
  lemma MatchPrefixRejectsName(kind: ColumnKind, ordinal: string, name: string, tail: string)
    requires |ordinal| > 0 && AllIn(ordinal, Digit) && AllIn(name, Lower)
    requires |tail| > 0 && tail[0] != ')' && !InClass(tail[0], Lower)
    ensures MatchPrefix("(" + (KindName(kind) + (", " + (ordinal + (", " + (name + tail)))))) == None
  {
    MatchPrefixStep(KindName(kind) + (", " + (ordinal + (", " + (name + tail)))));
    MatchKindStep(kind, ordinal + (", " + (name + tail)));
    MatchOrdinalStep(ordinal, name + tail, kind);
    MatchNameStops(name, tail, kind, ordinal);
  }

  // ---------------------------------------------------------------------
  // findall

  /** re.findall of the pattern over t: every non-overlapping match, left to right. */
  function FindAll(t: string): seq<ColumnSpec>
    decreases |t|
  {
    if |t| == 0 then []
    else
      match MatchPrefix(t)
      case Some((c, rest)) => [c] + FindAll(rest)
      case None => FindAll(t[1..])
  }

  /** Every spec findall reports is one the pattern can produce. */
  lemma {:induction false} FindAllWellFormed(t: string)
    ensures AllWellFormed(FindAll(t))
    decreases |t|
  {
    if |t| > 0 {
      match MatchPrefix(t)
      case Some((c, rest)) =>
        FindAllWellFormed(rest);
        assert ([c] + FindAll(rest))[1..] == FindAll(rest);
      case None =>
        FindAllWellFormed(t[1..]);
    }
  }

  /** Digits and lower-case letters are not '('. */
  lemma NoParenIn(s: string, cls: CharClass)
    requires cls == Digit || cls == Lower
    requires AllIn(s, cls)
    ensures forall k | 0 <= k < |s| :: s[k] != '('
  {
  }

  lemma KindNameLower(k: ColumnKind)
    ensures AllIn(KindName(k), Lower)
  {
  }

  /** The fields of a group, up to the end of its name, hold no match. */
  lemma FindAllSkipsFields(kind: ColumnKind, ordinal: string, name: string, tail: string)
    requires AllIn(ordinal, Digit) && AllIn(name, Lower)
    ensures FindAll(KindName(kind) + (", " + (ordinal + (", " + (name + tail))))) == FindAll(tail)
  {
    NoParenIn(ordinal, Digit);
    NoParenIn(name, Lower);
    FindAllSkip(name, tail);
    FindAllSkip(", ", name + tail);
    FindAllSkip(ordinal, ", " + (name + tail));
    FindAllSkip(", ", ordinal + (", " + (name + tail)));
    KindNameLower(kind);
    NoParenIn(KindName(kind), Lower);
    FindAllSkip(KindName(kind), ", " + (ordinal + (", " + (name + tail))));
  }

  /** A group the pattern rejects because its name runs into another
      character contributes nothing: scanning goes on after the name. */
  lemma FindAllRejected(kind: ColumnKind, ordinal: string, name: string, tail: string)
    requires |ordinal| > 0 && AllIn(ordinal, Digit) && AllIn(name, Lower)
    requires |tail| > 0 && tail[0] != ')' && !InClass(tail[0], Lower)
    ensures FindAll("(" + (KindName(kind) + (", " + (ordinal + (", " + (name + tail)))))) == FindAll(tail)
  {
    var u := KindName(kind) + (", " + (ordinal + (", " + (name + tail))));
    MatchPrefixRejectsName(kind, ordinal, name, tail);
    assert ("(" + u)[1..] == u;
    FindAllSkipsFields(kind, ordinal, name, tail);
  }

  /** The specs of a select directive comment. */
  function ExtractSpecs(comment: string): seq<ColumnSpec>
  {
    FindAll(comment)
  }

  /** Text without an opening parenthesis contributes no match. */
  lemma {:induction false} FindAllSkip(p: string, t: string)
    requires forall k | 0 <= k < |p| :: p[k] != '('
    ensures FindAll(p + t) == FindAll(t)
    decreases |p|
  {
    if |p| == 0 {
      assert p + t == t;
    } else {
      assert (p + t)[0] == p[0];
      assert (p + t)[1..] == p[1..] + t;
      FindAllSkip(p[1..], t);
    }
  }

  lemma FindAllNone(p: string)
    requires forall k | 0 <= k < |p| :: p[k] != '('
    ensures FindAll(p) == []
  {
    FindAllSkip(p, "");
    assert p + "" == p;
  }

  /** A spec's text is read as that spec, and scanning resumes right after it. */
  lemma FindAllCons(c: ColumnSpec, rest: string)
    requires WellFormed(c)
    ensures FindAll(SpecText(c) + rest) == [c] + FindAll(rest)
  {
    MatchPrefixComplete(c, rest);
  }

  function SpecTexts(cs: seq<ColumnSpec>): (r: seq<string>)
    ensures |r| == |cs| && forall k | 0 <= k < |cs| :: r[k] == SpecText(cs[k])
  {
    if |cs| == 0 then [] else [SpecText(cs[0])] + SpecTexts(cs[1..])
  }

  /** The specs written as the directive expects them: "(…), (…), …". */
  function SpecListText(cs: seq<ColumnSpec>): string
  {
    Join(SpecTexts(cs), ", ")
  }

  lemma SpecListTextCons(cs: seq<ColumnSpec>)
    requires |cs| > 1
    ensures SpecListText(cs) == SpecText(cs[0]) + (", " + SpecListText(cs[1..]))
  {
    assert SpecTexts(cs)[1..] == SpecTexts(cs[1..]);
  }

  /** The separator of a spec list holds no match. */
  lemma FindAllSkipSeparator(t: string)
    ensures FindAll(", " + t) == FindAll(t)
  {
    FindAllSkip(", ", t);
  }

  lemma HeadTail<T>(s: seq<T>)
    requires |s| > 0
    ensures [s[0]] + s[1..] == s
  {
  }

  lemma FindAllOfListStep(cs: seq<ColumnSpec>)
    requires |cs| > 1 && WellFormed(cs[0])
    requires FindAll(SpecListText(cs[1..])) == cs[1..]
    ensures FindAll(SpecListText(cs)) == cs
  {
    var more := SpecListText(cs[1..]);
    SpecListTextCons(cs);
    FindAllCons(cs[0], ", " + more);
    FindAllSkipSeparator(more);
    HeadTail(cs);
  }

  /** The scanner reads back exactly the specs a list spells, in order. */
  lemma {:induction false} FindAllOfList(cs: seq<ColumnSpec>)
    requires AllWellFormed(cs)
    ensures FindAll(SpecListText(cs)) == cs
    decreases |cs|
  {
    if |cs| == 1 {
      assert SpecListText(cs) == SpecText(cs[0]) + "";
      FindAllCons(cs[0], "");
      assert FindAll("") == [];
    } else if |cs| > 1 {
      FindAllOfList(cs[1..]);
      FindAllOfListStep(cs);
    }
  }

  /** A non-empty spec list ends with the closing parenthesis of its last spec. */
  lemma {:induction false} SpecListTextEnds(cs: seq<ColumnSpec>)
    requires |cs| > 0
    ensures var t := SpecListText(cs); |t| > 0 && t[|t| - 1] == ')'
  {
    if |cs| == 1 {
      assert SpecTexts(cs) == [SpecText(cs[0])];
    } else {
      SpecListTextCons(cs);
      SpecListTextEnds(cs[1..]);
    }
  }

  /** Round trip: a select directive that lists well-formed specs yields
      exactly those specs, in the order written. */
  lemma ExtractSpecsRoundTrip(cs: seq<ColumnSpec>)
    requires AllWellFormed(cs)
    ensures ExtractSpecs(".SQL2C_select " + SpecListText(cs)) == cs
  {
    FindAllSkip(".SQL2C_select ", SpecListText(cs));
    FindAllOfList(cs);
  }

  // ---------------------------------------------------------------------
  // the printf call

  /** The printf conversion for a column: %s for text, %d otherwise. */
  function Placeholder(k: ColumnKind): string {
    if k == TextColumn then "%s" else "%d"
  }

  /** One item of the format string: "name: %s" or "name: %d". */
  function FormatItem(c: ColumnSpec): string {
    c.name + ": " + Placeholder(c.kind)
  }

  /** One argument: sqlite3_column_text(stmt, i) or sqlite3_column_int(stmt, i). */
  function ColumnFetch(c: ColumnSpec): string {
    "sqlite3_column_" + KindName(c.kind) + "(stmt, " + c.ordinal + ")"
  }

  function FormatItems(cs: seq<ColumnSpec>): (r: seq<string>)
    ensures |r| == |cs| && forall k | 0 <= k < |cs| :: r[k] == FormatItem(cs[k])
  {
    if |cs| == 0 then [] else [FormatItem(cs[0])] + FormatItems(cs[1..])
  }

  function ColumnFetches(cs: seq<ColumnSpec>): (r: seq<string>)
    ensures |r| == |cs| && forall k | 0 <= k < |cs| :: r[k] == ColumnFetch(cs[k])
  {
    if |cs| == 0 then [] else [ColumnFetch(cs[0])] + ColumnFetches(cs[1..])
  }

  /** The format items joined by ", ". */
  function FormatString(cs: seq<ColumnSpec>): string {
    Join(FormatItems(cs), ", ")
  }

  /** The column fetches joined by "," (no space). */
  function Arguments(cs: seq<ColumnSpec>): string {
    Join(ColumnFetches(cs), ",")
  }

  /** printf("<format>\n", <arguments>); with a C escape \n in the format. */
  function PrintfCall(cs: seq<ColumnSpec>): string {
    "printf(\"" + FormatString(cs) + "\\n\", " + Arguments(cs) + ");"
  }

  /** With no specs the call keeps its comma and has no argument. */
  lemma PrintfCallEmpty()
    ensures PrintfCall([]) == "printf(\"\\n\", );"
  {
  }

  lemma CountAbsent(ch: char, s: string)
    requires forall k | 0 <= k < |s| :: s[k] != ch
    ensures Count(ch, s) == 0
  {
    if |s| > 0 {
      assert forall k | 0 <= k < |s[1..]| :: s[1..][k] == s[k + 1];
      CountAbsent(ch, s[1..]);
    }
  }

  /** A one-character string followed by a text without that character. */
  lemma CountLeading(ch: char, rest: string)
    requires forall k | 0 <= k < |rest| :: rest[k] != ch
    ensures Count(ch, [ch] + rest) == 1
  {
    assert ([ch] + rest)[1..] == rest;
    CountAbsent(ch, rest);
  }

  lemma PlaceholderConversion(k: ColumnKind)
    ensures Count('%', Placeholder(k)) == 1
  {
    CountLeading('%', Placeholder(k)[1..]);
    assert Placeholder(k) == ['%'] + Placeholder(k)[1..];
  }

  /** Each format item holds exactly one conversion. */
  lemma FormatItemConversions(c: ColumnSpec)
    requires WellFormed(c)
    ensures Count('%', FormatItem(c)) == 1
  {
    CountAbsent('%', c.name);
    CountAbsent('%', ": ");
    PlaceholderConversion(c.kind);
    CountConcat('%', c.name, ": ");
    CountConcat('%', c.name + ": ", Placeholder(c.kind));
  }

  lemma FetchHeadCount()
    ensures Count('(', "sqlite3_column_") == 0
  {
    CountAbsent('(', "sqlite3_column_");
  }

  lemma FetchOpenCount()
    ensures Count('(', "(stmt, ") == 1
  {
    CountLeading('(', "stmt, ");
    assert "(stmt, " == ['('] + "stmt, ";
  }

  lemma FetchPieceCounts(k: ColumnKind)
    ensures Count('(', KindName(k)) == 0 && Count('(', ")") == 0
  {
    CountAbsent('(', KindName(k));
    CountAbsent('(', ")");
  }

  /** Each fetch is exactly one call: it holds one opening parenthesis. */
  lemma ColumnFetchCalls(c: ColumnSpec)
    requires WellFormed(c)
    ensures Count('(', ColumnFetch(c)) == 1
  {
    var head := "sqlite3_column_" + KindName(c.kind);
    FetchHeadCount();
    FetchOpenCount();
    FetchPieceCounts(c.kind);
    CountAbsent('(', c.ordinal);
    CountConcat('(', "sqlite3_column_", KindName(c.kind));
    CountConcat('(', head, "(stmt, ");
    CountConcat('(', head + "(stmt, ", c.ordinal);
    CountConcat('(', head + "(stmt, " + c.ordinal, ")");
  }

  lemma {:induction false} ItemConversions(cs: seq<ColumnSpec>)
    requires AllWellFormed(cs)
    ensures CountAll('%', FormatItems(cs)) == |cs|
    ensures CountAll('(', ColumnFetches(cs)) == |cs|
    decreases |cs|
  {
    if |cs| > 0 {
      FormatItemConversions(cs[0]);
      ColumnFetchCalls(cs[0]);
      ItemConversions(cs[1..]);
      assert FormatItems(cs)[1..] == FormatItems(cs[1..]);
      assert ColumnFetches(cs)[1..] == ColumnFetches(cs[1..]);
    }
  }

  /** The format string has one conversion per spec and the argument list
      one fetch per spec: printf gets as many arguments as it asks for. */
  lemma PrintfArity(cs: seq<ColumnSpec>)
    requires AllWellFormed(cs)
    ensures Count('%', FormatString(cs)) == |cs|
    ensures Count('(', Arguments(cs)) == |cs|
  {
    ItemConversions(cs);
    CountJoin('%', FormatItems(cs), ", ");
    CountJoin('(', ColumnFetches(cs), ",");
  }

  /** The k-th format item and the k-th argument come from the same spec,
      and agree on its type: %s with sqlite3_column_text, %d with
      sqlite3_column_int. */
  lemma PrintfTypesAgree(cs: seq<ColumnSpec>, k: nat)
    requires k < |cs|
    ensures FormatItems(cs)[k] == FormatItem(cs[k]) && ColumnFetches(cs)[k] == ColumnFetch(cs[k])
    ensures var c := cs[k];
      (Placeholder(c.kind) == "%s" && KindName(c.kind) == "text") ||
      (Placeholder(c.kind) == "%d" && KindName(c.kind) == "int")
  {
    match cs[k].kind
    case TextColumn =>
    case IntColumn =>
  }

  lemma FormatPieces(a: ColumnSpec, b: ColumnSpec)
    ensures FormatString([a, b]) == FormatItem(a) + ", " + FormatItem(b)
    ensures Arguments([a, b]) == ColumnFetch(a) + "," + ColumnFetch(b)
  {
    assert [a, b][1..] == [b];
    assert FormatItems([a, b]) == [FormatItem(a), FormatItem(b)];
    assert ColumnFetches([a, b]) == [ColumnFetch(a), ColumnFetch(b)];
    JoinPair(FormatItem(a), FormatItem(b), ", ");
    JoinPair(ColumnFetch(a), ColumnFetch(b), ",");
  }

  lemma GoldenFormat()
    ensures FormatItem(ColumnSpec(TextColumn, "0", "name")) + ", " + FormatItem(ColumnSpec(IntColumn, "1", "age"))
         == "name: %s, age: %d"
  {
  }

  lemma GoldenTextFetch()
    ensures ColumnFetch(ColumnSpec(TextColumn, "0", "name")) == "sqlite3_column_text(stmt, 0)"
  {
  }

  lemma GoldenIntFetch()
    ensures ColumnFetch(ColumnSpec(IntColumn, "1", "age")) == "sqlite3_column_int(stmt, 1)"
  {
  }

  lemma GoldenArguments()
    ensures "sqlite3_column_text(stmt, 0)" + "," + "sqlite3_column_int(stmt, 1)"
         == "sqlite3_column_text(stmt, 0),sqlite3_column_int(stmt, 1)"
  {
  }

  /** The specs (text, 0, name), (int, 1, age) give the printf line of the
      expected output for the sample script. */
  lemma GoldenPrintf()
    ensures PrintfCall([ColumnSpec(TextColumn, "0", "name"), ColumnSpec(IntColumn, "1", "age")]) ==
            "printf(\"" + "name: %s, age: %d" + "\\n\", " +
            "sqlite3_column_text(stmt, 0),sqlite3_column_int(stmt, 1)" + ");"
  {
    FormatPieces(ColumnSpec(TextColumn, "0", "name"), ColumnSpec(IntColumn, "1", "age"));
    GoldenFormat();
    GoldenTextFetch();
    GoldenIntFetch();
    GoldenArguments();
  }
}
