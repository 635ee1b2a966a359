/**
  The translator proper: each line of the SQL script becomes zero, one or
  three nodes (a select directive also consumes the line after it), and
  the nodes, rendered in order between a fixed preamble and the closing
  brace of main(), make the C file.
 */
module Parser {
  import opened Text
  import opened ColumnSpecs
  import opened Nodes

  /** What a parse_* function returns: the new nodes and the index of the
      next line to parse. */
  datatype Step = Step(nodes: seq<Node>, next: nat)

  /** No node is a #define: the parser never makes one, since perform_parse
      renders with no naming context. */
  predicate NoDefs(nodes: seq<Node>) {
    forall k | 0 <= k < |nodes| :: !nodes[k].Defs?
  }

  // ---------------------------------------------------------------------
  // the comment text parse_comment looks at

  /** The text after the first "--" of a raw line, stripped. */
  function CommentText(raw: string): (r: string)
    requires IndexOf(raw, CommentTicker).Some?
    ensures Trimmed(r)
  {
    var k := IndexOf(raw, CommentTicker).value;
    Strip(raw[k + |CommentTicker|..])
  }

  /** A comment whose text starts with .SQL2C_select. */
  predicate IsSelectComment(raw: string) {
    IndexOf(raw, CommentTicker).Some? && StartsWith(CommentText(raw), ReadSpecTicker)
  }

  /** A line that strips to a comment has its first "--" right after its
      leading whitespace. */
  lemma CommentStart(raw: string)
    requires StartsWith(Strip(raw), CommentTicker)
    ensures IndexOf(raw, CommentTicker) == Some(Run(raw, 0, Space))
  {
    var i := Run(raw, 0, Space);
    var m := Strip(raw);
    assert raw[i..i + 2] == m[..2];
    assert OccursAt(raw, CommentTicker, i);
    forall k | 0 <= k < i ensures !OccursAt(raw, CommentTicker, k) {
      assert IsSpace(raw[k]);
    }
  }

  /** parse_comment re-reads the unstripped line, yet it sees the same text
      as the stripped line shows after its "--". */
  lemma CommentTextOfStripped(raw: string)
    requires StartsWith(Strip(raw), CommentTicker)
    ensures IndexOf(raw, CommentTicker).Some?
    ensures CommentText(raw) == Strip(Strip(raw)[2..])
  {
    CommentStart(raw);
    var i := Run(raw, 0, Space);
    var m := Strip(raw);
    var w := raw[i + |m|..];
    assert raw[i + 2..] == m[2..] + w;
    assert SpaceBetween(w, 0, |w|) by {
      forall k | 0 <= k < |w| ensures IsSpace(w[k]) { assert w[k] == raw[i + |m| + k]; }
    }
    StripDropsTrailing(m[2..], w);
  }

  // ---------------------------------------------------------------------
  // parse_exec, parse_read_comment_and_select, parse_comment, parse_line

  /** The statement becomes one exec node. */
  function ParseExec(line: string, index: nat): (r: Step)
    ensures r.nodes == [Exec(line)] && r.next == index
    ensures NoDefs(r.nodes)
  {
    Step([Exec(line)], index)
  }

  /** while ( (rc\t=sqlite3_step(stmt)) == SQLITE_ROW ) { */
  const WhileStart := "while ( (" + Assign(ReturnCode, "sqlite3_step(" + Stmt + ")") + ") == SQLITE_ROW ) " + "{"

  /** The loop that steps the prepared statement and prints each row. */
  function SelectLoop(specs: seq<ColumnSpec>): seq<string> {
    [WhileStart, PrintfCall(specs), "}", "sqlite3_finalize(" + Stmt + ");"]
  }

  /** The step call assigned to rc, as it appears inside the loop header. */
  lemma GoldenStepAssign()
    ensures Assign(ReturnCode, "sqlite3_step(" + Stmt + ")") == "rc\t=sqlite3_step(stmt)"
  {
  }

  /** The loop block matches the expected C output, whatever the specs:
      the header, the printf line, the closing brace and the finalize call. */
  lemma GoldenSelectLoop(specs: seq<ColumnSpec>)
    ensures SelectLoop(specs) ==
      ["while ( (rc\t=sqlite3_step(stmt)) == SQLITE_ROW ) {", PrintfCall(specs), "}", "sqlite3_finalize(stmt);"]
  {
    GoldenWhileStart();
    GoldenFinalize();
  }

  /** The loop header of the expected C output. */
  lemma GoldenWhileStart()
    ensures WhileStart == "while ( (rc\t=sqlite3_step(stmt)) == SQLITE_ROW ) {"
  {
    GoldenStepAssign();
    WhileStartPieces();
  }

  lemma WhileStartPieces()
    ensures "while ( (" + "rc\t=sqlite3_step(stmt)" + ") == SQLITE_ROW ) " + "{" ==
            "while ( (rc\t=sqlite3_step(stmt)) == SQLITE_ROW ) {"
  {
    WhileStartHead();
    WhileStartTail();
  }

  lemma WhileStartHead()
    ensures "while ( (" + "rc\t=sqlite3_step(stmt)" == "while ( (rc\t=sqlite3_step(stmt)"
  {
  }

  lemma WhileStartTail()
    ensures "while ( (rc\t=sqlite3_step(stmt)" + ") == SQLITE_ROW ) " + "{" ==
            "while ( (rc\t=sqlite3_step(stmt)) == SQLITE_ROW ) {"
  {
  }

  lemma GoldenFinalize()
    ensures "sqlite3_finalize(" + Stmt + ");" == "sqlite3_finalize(stmt);"
  {
  }

  /** A select directive and the statement on the next line: prepare it,
      print every row by the directive's column specs, check for DONE. */
  function ParseReadCommentAndSelect(line: string, lines: seq<string>, index: nat): (r: Step)
    requires index < |lines|
    ensures r.next == index + 1 && |r.nodes| == 3
    ensures r.nodes[0] == Prepare(Strip(lines[index]))
    ensures r.nodes[1] == SimpleStr(SelectLoop(ExtractSpecs(line)))
    ensures r.nodes[2] == SimpleStr([ExitOnDoneCall])
    ensures NoDefs(r.nodes)
  {
    var sqlLine := lines[index];
    var prepared := Prepare(Strip(sqlLine));
    var matches := ExtractSpecs(line);
    Step([prepared, SimpleStr(SelectLoop(matches)), SimpleStr([ExitOnDoneCall])], index + 1)
  }

  /** The comment on lines[index - 1]: a select directive takes the next
      line with it; any other comment gives nothing. */
  function ParseComment(lines: seq<string>, index: nat): (r: Step)
    requires 1 <= index <= |lines|
    requires IndexOf(lines[index - 1], CommentTicker).Some?
    requires IsSelectComment(lines[index - 1]) ==> index < |lines|
    ensures IsSelectComment(lines[index - 1]) ==>
      r == ParseReadCommentAndSelect(CommentText(lines[index - 1]), lines, index)
    ensures !IsSelectComment(lines[index - 1]) ==> r == Step([], index)
    ensures NoDefs(r.nodes)
  {
    var line := lines[index - 1];
    var cmtIndex := IndexOf(line, CommentTicker).value;
    var text := Strip(line[cmtIndex + |CommentTicker|..]);
    if StartsWith(text, ReadSpecTicker) then ParseReadCommentAndSelect(text, lines, index)
    else Step([], index)
  }

  /** How parse_line treats a line. */
  datatype LineKind = OpenLine | SelectComment | PlainComment | Statement

  function Classify(lines: seq<string>, i: nat): LineKind
    requires i < |lines|
  {
    var line := Strip(lines[i]);
    if StartsWith(line, OpenTicker) then OpenLine
    else if StartsWith(line, CommentTicker) then
      (if IsSelectComment(lines[i]) then SelectComment else PlainComment)
    else Statement
  }

  /** What parse_line needs of line i to not raise: a path after .open, a
      statement after a select directive. */
  predicate LineOk(lines: seq<string>, i: nat)
    requires i < |lines|
  {
    match Classify(lines, i)
    case OpenLine => HasSecondWord(Strip(lines[i]))
    case SelectComment => i + 1 < |lines|
    case _ => true
  }

  /** parse_line: one step of the parser from line i. The cursor moves past
      the line, and past the statement after it for a select directive. */
  function ParseLine(lines: seq<string>, i: nat): (r: Step)
    requires i < |lines| && LineOk(lines, i)
    ensures r.next == (if Classify(lines, i) == SelectComment then i + 2 else i + 1)
    ensures r.next <= |lines|
    ensures NoDefs(r.nodes)
  {
    var line := Strip(lines[i]);
    var index := i + 1;
    if StartsWith(line, OpenTicker) then
      var fileName := SecondWord(line);
      Step([Open(fileName)], index)
    else if StartsWith(line, CommentTicker) then
      CommentTextOfStripped(lines[i]);
      assert lines[index - 1] == lines[i];
      ParseComment(lines, index)
    else
      ParseExec(line, index)
  }

  /** An .open line opens the database named by its second word. */
  lemma ParseLineOpen(lines: seq<string>, i: nat)
    requires i < |lines| && Classify(lines, i) == OpenLine && LineOk(lines, i)
    ensures ParseLine(lines, i) == Step([Open(SecondWord(Strip(lines[i])))], i + 1)
  {
  }

  /** A select directive prepares the next line, loops over the rows
      printing them by the directive's specs, and checks for DONE. */
  lemma ParseLineSelect(lines: seq<string>, i: nat)
    requires i < |lines| && Classify(lines, i) == SelectComment && LineOk(lines, i)
    ensures IndexOf(lines[i], CommentTicker).Some?
    ensures ParseLine(lines, i) == Step([Prepare(Strip(lines[i + 1])),
      SimpleStr(SelectLoop(ExtractSpecs(CommentText(lines[i])))), SimpleStr([ExitOnDoneCall])], i + 2)
  {
    CommentTextOfStripped(lines[i]);
  }

  /** Any other comment gives nothing. */
  lemma ParseLinePlain(lines: seq<string>, i: nat)
    requires i < |lines| && Classify(lines, i) == PlainComment
    ensures LineOk(lines, i) && ParseLine(lines, i) == Step([], i + 1)
  {
    CommentTextOfStripped(lines[i]);
  }

  /** Any other line is executed, stripped. */
  lemma ParseLineStatement(lines: seq<string>, i: nat)
    requires i < |lines| && Classify(lines, i) == Statement
    ensures LineOk(lines, i) && ParseLine(lines, i) == Step([Exec(Strip(lines[i]))], i + 1)
  {
  }

  // ---------------------------------------------------------------------
  // the whole script

  /** Every line the parser visits from line i on parses without raising. */
  predicate ScriptOk(lines: seq<string>, i: nat)
    decreases |lines| - i
  {
    i >= |lines| || (LineOk(lines, i) && ScriptOk(lines, ParseLine(lines, i).next))
  }

  /** The nodes of the script from line i on, in line order. */
  function ParseFrom(lines: seq<string>, i: nat): seq<Node>
    requires ScriptOk(lines, i)
    decreases |lines| - i
  {
    if i >= |lines| then [] else ParseLine(lines, i).nodes + ParseFrom(lines, ParseLine(lines, i).next)
  }

  /** The lines the nodes add to main(): each node's lines, then a blank. */
  function Emit(nodes: seq<Node>): seq<string>
  {
    if |nodes| == 0 then [] else Render(nodes[0], map[]) + [Blank] + Emit(nodes[1..])
  }

  /** Headers, the helper, the declarations and the head of main(). */
  function Preamble(): seq<string> {
    [Headers, ExitOnErrorFunc] + VarDecls + [MainStart]
  }

  /** The C file for a node list. */
  function Assemble(nodes: seq<Node>): seq<string> {
    Preamble() + Emit(nodes) + [MainEnd]
  }

  /** Strip every line. */
  function StripAll(input: seq<string>): (lines: seq<string>)
    ensures |lines| == |input| && forall k | 0 <= k < |input| :: lines[k] == Strip(input[k])
  {
    seq(|input|, k requires 0 <= k < |input| => Strip(input[k]))
  }

  lemma AppendAssoc<T>(a: seq<T>, b: seq<T>, c: seq<T>)
    ensures a + b + c == a + (b + c)
  {
  }

  /** One parser step at the front of ParseFrom. */
  lemma ParseFromStep(lines: seq<string>, i: nat)
    requires i < |lines| && ScriptOk(lines, i)
    ensures var step := ParseLine(lines, i);
      ScriptOk(lines, step.next) && ParseFrom(lines, i) == step.nodes + ParseFrom(lines, step.next)
  {
  }

  lemma EmitOne(n: Node)
    ensures Emit([n]) == Render(n, map[]) + [Blank]
  {
    assert [n][1..] == [];
  }

  /** Rendering one more node appends its lines and a blank. */
  lemma EmitSnoc(pre: seq<string>, nodes: seq<Node>, k: nat)
    requires k < |nodes|
    ensures pre + Emit(nodes[..k + 1]) == pre + Emit(nodes[..k]) + Render(nodes[k], map[]) + [Blank]
  {
    var e := Emit(nodes[..k]);
    var r := Render(nodes[k], map[]);
    assert nodes[..k + 1] == nodes[..k] + [nodes[k]];
    EmitAppend(nodes[..k], [nodes[k]]);
    EmitOne(nodes[k]);
    AppendAssoc(pre, e, r + [Blank]);
    AppendAssoc(pre + e, r, [Blank]);
  }

  /** The parsing loop of perform_parse: parse_line from the cursor until
      the cursor passes the last line, collecting the nodes. */
  method ParseScript(lines: seq<string>) returns (nodes: seq<Node>)
    requires ScriptOk(lines, 0)
    ensures nodes == ParseFrom(lines, 0)
  {
    var index := 0;
    nodes := [];
    while index < |lines|
      invariant ScriptOk(lines, index)
      invariant nodes + ParseFrom(lines, index) == ParseFrom(lines, 0)
      decreases |lines| - index
    {
      var step := ParseLine(lines, index);
      ParseFromStep(lines, index);
      AppendAssoc(nodes, step.nodes, ParseFrom(lines, step.next));
      nodes := nodes + step.nodes;
      index := step.next;
    }
  }

  /** The writing loop of perform_parse: the preamble, every node's lines
      each followed by a blank, and the closing brace. */
  method WriteFile(nodes: seq<Node>) returns (file: seq<string>)
    ensures file == Assemble(nodes)
  {
    file := Preamble();
    for k := 0 to |nodes|
      invariant file == Preamble() + Emit(nodes[..k])
    {
      EmitSnoc(Preamble(), nodes, k);
      file := file + Render(nodes[k], map[]);
      file := file + [Blank];
    }
    assert nodes[..|nodes|] == nodes;
    file := file + [MainEnd];
  }

  /** perform_parse: strip every line, parse the script, write the file. */
  method PerformParse(input: seq<string>) returns (file: seq<string>)
    requires ScriptOk(StripAll(input), 0)
    ensures file == Assemble(ParseFrom(StripAll(input), 0))
  {
    var lines := StripAll(input);
    // The filter tests the length of the list, not of the line: it keeps
    // every line, blank ones included.
    lines := if |lines| > 0 then lines else [];
    var nodes := ParseScript(lines);
    file := WriteFile(nodes);
  }

  // ---------------------------------------------------------------------
  // properties of the whole translation

  /** No node of a parsed script is a #define. */
  lemma {:induction false} ParseFromNoDefs(lines: seq<string>, i: nat)
    requires ScriptOk(lines, i)
    ensures NoDefs(ParseFrom(lines, i))
    decreases |lines| - i
  {
    if i < |lines| {
      var step := ParseLine(lines, i);
      ParseFromNoDefs(lines, step.next);
      ParseFromStep(lines, i);
    }
  }

  /** Rendering keeps the node order: the lines of a + b are those of a, then those of b. */
  lemma {:induction false} EmitAppend(a: seq<Node>, b: seq<Node>)
    ensures Emit(a + b) == Emit(a) + Emit(b)
    decreases |a|
  {
    if |a| == 0 {
      assert a + b == b;
    } else {
      assert (a + b)[0] == a[0];
      assert (a + b)[1..] == a[1..] + b;
      EmitAppend(a[1..], b);
      AppendAssoc(Render(a[0], map[]) + [Blank], Emit(a[1..]), Emit(b));
    }
  }

  /** How many lines a node renders to. */
  function LineCount(n: Node): nat {
    match n
    case Defs(_) => 1
    case SimpleStr(stmts) => |stmts|
    case _ => 2
  }

  /** The lines of all nodes, each with its blank. */
  function TotalLines(nodes: seq<Node>): nat {
    if |nodes| == 0 then 0 else LineCount(nodes[0]) + 1 + TotalLines(nodes[1..])
  }

  lemma RenderLineCount(n: Node)
    ensures |Render(n, map[])| == LineCount(n)
  {
  }

  /** Each node adds its lines and one blank. */
  lemma {:induction false} EmitLength(nodes: seq<Node>)
    ensures |Emit(nodes)| == TotalLines(nodes)
    decreases |nodes|
  {
    if |nodes| > 0 {
      EmitLength(nodes[1..]);
      RenderLineCount(nodes[0]);
    }
  }

  /** The file is seven preamble entries, the node lines, and the closing brace. */
  lemma AssembleLength(nodes: seq<Node>)
    ensures |Assemble(nodes)| == 7 + TotalLines(nodes) + 1
  {
    EmitLength(nodes);
  }

  /** An empty script still gives a complete program with an empty main(). */
  lemma EmptyScript()
    ensures ScriptOk([], 0) && ParseFrom([], 0) == []
    ensures Assemble(ParseFrom([], 0)) == [Headers, ExitOnErrorFunc] + VarDecls + [MainStart, MainEnd]
    ensures |Assemble(ParseFrom([], 0))| == 8
  {
  }

  // ---------------------------------------------------------------------
  // kinds of lines

  /** A line that is all whitespace (or empty) is executed as the empty
      statement: nothing filters it out. */
  lemma BlankLineIsExec(lines: seq<string>, i: nat)
    requires i < |lines| && SpaceBetween(lines[i], 0, |lines[i]|)
    ensures Classify(lines, i) == Statement && LineOk(lines, i)
    ensures ParseLine(lines, i) == Step([Exec("")], i + 1)
  {
    StripUnique(lines[i], [], []);
    assert lines[i] + [] + [] == lines[i];
    ParseLineStatement(lines, i);
  }

  lemma OpenLineText(path: string)
    requires |path| > 0 && NoSpace(path)
    ensures Strip(OpenTicker + " " + path) == OpenTicker + " " + path
    ensures StartsWith(OpenTicker + " " + path, OpenTicker)
  {
    var line := OpenTicker + " " + path;
    assert line[0] == '.' && line[|line| - 1] == path[|path| - 1];
    StripTrimmed(line);
    assert line[..|OpenTicker|] == OpenTicker;
  }

  /** ".open <path>" opens the database at that path. */
  lemma OpenDirective(lines: seq<string>, i: nat, path: string)
    requires i < |lines| && |path| > 0 && NoSpace(path)
    requires lines[i] == OpenTicker + " " + path
    ensures Classify(lines, i) == OpenLine && LineOk(lines, i)
    ensures ParseLine(lines, i) == Step([Open(path)], i + 1)
  {
    OpenLineText(path);
    SecondWordOfPair(OpenTicker, path);
    ParseLineOpen(lines, i);
  }

  /** nodes are the exec nodes of lines[i..], one per line, in order. */
  predicate ExecsOf(nodes: seq<Node>, lines: seq<string>, i: nat)
    decreases |nodes|
  {
    if |nodes| == 0 then i == |lines|
    else i < |lines| && nodes[0] == Exec(Strip(lines[i])) && ExecsOf(nodes[1..], lines, i + 1)
  }

  /** A line parse_line treats as a statement: after stripping, it starts
      neither with .open nor with "--". */
  predicate IsStatement(line: string) {
    var s := Strip(line);
    !StartsWith(s, OpenTicker) && !StartsWith(s, CommentTicker)
  }

  /** Every line from i on is a statement. */
  predicate StatementsFrom(lines: seq<string>, i: nat)
    decreases |lines| - i
  {
    i >= |lines| || (IsStatement(lines[i]) && StatementsFrom(lines, i + 1))
  }

  lemma StatementsStep(lines: seq<string>, i: nat)
    requires i < |lines| && IsStatement(lines[i])
    requires ScriptOk(lines, i + 1) && ExecsOf(ParseFrom(lines, i + 1), lines, i + 1)
    ensures ScriptOk(lines, i) && ExecsOf(ParseFrom(lines, i), lines, i)
  {
    ParseLineStatement(lines, i);
    ParseFromStep(lines, i);
    var p := ParseFrom(lines, i);
    assert p[1..] == ParseFrom(lines, i + 1);
  }

  /** Statement lines become exec nodes one for one, in order, each with its
      stripped text. */
  lemma {:induction false} StatementsOnly(lines: seq<string>, i: nat)
    requires i <= |lines| && StatementsFrom(lines, i)
    ensures ScriptOk(lines, i) && ExecsOf(ParseFrom(lines, i), lines, i)
    decreases |lines| - i
  {
    if i < |lines| {
      StatementsOnly(lines, i + 1);
      StatementsStep(lines, i);
    }
  }

  /** "-- <body>" with a trimmed body strips to itself and is a comment. */
  lemma CommentLineShape(body: string)
    requires |body| > 0 && Trimmed(body)
    ensures var line := CommentTicker + " " + body;
      Strip(line) == line && StartsWith(line, CommentTicker) && !StartsWith(line, OpenTicker)
  {
    var line := CommentTicker + " " + body;
    assert line[0] == '-' && line[|line| - 1] == body[|body| - 1];
    StripTrimmed(line);
    assert line[..2] == CommentTicker;
    if |line| >= |OpenTicker| {
      assert line[..|OpenTicker|][0] != OpenTicker[0];
    }
  }

  /** The comment text of "-- <body>" is the body. */
  lemma CommentLineText(body: string)
    requires |body| > 0 && Trimmed(body)
    ensures var line := CommentTicker + " " + body;
      IndexOf(line, CommentTicker).Some? && CommentText(line) == body
  {
    var line := CommentTicker + " " + body;
    CommentLineShape(body);
    CommentTextOfStripped(line);
    assert line[2..] == [' '] + body + [];
    StripUnique([' '], body, []);
  }

  /** The text of a select directive listing cs: the ticker alone when
      there are no specs, otherwise the ticker, a space and the list. */
  function DirectiveText(cs: seq<ColumnSpec>): (body: string)
    ensures |body| > 0 && Trimmed(body) && StartsWith(body, ReadSpecTicker)
  {
    if cs == [] then
      assert ReadSpecTicker[..|ReadSpecTicker|] == ReadSpecTicker;
      ReadSpecTicker
    else
      var body := ReadSpecTicker + " " + SpecListText(cs);
      SpecListTextEnds(cs);
      assert body[0] == '.' && body[|body| - 1] == ')';
      assert body[..|ReadSpecTicker|] == ReadSpecTicker;
      body
  }

  /** "-- <directive>" is classified as a select directive whose comment
      text is the directive. */
  lemma SelectDirectiveKind(lines: seq<string>, i: nat, cs: seq<ColumnSpec>)
    requires i + 1 < |lines|
    requires lines[i] == CommentTicker + " " + DirectiveText(cs)
    ensures Classify(lines, i) == SelectComment && LineOk(lines, i)
    ensures IndexOf(lines[i], CommentTicker).Some? && CommentText(lines[i]) == DirectiveText(cs)
  {
    CommentLineShape(DirectiveText(cs));
    CommentLineText(DirectiveText(cs));
  }

  /** The ticker itself holds no opening parenthesis. */
  lemma TickerHasNoParen()
    ensures forall k | 0 <= k < |ReadSpecTicker| :: ReadSpecTicker[k] != '('
  {
  }

  /** The specs a directive lists are the specs it yields; the bare ticker
      yields none. */
  lemma DirectiveSpecs(cs: seq<ColumnSpec>)
    requires AllWellFormed(cs)
    ensures ExtractSpecs(DirectiveText(cs)) == cs
  {
    if cs == [] {
      TickerHasNoParen();
      FindAllNone(ReadSpecTicker);
    } else {
      assert ReadSpecTicker + " " == ".SQL2C_select ";
      ExtractSpecsRoundTrip(cs);
    }
  }

  /** A select directive followed by its statement: the statement is
      prepared, each row is printed by exactly the specs listed, in order,
      and the parser resumes after the statement. */
  lemma SelectDirective(lines: seq<string>, i: nat, cs: seq<ColumnSpec>)
    requires i + 1 < |lines| && AllWellFormed(cs)
    requires lines[i] == CommentTicker + " " + DirectiveText(cs)
    ensures Classify(lines, i) == SelectComment && LineOk(lines, i)
    ensures ParseLine(lines, i) ==
      Step([Prepare(Strip(lines[i + 1])), SimpleStr(SelectLoop(cs)), SimpleStr([ExitOnDoneCall])], i + 2)
  {
    SelectDirectiveKind(lines, i, cs);
    DirectiveSpecs(cs);
    ParseLineSelect(lines, i);
  }

  /** A directive listing no column still takes the next line as its query;
      the loop body it emits is the empty printf. */
  lemma EmptySelectDirective(lines: seq<string>, i: nat)
    requires i + 1 < |lines| && lines[i] == CommentTicker + " " + ReadSpecTicker
    ensures Classify(lines, i) == SelectComment && LineOk(lines, i)
    ensures var r := ParseLine(lines, i);
      r.next == i + 2 && |r.nodes| == 3 && r.nodes[0] == Prepare(Strip(lines[i + 1])) &&
      r.nodes[1].SimpleStr? && r.nodes[1].stmts[1] == "printf(\"\\n\", );"
  {
    assert DirectiveText([]) == ReadSpecTicker;
    SelectDirective(lines, i, []);
    PrintfCallEmpty();
  }
}
