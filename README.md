# sql_to_c in Dafny

A model of `sqlite_code_gen/sql_to_c.py`, the translator that turns a
line-oriented SQL script into a C program driving the sqlite3 API.

The translator works in three stages:

- It strips every input line.
- It walks the lines with a cursor:
  - a `.open <path>` line becomes an `sqlite3_open` call;
  - a `--` comment is skipped, unless its text starts with `.SQL2C_select`. In that case the next line is prepared as a query and a `while (sqlite3_step …)` loop prints the columns the comment names;
  - every other line becomes an `sqlite3_exec` call.
- It emits the node list between a fixed preamble and the closing brace of `main`. Each node is followed by a blank line.

The project has four modules:

- `Text`: the Python string operations the translator relies on. These are `str.strip`, `str.split()[1]`, `str.startswith`, `str.index`, `str.join` and `str(int)`, each written out so it can be reasoned about.
- `ColumnSpecs`: the `(text|int, <digits>, <lowercase>)` column specifications.
  - `FindAll` is `re.findall` with that pattern: a left-to-right scan that skips one character after a failed match and resumes after a successful one.
  - The module also builds the `printf` call made from the matches.
- `Nodes`: the output nodes and how each one renders (`canonicalize`).
  - `NamingContext` is a class holding the counter dictionary that `CDefs.canonicalize` updates in place.
- `Parser`: `parse_exec`, `parse_read_comment_and_select`, `parse_comment` and `parse_line` as functions.
  - `ParseScript` is the `while` loop of `perform_parse` as a method.
  - `WriteFile` is its `for` loop as a method.
  - `PerformParse` is both together.
  - The module also holds lemmas about whole scripts.

## Model

| member | source | states |
|---|---|---|
| Text.Strip | sqlite_code_gen/sql_to_c.py:177 | the result has no whitespace at either end and is the input minus a leading and a trailing whitespace run |
| Text.StripUnique | sqlite_code_gen/sql_to_c.py:177 | conversely, a trimmed middle between two whitespace runs is exactly what strip returns |
| Text.StripIdempotent | sqlite_code_gen/sql_to_c.py:162 | stripping an already stripped line changes nothing, so the second strip in parse_line is a no-op |
| Text.StripDropsTrailing | sqlite_code_gen/sql_to_c.py:126 | appending whitespace does not change what strip returns |
| Text.SecondWord | sqlite_code_gen/sql_to_c.py:167 | split()[1] is non-empty, contains no whitespace and is the second maximal non-space run |
| Text.SecondWordOfPair | sqlite_code_gen/sql_to_c.py:167 | for a word, one space and a space-free rest, split()[1] is that rest |
| Text.IndexOf | sqlite_code_gen/sql_to_c.py:125 | str.index finds a position exactly when the pattern occurs, and it finds the first occurrence |
| Text.CountJoin | sqlite_code_gen/sql_to_c.py:145 | joining with a separator free of a character adds no occurrence of that character |
| Text.IntToString | sqlite_code_gen/sql_to_c.py:69-71 | str(int) reads back to the same integer, has a minus sign exactly for negatives and has no whitespace; after the sign come only decimal digits, with no leading zero unless the number is 0 |
| Text.Join | sqlite_code_gen/sql_to_c.py:145 | definition of str.join; specified by Text.CountJoin and, for the printf pieces, ColumnSpecs.PrintfArity and ColumnSpecs.GoldenPrintf |
| Text.IntToStringInjective | sqlite_code_gen/sql_to_c.py:80 | distinct counters print differently |
| ColumnSpecs.MatchPrefix | sqlite_code_gen/sql_to_c.py:33 | a match at the start of the text yields a well-formed spec whose text is a strict prefix of the input, with the remainder returned |
| ColumnSpecs.MatchPrefixComplete | sqlite_code_gen/sql_to_c.py:33 | the pattern matches the text of every well-formed spec, whatever follows it |
| ColumnSpecs.MatchPrefixRejectsName | sqlite_code_gen/sql_to_c.py:33 | a name followed by a character that is neither a lowercase letter nor ')' (an underscore, say) is no match |
| ColumnSpecs.FindAll | sqlite_code_gen/sql_to_c.py:141 | definition of re.findall with the column pattern; specified by ColumnSpecs.FindAllWellFormed, ColumnSpecs.FindAllCons, ColumnSpecs.FindAllSkip, ColumnSpecs.FindAllRejected and ColumnSpecs.FindAllOfList |
| ColumnSpecs.ExtractSpecs | sqlite_code_gen/sql_to_c.py:141 | definition; the findall over the comment text; specified by ColumnSpecs.ExtractSpecsRoundTrip |
| ColumnSpecs.FindAllWellFormed | sqlite_code_gen/sql_to_c.py:141 | every match findall returns is a text/int kind, a non-empty digit ordinal and a non-empty lowercase name |
| ColumnSpecs.FindAllRejected | sqlite_code_gen/sql_to_c.py:141 | a spec whose name runs into a non-lowercase character contributes nothing, and scanning resumes after it |
| ColumnSpecs.FindAllCons | sqlite_code_gen/sql_to_c.py:141 | a well-formed spec at the start of the text is the first match, followed by the matches in the rest |
| ColumnSpecs.FindAllSkip | sqlite_code_gen/sql_to_c.py:141 | text without an opening parenthesis contributes no match |
| ColumnSpecs.FindAllOfList | sqlite_code_gen/sql_to_c.py:141 | findall over a comma-separated list of specs returns exactly that list, in order |
| ColumnSpecs.ExtractSpecsRoundTrip | sqlite_code_gen/sql_to_c.py:127-141 | the comment text `.SQL2C_select <specs>` yields back exactly the specs written in it |
| ColumnSpecs.PrintfCall | sqlite_code_gen/sql_to_c.py:143-145 | definition of the printf line; specified by ColumnSpecs.PrintfCallEmpty, ColumnSpecs.PrintfArity, ColumnSpecs.PrintfTypesAgree and ColumnSpecs.GoldenPrintf |
| ColumnSpecs.PrintfCallEmpty | sqlite_code_gen/sql_to_c.py:143-145 | with no specs the call is `printf("\n", );` |
| ColumnSpecs.PrintfArity | sqlite_code_gen/sql_to_c.py:143-145 | the format string holds one conversion and the argument list one column fetch per spec |
| ColumnSpecs.PrintfTypesAgree | sqlite_code_gen/sql_to_c.py:143-144 | the k-th format item and the k-th argument come from the k-th spec, with `%s` for text columns and `%d` for int columns |
| ColumnSpecs.GoldenPrintf | sqlite_code_gen/sql_to_c.py:143-145 | the specs `(text, 0, name), (int, 1, age)` give the printf line of the expected C output |
| Nodes.Assign | sqlite_code_gen/sql_to_c.py:82-83 | the result is the left side, a tab and '=', then the right side |
| Nodes.AssignInjective | sqlite_code_gen/sql_to_c.py:82-83 | the right side can be read back from an assignment |
| Nodes.PrettyValue | sqlite_code_gen/sql_to_c.py:69-71 | an int prints as str(int), a string between double quotes |
| Nodes.PrettyValueInjective | sqlite_code_gen/sql_to_c.py:69-71 | distinct values print differently |
| Nodes.Render | sqlite_code_gen/sql_to_c.py:64-119 | definition of every node's canonicalize; specified by Nodes.RenderCall, Nodes.RenderCallPayload, Nodes.RenderCallInjective, Nodes.RenderIgnoresContext, Nodes.GoldenOpen, Nodes.GoldenExec, Nodes.GoldenPrepare and Nodes.NamingContext.Canonicalize |
| Nodes.RenderCall | sqlite_code_gen/sql_to_c.py:85-119 | an open/prepare/exec node renders as two lines: the call assigned to rc, then the SQLITE_OK check |
| Nodes.RenderCallPayload | sqlite_code_gen/sql_to_c.py:85-119 | the path or SQL text appears verbatim between the call's quotes |
| Nodes.RenderCallInjective | sqlite_code_gen/sql_to_c.py:85-119 | distinct call nodes render distinct first lines |
| Nodes.RenderIgnoresContext | sqlite_code_gen/sql_to_c.py:85-119 | nodes other than #define render independently of the naming context |
| Nodes.GoldenOpen | sqlite_code_gen/sql_to_c.py:85-93 | an open node renders as the two lines of the expected C output |
| Nodes.GoldenPrepare | sqlite_code_gen/sql_to_c.py:95-103 | a prepare node renders as the two lines of the expected C output |
| Nodes.GoldenExec | sqlite_code_gen/sql_to_c.py:111-119 | an exec node renders as the two lines of the expected C output |
| Nodes.DefineLineInjective | sqlite_code_gen/sql_to_c.py:80 | a #define line determines both its counter and its value |
| Nodes.NamingContext.Define | sqlite_code_gen/sql_to_c.py:77-80 | the TEMP counter goes up by one (from 0 when absent), nothing else changes, and the line names the new counter |
| Nodes.NamingContext.Canonicalize | sqlite_code_gen/sql_to_c.py:77-119 | every node renders as in the pure Render against the old counters; only a #define node bumps the TEMP counter |
| Nodes.SuccessiveDefinesDiffer | sqlite_code_gen/sql_to_c.py:77-80 | two #define nodes canonicalized in turn never produce the same line |
| Parser.CommentTextOfStripped | sqlite_code_gen/sql_to_c.py:124-126 | re-reading the unstripped line from its first `--` gives the same text as reading the stripped line after its leading `--` |
| Parser.ParseExec | sqlite_code_gen/sql_to_c.py:152-155 | one exec node holding the line, and the cursor unchanged |
| Parser.SelectLoop | sqlite_code_gen/sql_to_c.py:142-148 | definition of the four-line loop block (its header is the constant WhileStart); specified by Parser.GoldenSelectLoop |
| Parser.GoldenWhileStart | sqlite_code_gen/sql_to_c.py:142 | the loop header is exactly the header line of the expected C output |
| Parser.GoldenSelectLoop | sqlite_code_gen/sql_to_c.py:142-148 | for any specs, the loop block is the header, the printf line, `}` and `sqlite3_finalize(stmt);`, as in the expected C output |
| Parser.ParseReadCommentAndSelect | sqlite_code_gen/sql_to_c.py:133-149 | three nodes (prepare of the stripped next line, the step loop printing the findall specs, the SQLITE_DONE check) and the cursor one further |
| Parser.ParseComment | sqlite_code_gen/sql_to_c.py:123-130 | a `.SQL2C_select` comment defers to the select parser; any other comment gives no node and keeps the cursor |
| Parser.ParseLine | sqlite_code_gen/sql_to_c.py:161-174 | the cursor advances by two after a select comment and by one otherwise, stays within the script, and no #define node is produced |
| Parser.ParseLineOpen | sqlite_code_gen/sql_to_c.py:166-168 | a `.open` line gives one open node on its second word |
| Parser.ParseLineSelect | sqlite_code_gen/sql_to_c.py:170-171 | a select comment gives the prepare, loop and DONE nodes for the next line |
| Parser.ParseLinePlain | sqlite_code_gen/sql_to_c.py:127-130 | any other comment gives no node |
| Parser.ParseLineStatement | sqlite_code_gen/sql_to_c.py:174 | every other line gives one exec node on the stripped line |
| Parser.StripAll | sqlite_code_gen/sql_to_c.py:177 | the same number of lines, each stripped |
| Parser.ParseScript | sqlite_code_gen/sql_to_c.py:184-187 | the cursor loop collects exactly the nodes of the recursive definition ParseFrom, in order |
| Parser.WriteFile | sqlite_code_gen/sql_to_c.py:189-196 | the output is the preamble, each node's lines followed by a blank line in order, then the closing brace |
| Parser.PerformParse | sqlite_code_gen/sql_to_c.py:176-197 | the whole translation equals Assemble(ParseFrom(stripped lines)); the filter on line 178 drops nothing, so every stripped line, blank ones included, is parsed |
| Parser.ParseFromNoDefs | sqlite_code_gen/sql_to_c.py:193 | no #define node ever reaches the output loop, so calling canonicalize with None never fails |
| Parser.EmitAppend | sqlite_code_gen/sql_to_c.py:192-194 | the emitted text of two node lists is the concatenation of their texts |
| Parser.AssembleLength | sqlite_code_gen/sql_to_c.py:189-196 | the file has 7 preamble lines, the nodes' lines each plus one blank, then 1 closing line |
| Parser.EmptyScript | sqlite_code_gen/sql_to_c.py:176-197 | an empty script gives the 8-line program with an empty main |
| Parser.BlankLineIsExec | sqlite_code_gen/sql_to_c.py:174-178 | a whitespace-only line is kept and becomes an exec of the empty string |
| Parser.OpenDirective | sqlite_code_gen/sql_to_c.py:166-168 | the line `.open <path>` gives exactly Open(path) |
| Parser.StatementsOnly | sqlite_code_gen/sql_to_c.py:184-187 | a script of plain statements gives one exec node per line, in order |
| Parser.DirectiveText | sqlite_code_gen/sql_to_c.py:126-127 | a directive, with or without specs, is a trimmed text starting with `.SQL2C_select` |
| Parser.SelectDirective | sqlite_code_gen/sql_to_c.py:170-171 | the comment `-- .SQL2C_select [<specs>]` followed by a query gives its prepare, a step loop printing exactly those specs (none included), and the DONE check |
| Parser.EmptySelectDirective | sqlite_code_gen/sql_to_c.py:127-149 | a directive with no specs still consumes the next line as its query, and the loop prints with `printf("\n", );` |

## Left out

- The command-line entry point (`sqlite_code_gen/__main__.py`) is not part of this model. It does the file reading and writing and is I/O.
- `re` as a general engine is not modelled. Only the one pattern on line 33 is written out as a matcher. Its `\d` is taken as the ASCII digits, while Python's `str` regexes also accept other Unicode decimal digits.
- `Text.Strip`: whitespace is the set `str.isspace` accepts among the code points listed in `IsSpace`. No Unicode database is modelled.
- `Parser.ParseLine`: the inputs on which Python raises an exception are ruled out by preconditions (`LineOk`, `ScriptOk`) rather than modelled as errors. These are a `.open` line with no path (IndexError at line 167) and a select comment on the last line (IndexError at line 135).
- The `funcs` accumulator that every parser returns is always empty, so it is dropped from `Step`.
- `Parser.WriteFile`: `perform_parse` passes `None` as the context. The model renders with an empty map and proves (`Parser.ParseFromNoDefs`) that no #define node is ever produced, so that argument is never read.
- `USE_PREPARE_TICKER` (line 48) is declared but never used, so it is not modelled.
- SQL text and paths are copied into C string literals without escaping, and the model does the same. In both, a double quote in the input ends the C literal early, and a backslash is read as a C escape.
- The blank-line filter on line 178 tests the length of the list, not of the line, so it keeps blank lines. The model keeps them too, and `Parser.BlankLineIsExec` states what happens to them.
- `Nodes.PrettyValue`: `DefValue` holds an int or a string, as the annotation on line 67 says. A bool, which `isinstance(…, int)` on line 70 would also print bare, is not modelled. No `CDefs` node is ever produced by the parser.
