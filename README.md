# bigdecimal.js: the bigint-to-JSBI codemods

bigdecimal.js was moved from native `bigint` to the JSBI library by a
pipeline of source-to-source rewrites in `misc/`:

1. `detect-bigint.ts` asks the TypeScript checker which expressions of a
   file have the type `bigint`. It reports each one as a *detection*: the
   text, the offset range, and a `path line:column` link for each end. The
   links come from a table of line-start offsets (`createPositionConverter`).
2. `codemod-label-bigint.ts` parses the file with jscodeshift. It wraps every
   detected expression in a call of the marker `__BIGINT__(...)`, innermost
   first. Excluded positions are skipped: member properties, declarator ids,
   class-property keys and assignment targets. It then puts the line
   `declare function __BIGINT__(value: bigint): bigint;` before the printed
   program.
3. `codemod-jsbi.ts` drops that first line and adds `import JSBI from "jsbi"`.
   It then runs its passes in order:
   - the `bigint` type becomes `JSBI`;
   - the identifier `BigInt` becomes `JSBI.BigInt`;
   - `x += m` becomes `x = JSBI.BigInt(x) + m`;
   - arithmetic and comparisons with a marked operand become
     `JSBI.<method>(...)`, innermost first;
   - `typeof e === "bigint"` becomes `e instanceof JSBI`;
   - `m.valueOf()` becomes `m`;
   - `Number(m)` becomes `JSBI.toNumber(m)`;
   - `e!` directly inside a marker becomes `e ?? JSBI.BigInt(0)`;
   - finally every marker is erased, innermost first.
4. `codemod-literal.ts` and `codemod-jsbi-test.ts` rewrite the test files:
   - `1n` becomes `JSBI.BigInt("1")`;
   - in the test variant, `BigInt(...)` calls become `JSBI.BigInt(...)`;
   - `const JSBI = require("jsbi")` is put first, but only when something
     was rewritten. Otherwise the file is left alone.

The model works on syntax trees:
- `Ast` is the ESTree node shapes jscodeshift produces, reduced to the
  fields the rules read.
- `DetectBigint.TsNode` is the TypeScript nodes the detector visits.

jscodeshift's `find(K).paths()` is the pre-order list of index paths to the
nodes of type `K`, and `p.replace(x)` replaces the node at a path.

Each loop over paths is either:
- a `method` with the loop and its invariants (`Paths.FindReplaceReverse`,
  `Paths.FindReplaceLeaves`, `CodemodJsbiTest.ReplaceCtors`,
  `LabelBigint.CollectMatches`), proved equal to a recursive specification
  function; or
- a recursive function, where the replacement moves nodes that later paths
  still point into (see "Left out").

Every `transform` is a `method` proved equal to a function of its input. The
properties each codemod promises are lemmas about that function:
- what is left after a rewrite;
- what a rewrite keeps unchanged;
- where the new statement goes;
- when an assertion fails;
- the two codemods combined: labelling and erasing round-trips (`Pipeline`).

## Model

| member | source | states |
|---|---|---|
| Positions.SplitJoin | misc/detect-bigint.ts:60 | joining the pieces of `source.split("\n")` with newlines gives back the text |
| Positions.SplitLines | misc/detect-bigint.ts:60 | no piece of `split("\n")` contains a newline |
| Positions.LineStartsStep | misc/detect-bigint.ts:59-62 | the table starts with 0, and each entry is the previous one plus that line's length plus one |
| Positions.LineStartsIncreasing | misc/detect-bigint.ts:59-62 | the line-start table is strictly increasing |
| Positions.LineStartsLast | misc/detect-bigint.ts:59-62 | the last entry of the table is the text's length plus one |
| Positions.LineStartsText | misc/detect-bigint.ts:59-62 | entry k is the offset where line k begins in the text; the line's text follows it; a newline follows the line unless it is the last |
| Positions.PositionConverter.constructor | misc/detect-bigint.ts:58-62 | the loop builds the line-start table of the split source |
| Positions.PositionConverter.TableShape | misc/detect-bigint.ts:58-62 | the table has one entry more than there are lines, starts at 0, increases strictly, and ends at the text's length plus one |
| Positions.Locate | misc/detect-bigint.ts:64-72 | the scan of `offsetToLineColumn` from a given line: the first line whose next start lies beyond the offset, or None (the `throw`); its meaning is stated by `LocateSpec` and `LocateLines` |
| Positions.LocateSpec | misc/detect-bigint.ts:64-72 | over an increasing table, the scan succeeds iff the offset is below the last entry; it returns the first line whose successor entry exceeds the offset, with column = offset minus the line's start |
| Positions.LocateLines | misc/detect-bigint.ts:64-72 | over the table of a split text, the scan fails (the `throw`) iff the offset exceeds the text's length; otherwise the column lies within the line for a non-negative offset |
| Positions.PositionConverter.OffsetToLineColumn | misc/detect-bigint.ts:64-72 | the loop returns the scan's answer: None iff the offset is at or past length + 1; otherwise the first line whose next start lies beyond the offset, and column = offset minus the line start, within the line |
| Positions.PositionConverter.LocateText | misc/detect-bigint.ts:64-72 | for an offset inside the text, the character there is the line's character at the column, or the newline ending the line |
| DetectBigint.IsExpressionNode | misc/detect-bigint.ts:78-129 | the switch over syntax kinds; `ExpressionNodeExactly` states which kinds it accepts |
| DetectBigint.ExpressionNodeExactly | misc/detect-bigint.ts:78-129 | a syntax kind is an expression exactly when it is one of the 46 listed kinds; the keyword `bigint` is not one, and a bigint literal is |
| DetectBigint.ExpressionIsListed | misc/detect-bigint.ts:79-126 | every kind the switch accepts is in the listed set |
| DetectBigint.ListedIsExpression | misc/detect-bigint.ts:79-128 | every listed kind is accepted, and nothing else reaches `return true` |
| DetectBigint.Substring | misc/detect-bigint.ts:38 | within bounds, the node's text is exactly the source between its start and end |
| DetectBigint.NatToStringRoundTrip | misc/detect-bigint.ts:41-44 | the decimal rendering in the link parses back to the number and has a leading zero only for 0 |
| DetectBigint.RecordOf | misc/detect-bigint.ts:32-45 | the record of one kept node, or None where the converter throws; stated by `RecordOfSpec` and `RecordFields` |
| DetectBigint.RecordOfSpec | misc/detect-bigint.ts:32-45 | recording a node fails (a converter `throw`) iff its start or end is beyond the end of the text |
| DetectBigint.RecordFields | misc/detect-bigint.ts:32-45 | a recorded node carries its offsets, its text and `path line:column` links with line and column each plus one |
| DetectBigint.KeptNodes | misc/detect-bigint.ts:29-31 | the nodes kept are exactly the visited expression nodes whose type prints as `bigint` |
| DetectBigint.CollectAppend | misc/detect-bigint.ts:27-49 | visiting two node lists in turn records the concatenation of their detections |
| DetectBigint.GatherFails | misc/detect-bigint.ts:27-49 | the visit fails iff recording some kept node fails |
| DetectBigint.GatherRecords | misc/detect-bigint.ts:27-49 | a successful visit holds one record per kept node, in visiting order |
| DetectBigint.Collect | misc/detect-bigint.ts:27-49 | the detections of a list of visited nodes; stated by `CollectSpec`, `CollectAppend` and the `Gather` lemmas |
| DetectBigint.CollectSpec | misc/detect-bigint.ts:27-49 | the detections are one record per kept node, in visiting order; the run fails iff some kept node has an offset past the end of the text |
| DetectBigint.ChildrenFirst | misc/detect-bigint.ts:27-28 | `visitChildren()` first: each child's whole subtree is visited, as a block, before the node itself |
| DetectBigint.Visit | misc/detect-bigint.ts:27-49 | the recursive visitor returns the detections of the node's post-order, or None where the converter throws |
| DetectBigint.Detect | misc/detect-bigint.ts:12-52 | `detectBigint` returns the detections of the whole tree |
| LabelBigint.FindDetection | misc/codemod-label-bigint.ts:23-25 | `find` returns the first detection with exactly that range, and None iff there is none |
| LabelBigint.IsBigInt | misc/codemod-label-bigint.ts:18-27 | the test throws (None) iff the node has no location; otherwise it is true iff some detection has exactly the node's start and end |
| LabelBigint.CollectStep | misc/codemod-label-bigint.ts:54-69 | an expression path is tested iff it is not in an excluded position under its parent; it is collected iff it is also detected |
| LabelBigint.CollectMatches | misc/codemod-label-bigint.ts:53-69 | the collecting loop fails iff a tested node has no location; otherwise it returns the collected paths, in pre-order |
| LabelBigint.MatchesShape | misc/codemod-label-bigint.ts:53-69 | the collected paths are valid, every ancestor comes before its descendants, and they are exactly the selected positions |
| LabelBigint.Label | misc/codemod-label-bigint.ts:53-74 | the labelled tree: each selected node wrapped in `__BIGINT__(...)`, below before above; stated by `LabelChild`, `ExcludedNeverWrapped` and `Pipeline.LabelErase` |
| LabelBigint.ReplaceMatches | misc/codemod-label-bigint.ts:71-74 | wrapping the collected paths in reverse order gives the bottom-up labelled tree |
| LabelBigint.LabelChild | misc/codemod-label-bigint.ts:56-74 | labelling keeps each node's type, location and arity; a child is wrapped in `__BIGINT__(...)` exactly when it is a detected expression in a non-excluded position |
| LabelBigint.ExcludedNeverWrapped | misc/codemod-label-bigint.ts:56-65 | a child in an excluded position is never wrapped itself: it is the child labelled inside, whatever `isBigInt` says of it |
| LabelBigint.Labeled | misc/codemod-label-bigint.ts:43-79 | what `transform` returns: None if a tested node has no location, otherwise the declaration, a newline and the printed labelled program; stated by `NoMatchUnchanged` and `Pipeline.LabelRoundTrip` |
| LabelBigint.Transform | misc/codemod-label-bigint.ts:43-79 | `transform` returns the declaration line, a newline and the printed labelled program, or fails as the test does |
| LabelBigint.NoMatchUnchanged | misc/codemod-label-bigint.ts:76-78 | when every tested node has a location and `isBigInt` never says true, the output is the declaration line, a newline and the printed program as parsed |
| LabelBigint.NoDetectionsUnchanged | misc/codemod-label-bigint.ts:18-78 | with an empty detection list and every tested node located, the output is the declaration line, a newline and the printed program as parsed |
| CodemodLiteral.AddRequire | misc/codemod-literal.ts:35-44 | the `require` declaration is put before the program's statements, which follow unchanged |
| CodemodLiteral.LiteralPass | misc/codemod-literal.ts:17-27 | every bigint literal `1n` replaced by `JSBI.BigInt("1")`; stated by `LiteralAt`, `LiteralDone`, `LiteralUntouched` and `LiteralIdempotent` |
| CodemodLiteral.ReplaceLiterals | misc/codemod-literal.ts:17-27 | the loop rewrites every bigint literal, and `found` is set iff there was one |
| CodemodLiteral.LiteralBottomUp | misc/codemod-literal.ts:17-27 | replacing the listed literals in order equals the recursive literal pass |
| CodemodLiteral.LiteralAt | misc/codemod-literal.ts:17-27 | at every path, a literal `1n` becomes `JSBI.BigInt("1")` with the same digits; any other node keeps its type, location and arity |
| CodemodLiteral.LiteralDone | misc/codemod-literal.ts:17-27 | no bigint literal is left |
| CodemodLiteral.LiteralUntouched | misc/codemod-literal.ts:17-27 | a tree without bigint literals is left as it is |
| CodemodLiteral.LiteralIdempotent | misc/codemod-literal.ts:17-27 | running the literal pass twice is the same as once |
| CodemodLiteral.LiteralWellFormed | misc/codemod-literal.ts:17-27 | the rewritten tree is still a tree the parser could have built |
| CodemodLiteral.NoLiteralNoOutput | misc/codemod-literal.ts:29 | a file without bigint literals gives no output |
| CodemodLiteral.RequireFirst | misc/codemod-literal.ts:35-46 | any output is the printed program made of the `require` followed by each statement with its literals rewritten, in order |
| CodemodLiteral.Rewritten | misc/codemod-literal.ts:7-47 | what `transform` returns: nothing when no literal is found, otherwise the printed program with the literals rewritten and the `require` first; stated by `NoLiteralNoOutput` and `RequireFirst` |
| CodemodLiteral.Transform | misc/codemod-literal.ts:7-47 | `transform` returns nothing when no literal was found, otherwise the printed rewritten program with the `require` first |
| CodemodJsbiTest.Rebuilt | misc/codemod-jsbi-test.ts:36 | the rebuilt call has callee `JSBI.BigInt` and the same arguments |
| CodemodJsbiTest.CtorPass | misc/codemod-jsbi-test.ts:33-39 | every `BigInt(...)` call rebuilt with the callee `JSBI.BigInt`; stated by `CtorDone`, `CtorUntouched` and `CtorAt` |
| CodemodJsbiTest.ReplaceCtors | misc/codemod-jsbi-test.ts:33-39 | the loop over call paths yields the recursive constructor pass, and `found` is set iff some `BigInt(...)` call existed |
| CodemodJsbiTest.CtorStep | misc/codemod-jsbi-test.ts:33-39 | one replacement keeps the tree well formed and the later paths valid; the matches left are all still listed; the final result is unchanged |
| CodemodJsbiTest.RebuiltSame | misc/codemod-jsbi-test.ts:36 | rewriting a matched call before or after its arguments gives the same final tree |
| CodemodJsbiTest.CtorCong | misc/codemod-jsbi-test.ts:33-39 | replacing a subtree by one of the same type with the same final form does not change the final tree |
| CodemodJsbiTest.CtorDone | misc/codemod-jsbi-test.ts:33-39 | no `BigInt(...)` call is left |
| CodemodJsbiTest.CtorUntouched | misc/codemod-jsbi-test.ts:33-39 | a tree without `BigInt(...)` calls is left as it is |
| CodemodJsbiTest.CtorAt | misc/codemod-jsbi-test.ts:33-39 | at every path not at a `BigInt` callee, the pass's result is the pass applied to the subtree there |
| CodemodJsbiTest.LiteralKeepsCtors | misc/codemod-jsbi-test.ts:22-39 | the literal pass neither creates nor removes `BigInt(...)` calls |
| CodemodJsbiTest.LiteralCallsKept | misc/codemod-jsbi-test.ts:22-39 | a rewritten literal survives the constructor pass as `JSBI.BigInt("digits")` at the same path |
| CodemodJsbiTest.NothingFound | misc/codemod-jsbi-test.ts:41 | a file with neither a bigint literal nor a `BigInt(...)` call gives no output |
| CodemodJsbiTest.SomethingFound | misc/codemod-jsbi-test.ts:41 | a file with either gives output |
| CodemodJsbiTest.TestRequireFirst | misc/codemod-jsbi-test.ts:47-58 | any output is the printed program made of the `require` followed by each statement rewritten by both passes, in order |
| CodemodJsbiTest.Rewritten | misc/codemod-jsbi-test.ts:7-59 | what `transform` returns: nothing when neither rule fires, otherwise the printed program after both passes with the `require` first; stated by `NothingFound`, `SomethingFound` and `TestRequireFirst` |
| CodemodJsbiTest.Transform | misc/codemod-jsbi-test.ts:7-59 | `transform` returns nothing when neither rule fired, otherwise the printed program with both passes made and the `require` first |
| CodemodJsbi.IndexOfNewline | misc/codemod-jsbi.ts:36 | `indexOf("\n")` is the first newline's index, or -1 iff there is none |
| CodemodJsbi.StripHeader | misc/codemod-jsbi.ts:36 | a text without a newline is kept whole; otherwise everything up to and including the first newline is dropped |
| CodemodJsbi.StripHeaderLine | misc/codemod-jsbi.ts:35-36 | a one-line header followed by a newline is dropped exactly |
| CodemodJsbi.AddImport | misc/codemod-jsbi.ts:55-62 | the import is put before the program's statements, which follow unchanged |
| CodemodJsbi.ImportKeywordLeaves | misc/codemod-jsbi.ts:55-71 | adding the import keeps every `bigint` keyword node a leaf, so the keyword loop still sees leaves |
| CodemodJsbi.KeywordPass | misc/codemod-jsbi.ts:69-71 | every `bigint` keyword replaced by the type `JSBI`; stated by `KeywordDone` and `KeywordUntouched` |
| CodemodJsbi.ReplaceKeywords | misc/codemod-jsbi.ts:69-71 | when every keyword node is a leaf, as the parser builds it, the loop over keyword paths equals the keyword pass |
| CodemodJsbi.KeywordBottomUp | misc/codemod-jsbi.ts:69-71 | replacing the listed keywords equals the recursive keyword pass |
| CodemodJsbi.KeywordDone | misc/codemod-jsbi.ts:69-71 | no `bigint` keyword is left |
| CodemodJsbi.KeywordUntouched | misc/codemod-jsbi.ts:69-71 | a tree without the keyword is left as it is |
| CodemodJsbi.IdentPass | misc/codemod-jsbi.ts:78-82 | every identifier `BigInt` replaced by `JSBI.BigInt`; stated by `IdentAt` and `IdentUntouched` |
| CodemodJsbi.IdentAt | misc/codemod-jsbi.ts:78-82 | at every path with no identifier `BigInt` above it, an identifier `BigInt` has become `JSBI.BigInt`, and any other node keeps its type, location and arity |
| CodemodJsbi.IdentUntouched | misc/codemod-jsbi.ts:78-82 | a tree without the identifier `BigInt` is left as it is |
| CodemodJsbi.AssignPass | misc/codemod-jsbi.ts:90-111 | every `x += m` with a marked `m` rewritten, outer before inner; stated by `AssignPassKind`, `AssignDone`, `AssignUntouched` and `AddAssignStep` |
| CodemodJsbi.AssignPassKind | misc/codemod-jsbi.ts:94-111 | a matched `x += m` becomes a plain `=` assignment; any other node keeps its type and arity; being a marker is preserved |
| CodemodJsbi.AssignDone | misc/codemod-jsbi.ts:94-111 | no `x += m` with an identifier left and a marked right is left |
| CodemodJsbi.AssignUntouched | misc/codemod-jsbi.ts:94-111 | a tree without such an assignment is left as it is |
| CodemodJsbi.BinaryPass | misc/codemod-jsbi.ts:142-175 | every binary expression handed to `BinRule` after the ones below it; stated by `BinaryStep`, `BinaryDone` and `BinaryUntouched` |
| CodemodJsbi.BinRule | misc/codemod-jsbi.ts:143-174 | a listed operator with a marked operand becomes `JSBI.<method>(l, r)`, with each unmarked operand wrapped in `JSBI.BigInt(...)`; anything else is kept |
| CodemodJsbi.BinaryStep | misc/codemod-jsbi.ts:142-175 | in reverse pre-order each binary expression is rewritten after its operands, with the rule seeing the rewritten operands |
| CodemodJsbi.BinaryDone | misc/codemod-jsbi.ts:142-175 | no binary expression with a listed operator and a marked operand is left |
| CodemodJsbi.BinRuleClean | misc/codemod-jsbi.ts:143-174 | one application of the rule creates no new match when the operands had none |
| CodemodJsbi.BinaryUntouched | misc/codemod-jsbi.ts:142-175 | a tree without such an expression is left as it is |
| CodemodJsbi.TypeofPass | misc/codemod-jsbi.ts:182-195 | every `typeof e === "bigint"` replaced by `e instanceof JSBI`; stated by `TypeofPassKind`, `TypeofDone` and `TypeofUntouched` |
| CodemodJsbi.TypeofPassKind | misc/codemod-jsbi.ts:182-195 | a matched `typeof e === "bigint"` becomes `e instanceof JSBI`, with `e` rewritten; any other node keeps its type, location and arity; markers stay markers |
| CodemodJsbi.TypeofDone | misc/codemod-jsbi.ts:182-195 | no `typeof e === "bigint"` test is left |
| CodemodJsbi.TypeofUntouched | misc/codemod-jsbi.ts:182-195 | a tree without such a test is left as it is |
| CodemodJsbi.ValueOfPass | misc/codemod-jsbi.ts:203-215 | every `m.valueOf()` on a marker replaced by `m`; stated by `ValueOfPassKind` and `ValueOfUntouched` |
| CodemodJsbi.ValueOfPassKind | misc/codemod-jsbi.ts:203-215 | a node other than `m.valueOf()` keeps its type, location and arity; the result is a marker exactly when the node was a marker or `m.valueOf()` |
| CodemodJsbi.ValueOfUntouched | misc/codemod-jsbi.ts:203-215 | a tree without `m.valueOf()` on a marker is left as it is |
| CodemodJsbi.NumberPass | misc/codemod-jsbi.ts:216-228 | every `Number(m)` with one marked argument replaced by `JSBI.toNumber(m)`; stated by `NumberPassKind`, `NumberDone` and `NumberUntouched` |
| CodemodJsbi.NumberPassKind | misc/codemod-jsbi.ts:216-228 | a node other than `Number(m)` keeps its type, location and arity; being a marker is preserved |
| CodemodJsbi.NumberDone | misc/codemod-jsbi.ts:216-228 | no `Number(m)` with one marked argument is left |
| CodemodJsbi.NumberUntouched | misc/codemod-jsbi.ts:216-228 | a tree without such a call is left as it is |
| CodemodJsbi.NonNullPass | misc/codemod-jsbi.ts:235-246 | every one-child `e!` directly inside a marker replaced by `e ?? JSBI.BigInt(0)`; stated by `NonNullPassKind`, `NonNullDone` and `NonNullUntouched` |
| CodemodJsbi.NonNullPassKind | misc/codemod-jsbi.ts:235-246 | a node other than an `e!` directly inside a marker keeps its type, location and arity; markers stay markers and no marker is made |
| CodemodJsbi.NonNullDone | misc/codemod-jsbi.ts:235-246 | no one-child `e!` is left directly inside a marker |
| CodemodJsbi.NonNullUntouched | misc/codemod-jsbi.ts:235-246 | a tree without a non-null assertion directly under a marker is left as it is |
| CodemodJsbi.EraseMarkers | misc/codemod-jsbi.ts:251-257 | every marker replaced by its argument, innermost first, or None where the `assert.ok` fails; stated by `EraseStep`, `EraseClean`, `EraseFails` and `EraseUntouched` |
| CodemodJsbi.EraseStep | misc/codemod-jsbi.ts:251-257 | in reverse pre-order each call is handled after its arguments: a marker with one argument is replaced by it, and one with another count fails |
| CodemodJsbi.EraseClean | misc/codemod-jsbi.ts:251-257 | after a successful erasure no marker is left |
| CodemodJsbi.EraseFails | misc/codemod-jsbi.ts:254 | a marker anywhere with an argument count other than one makes the erasure fail (the `assert.ok`) |
| CodemodJsbi.EraseIgnoresLocs | misc/codemod-jsbi.ts:251-257 | the erasure does not depend on locations: without them it fails exactly when it fails with them, and it otherwise gives the same tree up to locations |
| CodemodJsbi.EraseUntouched | misc/codemod-jsbi.ts:251-257 | a tree without markers is left as it is |
| CodemodJsbi.PrepassUntouched | misc/codemod-jsbi.ts:69-246 | passes 2 to 9 keep a tree in which none of them finds a match |
| CodemodJsbi.ImportPrepass | misc/codemod-jsbi.ts:55-246 | passes 2 to 9 leave the added import as it is |
| CodemodJsbi.ImportErase | misc/codemod-jsbi.ts:251-257 | the erasure leaves the added import as it is |
| CodemodJsbi.PrepassRoot | misc/codemod-jsbi.ts:69-246 | below the program node, passes 2 to 9 rewrite each statement on its own |
| CodemodJsbi.RewriteRoot | misc/codemod-jsbi.ts:69-257 | below the program node all passes work statement by statement; the run fails iff one statement's erasure fails |
| CodemodJsbi.RewriteHead | misc/codemod-jsbi.ts:69-257 | with a first statement the passes keep, the result is that statement followed by the others each rewritten on its own |
| CodemodJsbi.RewriteProgram | misc/codemod-jsbi.ts:55-257 | the rewritten program is the import followed by each statement rewritten, in order; it fails iff one statement's erasure fails |
| CodemodJsbi.Converted | misc/codemod-jsbi.ts:34-260 | what `transform` returns: the printed program after the header is stripped, the import added and the ten passes run, or None where the erasure's assertion fails; stated by `RewriteProgram` |
| CodemodJsbi.Transform | misc/codemod-jsbi.ts:34-260 | when every `bigint` keyword node of the parsed program is a leaf, `transform` strips the first line, adds the import, runs the ten passes in order and prints the result, or fails as the erasure's assertion does |
| CodemodJsbi.IdentKept | misc/codemod-jsbi.ts:142-257 | the binary pass and the erasure keep an identifier |
| CodemodJsbi.MemberKept | misc/codemod-jsbi.ts:142-257 | the binary pass and the erasure keep a `JSBI.<name>` callee |
| CodemodJsbi.BinaryPassMark | misc/codemod-jsbi.ts:142-175 | the binary pass goes inside a marker and keeps it |
| CodemodJsbi.EraseMark | misc/codemod-jsbi.ts:251-257 | erasing a marker leaves its erased argument |
| CodemodJsbi.EraseJsbiCall | misc/codemod-jsbi.ts:251-257 | erasing a `JSBI.<name>(...)` call erases its arguments and keeps the call |
| CodemodJsbi.BinRuleMarks | misc/codemod-jsbi.ts:144-151 | the rule on a sum of two markers is `JSBI.add` of the two markers |
| CodemodJsbi.BinaryAddMarks | misc/codemod-jsbi.ts:142-175 | the binary pass on a sum of two markers is `JSBI.add` of the two rewritten markers |
| CodemodJsbi.EraseAddMarks | misc/codemod-jsbi.ts:251-257 | erasing `JSBI.add` of two markers leaves `JSBI.add` of the two erased arguments |
| CodemodJsbi.NestedBinary | misc/codemod-jsbi.ts:262-265 | for the labelled `(x + y) + z`, the inner sum is rewritten first and becomes, still marked, the outer call's first argument |
| CodemodJsbi.NestedAdd | misc/codemod-jsbi.ts:262-265 | the labelled `(x + y) + z` becomes `JSBI.add(JSBI.add(x, y), z)` after the binary pass and the erasure |
| CodemodJsbi.AddAssignStep | misc/codemod-jsbi.ts:94-111 | `x += m` with a marked `m` becomes `x = JSBI.BigInt(x) + m` |
| CodemodJsbi.BinaryWrapKept | misc/codemod-jsbi.ts:142-175 | the binary pass keeps `JSBI.BigInt(e)` when it keeps `e` |
| CodemodJsbi.BinaryAddWrapped | misc/codemod-jsbi.ts:153-161 | with only the right operand marked, the left one is wrapped in `JSBI.BigInt(...)` |
| CodemodJsbi.AddAssignBinary | misc/codemod-jsbi.ts:142-175 | the binary pass turns `x = JSBI.BigInt(x) + m` into `x = JSBI.add(JSBI.BigInt(JSBI.BigInt(x)), m)` |
| CodemodJsbi.AddAssignErase | misc/codemod-jsbi.ts:251-257 | the erasure then only drops the marker around `m` |
| CodemodJsbi.AddAssignWrapsTwice | misc/codemod-jsbi.ts:94-175 | `x += m` ends as `x = JSBI.add(JSBI.BigInt(JSBI.BigInt(x)), m)`: the left operand is wrapped twice |
| Paths.Reverse | misc/codemod-jsbi.ts:263-265 | `reverse` returns the elements in the opposite order |
| Paths.PreOrderAncestorsFirst | misc/codemod-jsbi.ts:262 | in `find(...).paths()` every ancestor comes before its descendants |
| Paths.ReverseDescendantsFirst | misc/codemod-jsbi.ts:262 | reversed, every path comes before its ancestors, so inner expressions are handled first |
| Paths.FindPathsKind | misc/codemod-jsbi.ts:142 | `find(K).paths()` lists exactly the valid paths to nodes of type `K`, ancestors first |
| Paths.ReplaceInReverse | misc/codemod-jsbi.ts:251-257 | replacing listed paths in reverse order, stopping at a failing node, equals applying the rule to that set of positions bottom-up |
| Paths.FindReplaceReverse | misc/codemod-jsbi.ts:142-175 | the reverse loop over `find(K).paths()` equals the bottom-up rewrite of the nodes of type `K` |
| Paths.ReplaceForward | misc/codemod-literal.ts:17-27 | replacing paths none of which contains another, in order, equals applying the rule at that set of positions, and `found` is set iff there was a path |
| Paths.FindReplaceLeaves | misc/codemod-literal.ts:17-27 | the forward loop over leaf nodes of type `K` equals their bottom-up rewrite, and `found` is set iff one exists |
| Pipeline.DeclareOneLine | misc/codemod-label-bigint.ts:77 | the declaration line has no newline in it |
| Pipeline.StripDeclare | misc/codemod-jsbi.ts:35-36 | the rewriter's first step drops exactly the labeler's declaration line |
| Pipeline.LabelErase | misc/codemod-label-bigint.ts:71-74 | erasing the markers undoes the labelling of a tree that had no `__BIGINT__` call of its own |
| Pipeline.LabelRoundTrip | misc/codemod-label-bigint.ts:43-79 | when a print and a re-parse keep everything but locations, the rewriter's first and last steps recover the labeler's input program up to locations |

## Left out

- Command-line entry points (`main`, reading and writing files, `process.argv`) in every file are not modelled.
- The TypeScript checker is the parameter `typeName` of `DetectBigint.Detect`. The ts-morph project and `getFilePath()` are the parameters `source` and `path`.
- Each node's `getStart()` and `getEnd()` are fields of `TsNode`. How ts-morph computes them is not modelled.
- jscodeshift's parser and printer are the parameters `parse` and `toSource`. Nodes carry no formatting or comments, so what the printer keeps of them is not modelled.
- The labeler's `isBigInt` closure over the detections is the parameter `isBigInt` of `LabelBigint.Transform`. `LabelBigint.IsBigInt` is that closure, built from a list of detections.
- Node shapes: only the fields the rules read are kept. A type annotation is a node holding its type (such as `TSBigIntKeyword` or `TSTypeReference`), placed as a further child of the identifier, function or class property it annotates. `optional` flags, `loc.start.line`, comments and the other fields are not kept.
- Sharing: the codemods reuse node objects (`JSBI_ID`, `JSBI_BIGINT_EXPR`, `left` in the `+=` rule). The model uses values, so it cannot show aliasing.
- In `misc/codemod-jsbi.ts` several passes move reused children that later paths still point into: the identifier, assignment, `typeof`, `valueOf`, `Number` and non-null passes. These passes are recursive functions (`IdentPass`, `AssignPass`, `TypeofPass`, `ValueOfPass`, `NumberPass`, `NonNullPass`), not loops over paths, so one corner differs. When a `typeof e === "bigint"` test is the operand of another such test, jscodeshift's stale path loses the inner rewrite. The model rewrites both.
- CodemodLiteral.ReplaceLiterals, CodemodLiteral.Transform, CodemodJsbiTest.ReplaceCtors and CodemodJsbiTest.Transform require the parsed tree to be well formed (`Ast.WellFormed`: every node has the arity its parser type has for JavaScript). These codemods run on the JavaScript test files (`misc/codemod-literal.ts:5`, `misc/codemod-jsbi-test.ts:5`), where no type annotation occurs.
- CodemodJsbi.ReplaceKeywords and CodemodJsbi.Transform require only that every `bigint` keyword node is a leaf (`CodemodJsbi.KeywordsAreLeaves`). The parser builds every keyword node that way, so annotated TypeScript input is covered. The forward keyword loop needs the requirement: a replaced keyword with children would leave later paths pointing into a removed subtree.
- The `assert.ok(typeof value === "string")` at `misc/codemod-literal.ts:19` and `misc/codemod-jsbi-test.ts:24` cannot fail in the model: a bigint literal's value is always a string there.
- The literal codemods' "return nothing" (`return;`, meaning the file is left unchanged) is `None`.
- Text encoding: a text is a sequence of Unicode scalar values. The program's `line.length`, `getStart()`, `getEnd()` and `getText()` count UTF-16 code units. So for text with characters outside the Basic Multilingual Plane, the line-start table, the links, the node text and the converter's `throw` differ from the program's. For example, in `"😀\nx"` the program's table is `[0, 3, 5]` and the model's is `[0, 2, 4]`. The model agrees with the program on text made only of characters inside that plane.
- Integers: offsets and lengths are unbounded. JavaScript numbers are exact at the sizes a source file has, so no rounding is modelled.
- The comment at `misc/codemod-jsbi.ts:87` says `x += y` becomes `x = __BIGINT__(x) + y`. The code wraps `x` in `JSBI.BigInt(...)` instead, which is not a marker, so the binary pass wraps it a second time. The model follows the code, and `CodemodJsbi.AddAssignWrapsTwice` shows the result.
- The comment at `misc/codemod-jsbi.ts:201` says `Number(x)` becomes `x.toNumber()`. The code makes it `JSBI.toNumber(x)`, and the model follows the code.
- The binary-operator table at `misc/codemod-jsbi.ts:129-140` has no `===` or `!==` entry, and no warning is printed for mixed operands. The model has neither either.
