/**
  misc/codemod-jsbi.ts: the rewriter. It drops the marker declaration line,
  then runs ten passes over the labelled tree in a fixed order and prints the
  result. The passes that loop over `find(...)` paths in the source are loops
  here where the replacement keeps the listed paths meaningful (the keyword
  pass, the binary pass and the marker erasure); the passes that move reused
  children into new nodes are given as the recursive rewrites they amount to.
*/
module CodemodJsbi {
  import opened Wrappers
  import opened Ast
  import opened Paths

  /** `isBigInt`: a call whose callee is the identifier `__BIGINT__`. */
  predicate IsBigInt(n: Node) {
    n.kind == CallExpression && |n.children| >= 1 && n.children[0].kind == Identifier(MarkerName)
  }

  // The input step: `source.slice(source.indexOf("\n") + 1)`.

  /** `s.indexOf("\n")`: the first newline, -1 when there is none. */
  function IndexOfNewline(s: string): (r: int)
    ensures -1 <= r < |s|
    ensures r == -1 <==> '\n' !in s
    ensures r >= 0 ==> s[r] == '\n' && '\n' !in s[..r]
  {
    if s == [] then -1
    else if s[0] == '\n' then 0
    else
      var k := IndexOfNewline(s[1..]);
      assert k >= 0 ==> s[..k + 1] == [s[0]] + s[1..][..k];
      if k == -1 then -1 else k + 1
  }

  /** Everything after the first line; the whole text when it has one line. */
  function StripHeader(s: string): (r: string)
    ensures '\n' !in s ==> r == s
    ensures '\n' in s ==> exists k :: 0 <= k < |s| && s[k] == '\n' && '\n' !in s[..k] && r == s[k + 1..]
  {
    s[IndexOfNewline(s) + 1..]
  }

  /** Dropping the first line of a one-line header, a newline and a text gives
      back the text. */
  lemma StripHeaderLine(header: string, text: string)
    requires '\n' !in header
    ensures StripHeader(header + "\n" + text) == text
  {
    var s := header + "\n" + text;
    assert s[|header|] == '\n' && s[..|header|] == header;
    assert forall j :: 0 <= j < |header| ==> s[j] == header[j];
    var k := IndexOfNewline(s);
    assert k >= |header|;
    assert s[..k + 1][|header|] == '\n';
    assert k == |header|;
    assert s[|header| + 1..] == text;
  }

  // Pass 1: `import JSBI from "jsbi"` put at the head of the program body.

  const ImportJsbi := Node(NoLoc, ImportDeclaration, [Node(NoLoc, ImportDefaultSpecifier, [Ident("JSBI")]), Str("jsbi")])

  /** `p.value.body.unshift(...)` on the program node. */
  function AddImport(root: Node): (r: Node)
    ensures r.kind == root.kind && |r.children| == |root.children| + 1
    ensures r.children[0] == ImportJsbi && r.children[1..] == root.children
  {
    root.(children := [ImportJsbi] + root.children)
  }

  // Pass 2: the `bigint` type keyword becomes the type `JSBI`.

  /** `j.tsTypeReference(JSBI_ID)` */
  const JsbiType := Node(NoLoc, TSTypeReference, [Ident("JSBI")])

  predicate IsKeyword(k: Kind) {
    k == TSBigIntKeyword
  }

  function ToJsbiType(m: Node): Node {
    JsbiType
  }

  /** Every keyword node replaced by the type reference. */
  function KeywordPass(n: Node): Node
    decreases n
  {
    if n.kind == TSBigIntKeyword then JsbiType
    else n.(children := seq(|n.children|, i requires 0 <= i < |n.children| => KeywordPass(n.children[i])))
  }

  // Pass 3: the identifier `BigInt` becomes `JSBI.BigInt`.

  /** Every identifier named `BigInt` replaced by the member expression (the
      replaced node's own children go with it). */
  function IdentPass(n: Node): Node
    decreases n
  {
    if n.kind == Identifier("BigInt") then JsbiMember("BigInt")
    else n.(children := seq(|n.children|, i requires 0 <= i < |n.children| => IdentPass(n.children[i])))
  }

  // Pass 4: `x += m` becomes `x = JSBI.BigInt(x) + m`.

  /** `ASSIGN_OP_MAPPING` */
  const AssignOps: map<string, string> := map["+=" := "+"]

  /** An assignment with a listed operator, an identifier on the left and a
      marker on the right. */
  predicate AssignMatch(n: Node) {
    n.kind.AssignmentExpression? && n.kind.operator in AssignOps && |n.children| == 2 &&
    n.children[0].kind.Identifier? && IsBigInt(n.children[1])
  }

  /** The assignment pass: each match rewritten, outer before inner; the left
      identifier is shared by both of its new places. */
  function AssignPass(n: Node): Node
    decreases n
  {
    if AssignMatch(n) then
      var left := AssignPass(n.children[0]);
      Assign("=", left, Binary(AssignOps[n.kind.operator], JsbiBigInt([left]), AssignPass(n.children[1])))
    else n.(children := seq(|n.children|, i requires 0 <= i < |n.children| => AssignPass(n.children[i])))
  }

  // Pass 5: arithmetic and comparisons become `JSBI.<method>(...)`.

  /** `BIN_OP_MAPPING` */
  const BinOps: map<string, string> := map[
    "+" := "add", "-" := "subtract", "*" := "multiply", "/" := "divide", "%" := "remainder",
    "**" := "exponentiate", "<" := "lessThan", "<=" := "lessThanOrEqual",
    ">" := "greaterThan", ">=" := "greaterThanOrEqual"]

  predicate IsBinary(k: Kind) {
    k.BinaryExpression?
  }

  /** An operand as a JSBI argument: a marker as it is, anything else wrapped
      in `JSBI.BigInt(...)`. */
  function Promote(e: Node): Node {
    if IsBigInt(e) then e else JsbiBigInt([e])
  }

  /** A binary expression with a listed operator and at least one marked
      operand. */
  predicate BinMatch(m: Node) {
    m.kind.BinaryExpression? && m.kind.operator in BinOps && |m.children| == 2 &&
    (IsBigInt(m.children[0]) || IsBigInt(m.children[1]))
  }

  /** The body of the binary loop, on the node as it is when its turn comes. */
  function BinRule(m: Node): (r: Node)
    ensures BinMatch(m) ==>
      r == Call(JsbiMember(BinOps[m.kind.operator]), [Promote(m.children[0]), Promote(m.children[1])])
    ensures !BinMatch(m) ==> r == m
  {
    if m.kind.BinaryExpression? && |m.children| == 2 && m.kind.operator in BinOps then
      var left, right := m.children[0], m.children[1];
      var callee := JsbiMember(BinOps[m.kind.operator]);
      if IsBigInt(left) && IsBigInt(right) then Call(callee, [left, right])
      else if IsBigInt(right) then Call(callee, [JsbiBigInt([left]), right])
      else if IsBigInt(left) then Call(callee, [left, JsbiBigInt([right])])
      else m
    else m
  }

  /** The binary pass: every binary expression rewritten after the ones
      below it. */
  function BinaryPass(n: Node): Node {
    BottomUpNoBad(n, IsBinary(n.kind), KindSel(IsBinary), BinRule, NeverBad);
    BottomUp(n, IsBinary(n.kind), KindSel(IsBinary), BinRule, NeverBad).value
  }

  // Pass 6: `typeof e === "bigint"` becomes `e instanceof JSBI`.

  predicate TypeofMatch(n: Node) {
    n.kind == BinaryExpression("===") && |n.children| == 2 &&
    n.children[0].kind == UnaryExpression("typeof") && |n.children[0].children| == 1 &&
    n.children[1].kind == StringLiteral("bigint")
  }

  function TypeofPass(n: Node): Node
    decreases n
  {
    if TypeofMatch(n) then
      assert n.children[0].children[0] < n.children[0];
      Binary("instanceof", TypeofPass(n.children[0].children[0]), Ident("JSBI"))
    else n.(children := seq(|n.children|, i requires 0 <= i < |n.children| => TypeofPass(n.children[i])))
  }

  // Pass 7: `m.valueOf()` becomes `m`.

  /** A call without arguments whose callee is a member expression with the
      property `valueOf` and a marked object. */
  predicate ValueOfMatch(n: Node) {
    n.kind == CallExpression && |n.children| == 1 &&
    n.children[0].kind.MemberExpression? && |n.children[0].children| == 2 &&
    n.children[0].children[1].kind == Identifier("valueOf") && IsBigInt(n.children[0].children[0])
  }

  function ValueOfPass(n: Node): Node
    decreases n
  {
    if ValueOfMatch(n) then
      assert n.children[0].children[0] < n.children[0];
      ValueOfPass(n.children[0].children[0])
    else n.(children := seq(|n.children|, i requires 0 <= i < |n.children| => ValueOfPass(n.children[i])))
  }

  // Pass 8: `Number(m)` becomes `JSBI.toNumber(m)`.

  /** A call of the identifier `Number` with exactly one, marked, argument. */
  predicate NumberMatch(n: Node) {
    n.kind == CallExpression && |n.children| == 2 &&
    n.children[0].kind == Identifier("Number") && IsBigInt(n.children[1])
  }

  function NumberPass(n: Node): Node
    decreases n
  {
    if NumberMatch(n) then Call(JsbiMember("toNumber"), [NumberPass(n.children[1])])
    else n.(children := seq(|n.children|, i requires 0 <= i < |n.children| => NumberPass(n.children[i])))
  }

  // Pass 9: `e!` directly inside a marker becomes `e ?? JSBI.BigInt(0)`.

  /** The non-null pass; `parentIsBigInt` is `isBigInt(p.parent.value)`, the
      parent as it is when the node's turn comes. */
  function NonNullPass(n: Node, parentIsBigInt: bool): Node
    decreases n
  {
    if n.kind == TSNonNullExpression && parentIsBigInt && |n.children| == 1 then
      Logical("??", NonNullPass(n.children[0], false), JsbiBigInt([Num(0)]))
    else n.(children := seq(|n.children|, i requires 0 <= i < |n.children| => NonNullPass(n.children[i], IsBigInt(n))))
  }

  // Pass 10: every marker replaced by its argument, innermost first.

  /** The erasure loop's body. */
  function EraseRule(m: Node): Node {
    if IsBigInt(m) && |m.children| == 2 then m.children[1] else m
  }

  /** `assert.ok(args.length === 1)` fails. */
  predicate BadMarker(m: Node) {
    IsBigInt(m) && |m.children| != 2
  }

  function EraseMarkers(n: Node): Option<Node> {
    BottomUp(n, IsCall(n.kind), KindSel(IsCall), EraseRule, BadMarker)
  }

  /** The erasure never looks at locations: on the tree without them it fails
      exactly when it fails on the tree, and otherwise gives the result
      without its locations. */
  lemma {:induction false} EraseIgnoresLocs(n: Node, here: bool)
    requires here == IsCall(n.kind)
    ensures var a := BottomUp(n, here, KindSel(IsCall), EraseRule, BadMarker);
      var b := BottomUp(StripLocs(n), here, KindSel(IsCall), EraseRule, BadMarker);
      a.Some? == b.Some? && (a.Some? ==> b.value == StripLocs(a.value))
    decreases n
  {
    var sel := KindSel(IsCall);
    var s := StripLocs(n);
    assert s.children == seq(|n.children|, i requires 0 <= i < |n.children| => StripLocs(n.children[i]));
    var ra := seq(|n.children|, i requires 0 <= i < |n.children| =>
      BottomUp(n.children[i], sel(n.kind, i, n.children[i]), sel, EraseRule, BadMarker));
    var rb := seq(|s.children|, i requires 0 <= i < |s.children| =>
      BottomUp(s.children[i], sel(s.kind, i, s.children[i]), sel, EraseRule, BadMarker));
    forall i | 0 <= i < |n.children|
      ensures ra[i].Some? == rb[i].Some? && (ra[i].Some? ==> rb[i].value == StripLocs(ra[i].value))
    {
      EraseIgnoresLocs(n.children[i], IsCall(n.children[i].kind));
    }
    if AllSome(ra).Some? {
      var ma := n.(children := AllSome(ra).value);
      var mb := s.(children := AllSome(rb).value);
      assert mb.children == StripLocs(ma).children;
      assert mb == StripLocs(ma);
      EraseRuleLocs(ma);
    } else {
      var k :| 0 <= k < |ra| && ra[k].None?;
      assert !rb[k].Some?;
    }
  }

  /** The erasure's test and body on one node do not look at locations. */
  lemma EraseRuleLocs(m: Node)
    ensures BadMarker(StripLocs(m)) == BadMarker(m)
    ensures EraseRule(StripLocs(m)) == StripLocs(EraseRule(m))
  {
    if IsBigInt(m) && |m.children| == 2 {
      assert StripLocs(m).children[1] == StripLocs(m.children[1]);
    }
  }

  /** Passes 2 to 9 on a tree; pass 9 starts with no parent. */
  function Prepass(t: Node): Node {
    NonNullPass(NumberPass(ValueOfPass(TypeofPass(BinaryPass(AssignPass(IdentPass(KeywordPass(t))))))), false)
  }

  /** Passes 2 to 10 on a tree. */
  function RewriteTree(t: Node): Option<Node> {
    EraseMarkers(Prepass(t))
  }

  /** What `transform(source, j)` returns, with `parse` for `j(source)` and
      `toSource` for printing; None when the erasure's assertion fails. */
  function Converted(source: string, parse: string -> Program, toSource: Program -> string): Option<string> {
    match RewriteTree(AddImport(ProgramRoot(parse(StripHeader(source)))))
    case None => None
    case Some(t) => Some(toSource(Program(t.children)))
  }

  /** Every `bigint` keyword node is a leaf, as the parser builds it; type
      annotations and everything else may have any shape. */
  ghost predicate KeywordsAreLeaves(t: Node) {
    forall p :: ValidPath(t, p) && IsKeyword(At(t, p).kind) ==> At(t, p).children == []
  }

  /** The keyword loop: keyword nodes are leaves, so the forward loop replaces
      each of them. */
  method ReplaceKeywords(root: Node) returns (tree: Node)
    requires KeywordsAreLeaves(root)
    ensures tree == KeywordPass(root)
  {
    var found;
    tree, found := FindReplaceLeaves(root, IsKeyword, ToJsbiType);
    KeywordBottomUp(root, IsKeyword(root.kind));
  }

  /** The keyword pass is the bottom-up rewrite of the keyword nodes. */
  lemma {:induction false} KeywordBottomUp(n: Node, here: bool)
    requires here == IsKeyword(n.kind)
    ensures BottomUp(n, here, KindSel(IsKeyword), ToJsbiType, NeverBad) == Some(KeywordPass(n))
    decreases n
  {
    var sel := KindSel(IsKeyword);
    BottomUpNoBad(n, here, sel, ToJsbiType, NeverBad);
    BottomUpChildren(n, here, sel, ToJsbiType, NeverBad);
    forall i | 0 <= i < |n.children|
      ensures BottomUp(n.children[i], sel(n.kind, i, n.children[i]), sel, ToJsbiType, NeverBad) == Some(KeywordPass(n.children[i]))
    {
      KeywordBottomUp(n.children[i], IsKeyword(n.children[i].kind));
    }
    if !here {
      var m := BottomUp(n, here, sel, ToJsbiType, NeverBad).value;
      assert m.children == KeywordPass(n).children;
    }
  }

  /** The import has no keyword node. */
  lemma ImportNoKeyword(q: Path)
    requires ValidPath(ImportJsbi, q)
    ensures !IsKeyword(At(ImportJsbi, q).kind)
  {
    ImportAvoids(KindIs(IsKeyword));
    AnywherePath(ImportJsbi, KindIs(IsKeyword));
    assert !KindIs(IsKeyword)(At(ImportJsbi, q));
  }

  /** Adding the import keeps every keyword node a leaf: the import has no
      keyword, and every other path leads into the program as it was. */
  lemma ImportKeywordLeaves(root: Node)
    requires KeywordsAreLeaves(root) && !IsKeyword(root.kind)
    ensures KeywordsAreLeaves(AddImport(root))
  {
    var t := AddImport(root);
    forall p | ValidPath(t, p) && IsKeyword(At(t, p).kind) ensures At(t, p).children == [] {
      if p[0] == 0 {
        ImportNoKeyword(p[1..]);
      } else {
        var q := [p[0] - 1] + p[1..];
        assert q[1..] == p[1..];
        assert t.children[p[0]] == root.children[p[0] - 1];
        assert ValidPath(root, q) && At(root, q) == At(t, p);
      }
    }
  }

  /** `transform(source, j)`. */
  method Transform(source: string, parse: string -> Program, toSource: Program -> string) returns (r: Option<string>)
    requires KeywordsAreLeaves(ProgramRoot(parse(StripHeader(source))))
    ensures r == Converted(source, parse, toSource)
  {
    var text := StripHeader(source);
    var tree := ProgramRoot(parse(text));
    ImportKeywordLeaves(tree);
    tree := tree.(children := [ImportJsbi] + tree.children);
    tree := ReplaceKeywords(tree);
    tree := IdentPass(tree);
    tree := AssignPass(tree);
    var binary := FindReplaceReverse(tree, IsBinary, BinRule, NeverBad);
    BottomUpNoBad(tree, IsBinary(tree.kind), KindSel(IsBinary), BinRule, NeverBad);
    tree := binary.value;
    tree := TypeofPass(tree);
    tree := ValueOfPass(tree);
    tree := NumberPass(tree);
    tree := NonNullPass(tree, false);
    var erased := FindReplaceReverse(tree, IsCall, EraseRule, BadMarker);
    if erased.None? {
      return None;
    }
    return Some(toSource(Program(erased.value.children)));
  }

  // What each pass guarantees.

  /** No `bigint` keyword is left after the keyword pass. */
  lemma {:induction false} KeywordDone(n: Node)
    ensures !Anywhere(KeywordPass(n), (m: Node) => IsKeyword(m.kind))
    decreases n
  {
    var r := KeywordPass(n);
    if n.kind == TSBigIntKeyword {
      assert !Anywhere(r.children[0], (m: Node) => IsKeyword(m.kind));
    } else {
      forall i | 0 <= i < |r.children| ensures !Anywhere(r.children[i], (m: Node) => IsKeyword(m.kind)) {
        KeywordDone(n.children[i]);
      }
    }
  }

  /** No node on the way down to the end of `p`, the end excluded, is an
      identifier `BigInt`; the pass would have replaced it whole. */
  predicate NoIdentAbove(n: Node, p: Path)
    decreases |p|
  {
    p == [] || (n.kind != Identifier("BigInt") && p[0] < |n.children| && NoIdentAbove(n.children[p[0]], p[1..]))
  }

  /** Every path below no identifier `BigInt` stays in place: an identifier
      `BigInt` at it has become `JSBI.BigInt`, and any other node has kept its
      type, its location and its number of children. */
  lemma {:induction false} IdentAt(n: Node, p: Path)
    requires ValidPath(n, p) && NoIdentAbove(n, p)
    ensures ValidPath(IdentPass(n), p)
    ensures var c, d := At(n, p), At(IdentPass(n), p);
      (c.kind == Identifier("BigInt") ==> d == JsbiMember("BigInt")) &&
      (c.kind != Identifier("BigInt") ==> d.kind == c.kind && d.loc == c.loc && |d.children| == |c.children|)
    decreases |p|
  {
    if p != [] {
      IdentAt(n.children[p[0]], p[1..]);
    }
  }

  /** The identifier pass changes nothing in a tree without an identifier
      named `BigInt`. */
  lemma {:induction false} IdentUntouched(n: Node)
    requires !Anywhere(n, (m: Node) => m.kind == Identifier("BigInt"))
    ensures IdentPass(n) == n
    decreases n
  {
    forall i | 0 <= i < |n.children| ensures IdentPass(n.children[i]) == n.children[i] {
      IdentUntouched(n.children[i]);
    }
    assert IdentPass(n).children == n.children;
  }

  /** The assignment pass keeps every node's type unless it rewrites the
      node, and keeps markers markers. */
  lemma AssignPassKind(n: Node)
    ensures AssignMatch(n) ==> AssignPass(n).kind == AssignmentExpression("=")
    ensures !AssignMatch(n) ==> AssignPass(n).kind == n.kind && |AssignPass(n).children| == |n.children|
    ensures IsBigInt(AssignPass(n)) == IsBigInt(n)
  {
    if !AssignMatch(n) && |n.children| > 0 {
      AssignPassKind(n.children[0]);
    }
  }

  /** After the assignment pass no `x += m` with an identifier `x` and a
      marked `m` is left. */
  lemma {:induction false} AssignDone(n: Node)
    ensures !Anywhere(AssignPass(n), AssignMatch)
    decreases n
  {
    var r := AssignPass(n);
    if AssignMatch(n) {
      var left := AssignPass(n.children[0]);
      var right := AssignPass(n.children[1]);
      AssignDone(n.children[0]);
      AssignDone(n.children[1]);
      var wrapped := JsbiBigInt([left]);
      JsbiCallAvoids("BigInt", [left], AssignMatch);
      assert r.children[1].children == [wrapped, right];
      assert !Anywhere(r.children[1], AssignMatch);
      assert r.children == [left, r.children[1]];
      assert "=" !in AssignOps;
    } else {
      forall i | 0 <= i < |r.children| ensures !Anywhere(r.children[i], AssignMatch) {
        AssignDone(n.children[i]);
      }
      if |n.children| == 2 {
        AssignPassKind(n.children[0]);
        AssignPassKind(n.children[1]);
      }
    }
  }

  /** The assignment pass changes nothing where nothing matches: other
      operators, other targets and unmarked right sides stay as they are. */
  lemma {:induction false} AssignUntouched(n: Node)
    requires !Anywhere(n, AssignMatch)
    ensures AssignPass(n) == n
    decreases n
  {
    forall i | 0 <= i < |n.children| ensures AssignPass(n.children[i]) == n.children[i] {
      AssignUntouched(n.children[i]);
    }
    assert AssignPass(n).children == n.children;
  }

  /** After the binary pass no binary expression with a listed operator has a
      marked operand: all of them have become JSBI calls. */
  lemma {:induction false} BinaryDone(n: Node, here: bool)
    requires here == IsBinary(n.kind)
    ensures BottomUp(n, here, KindSel(IsBinary), BinRule, NeverBad).Some?
    ensures !Anywhere(BottomUp(n, here, KindSel(IsBinary), BinRule, NeverBad).value, BinMatch)
    decreases n
  {
    var sel := KindSel(IsBinary);
    BottomUpNoBad(n, here, sel, BinRule, NeverBad);
    BottomUpChildren(n, here, sel, BinRule, NeverBad);
    var rs := seq(|n.children|, i requires 0 <= i < |n.children| =>
      BottomUp(n.children[i], sel(n.kind, i, n.children[i]), sel, BinRule, NeverBad));
    var m := n.(children := AllSome(rs).value);
    forall i | 0 <= i < |m.children| ensures !Anywhere(m.children[i], BinMatch) {
      BinaryDone(n.children[i], IsBinary(n.children[i].kind));
    }
    if here && BinMatch(m) {
      BinRuleClean(m);
    }
  }

  /** A rewritten binary expression whose operands are clean is clean. */
  lemma BinRuleClean(m: Node)
    requires BinMatch(m)
    requires !Anywhere(m.children[0], BinMatch) && !Anywhere(m.children[1], BinMatch)
    ensures !Anywhere(BinRule(m), BinMatch)
  {
    forall k | 0 <= k < 2 ensures !Anywhere(Promote(m.children[k]), BinMatch) {
      if !IsBigInt(m.children[k]) {
        JsbiCallAvoids("BigInt", [m.children[k]], BinMatch);
      }
    }
    JsbiCallAvoids(BinOps[m.kind.operator], [Promote(m.children[0]), Promote(m.children[1])], BinMatch);
  }

  /** The binary pass changes nothing where no binary expression with a
      listed operator has a marked operand. */
  lemma {:induction false} BinaryUntouched(n: Node, here: bool)
    requires here == IsBinary(n.kind)
    requires !Anywhere(n, BinMatch)
    ensures BottomUp(n, here, KindSel(IsBinary), BinRule, NeverBad) == Some(n)
    decreases n
  {
    var sel := KindSel(IsBinary);
    BottomUpNoBad(n, here, sel, BinRule, NeverBad);
    BottomUpChildren(n, here, sel, BinRule, NeverBad);
    var rs := seq(|n.children|, i requires 0 <= i < |n.children| =>
      BottomUp(n.children[i], sel(n.kind, i, n.children[i]), sel, BinRule, NeverBad));
    forall i | 0 <= i < |n.children| ensures rs[i] == Some(n.children[i]) {
      BinaryUntouched(n.children[i], IsBinary(n.children[i].kind));
    }
    assert AllSome(rs).value == n.children;
  }

  /** A matched test becomes `e instanceof JSBI` with its operand rewritten;
      every other node keeps its type, location and arity; markers stay
      markers. */
  lemma TypeofPassKind(n: Node)
    ensures TypeofMatch(n) ==> var r := TypeofPass(n);
      r.kind == BinaryExpression("instanceof") && |r.children| == 2 &&
      r.children[0] == TypeofPass(n.children[0].children[0]) && r.children[1] == Ident("JSBI")
    ensures !TypeofMatch(n) ==>
      TypeofPass(n).kind == n.kind && TypeofPass(n).loc == n.loc && |TypeofPass(n).children| == |n.children|
    ensures IsBigInt(TypeofPass(n)) == IsBigInt(n)
  {
    if !TypeofMatch(n) && |n.children| > 0 {
      TypeofPassKind(n.children[0]);
    }
  }

  /** After the type-test pass no `typeof e === "bigint"` is left. */
  lemma {:induction false} TypeofDone(n: Node)
    ensures !Anywhere(TypeofPass(n), TypeofMatch)
    decreases n
  {
    var r := TypeofPass(n);
    if TypeofMatch(n) {
      TypeofDone(n.children[0].children[0]);
      assert !Anywhere(r.children[1], TypeofMatch);
    } else {
      forall i | 0 <= i < |r.children| ensures !Anywhere(r.children[i], TypeofMatch) {
        TypeofDone(n.children[i]);
      }
      if |n.children| == 2 {
        TypeofPassKind(n.children[0]);
        TypeofPassKind(n.children[1]);
      }
    }
  }

  /** The type-test pass changes nothing where nothing matches. */
  lemma {:induction false} TypeofUntouched(n: Node)
    requires !Anywhere(n, TypeofMatch)
    ensures TypeofPass(n) == n
    decreases n
  {
    forall i | 0 <= i < |n.children| ensures TypeofPass(n.children[i]) == n.children[i] {
      TypeofUntouched(n.children[i]);
    }
    assert TypeofPass(n).children == n.children;
  }

  /** The `valueOf` pass changes nothing where nothing matches: calls with
      arguments, other properties, unmarked objects stay. */
  lemma {:induction false} ValueOfUntouched(n: Node)
    requires !Anywhere(n, ValueOfMatch)
    ensures ValueOfPass(n) == n
    decreases n
  {
    forall i | 0 <= i < |n.children| ensures ValueOfPass(n.children[i]) == n.children[i] {
      ValueOfUntouched(n.children[i]);
    }
    assert ValueOfPass(n).children == n.children;
  }

  /** A node that is not `m.valueOf()` keeps its type, location and arity; the
      result is a marker exactly when the node was one or was `m.valueOf()`
      (it is then the marker `m`, rewritten). */
  lemma {:induction false} ValueOfPassKind(n: Node)
    ensures !ValueOfMatch(n) ==>
      ValueOfPass(n).kind == n.kind && ValueOfPass(n).loc == n.loc && |ValueOfPass(n).children| == |n.children|
    ensures IsBigInt(ValueOfPass(n)) <==> IsBigInt(n) || ValueOfMatch(n)
    decreases n
  {
    if ValueOfMatch(n) {
      assert n.children[0].children[0] < n.children[0];
      ValueOfPassKind(n.children[0].children[0]);
    } else if |n.children| > 0 {
      ValueOfPassKind(n.children[0]);
    }
  }

  /** A node other than `Number(m)` keeps its type, location and arity;
      markers stay markers and no marker is made. */
  lemma NumberPassKind(n: Node)
    ensures !NumberMatch(n) ==>
      NumberPass(n).kind == n.kind && NumberPass(n).loc == n.loc && |NumberPass(n).children| == |n.children|
    ensures IsBigInt(NumberPass(n)) == IsBigInt(n)
  {
    if !NumberMatch(n) && |n.children| > 0 {
      NumberPassKind(n.children[0]);
    }
  }

  /** After the `Number` pass no `Number(m)` with a marked `m` is left. */
  lemma {:induction false} NumberDone(n: Node)
    ensures !Anywhere(NumberPass(n), NumberMatch)
    decreases n
  {
    var r := NumberPass(n);
    if NumberMatch(n) {
      NumberDone(n.children[1]);
      JsbiCallAvoids("toNumber", [NumberPass(n.children[1])], NumberMatch);
    } else {
      forall i | 0 <= i < |r.children| ensures !Anywhere(r.children[i], NumberMatch) {
        NumberDone(n.children[i]);
      }
      if |n.children| == 2 {
        NumberPassKind(n.children[0]);
        NumberPassKind(n.children[1]);
      }
    }
  }

  /** The `Number` pass changes nothing where nothing matches: other callees,
      other argument counts and unmarked arguments stay. */
  lemma {:induction false} NumberUntouched(n: Node)
    requires !Anywhere(n, NumberMatch)
    ensures NumberPass(n) == n
    decreases n
  {
    forall i | 0 <= i < |n.children| ensures NumberPass(n.children[i]) == n.children[i] {
      NumberUntouched(n.children[i]);
    }
    assert NumberPass(n).children == n.children;
  }

  /** A marker with a one-child non-null assertion among its children. */
  predicate NonNullUnderMarker(n: Node) {
    IsBigInt(n) && exists i :: 0 <= i < |n.children| && n.children[i].kind == TSNonNullExpression && |n.children[i].children| == 1
  }

  /** An `e!` that is not directly inside a marker, and every other node, keeps
      its type, location and arity; markers stay markers and no marker is
      made. */
  lemma NonNullPassKind(n: Node, parentIsBigInt: bool)
    ensures !(n.kind == TSNonNullExpression && parentIsBigInt && |n.children| == 1) ==>
      var r := NonNullPass(n, parentIsBigInt);
      r.kind == n.kind && r.loc == n.loc && |r.children| == |n.children|
    ensures IsBigInt(NonNullPass(n, parentIsBigInt)) == IsBigInt(n)
  {
    if !(n.kind == TSNonNullExpression && parentIsBigInt && |n.children| == 1) && |n.children| > 0 {
      NonNullPassKind(n.children[0], IsBigInt(n));
    }
  }

  /** `JSBI.BigInt(0)` has no `e!` inside a marker. */
  lemma ZeroClean()
    ensures !Anywhere(JsbiBigInt([Num(0)]), NonNullUnderMarker)
  {
    assert !Anywhere(Num(0), NonNullUnderMarker);
    JsbiCallAvoids("BigInt", [Num(0)], NonNullUnderMarker);
  }

  /** After the non-null pass no one-child `e!` is left directly inside a
      marker: each such `e!` became a `??` expression, and the pass makes no
      new marker. */
  lemma {:induction false} NonNullDone(n: Node, parentIsBigInt: bool)
    ensures !Anywhere(NonNullPass(n, parentIsBigInt), NonNullUnderMarker)
    decreases n
  {
    var r := NonNullPass(n, parentIsBigInt);
    if n.kind == TSNonNullExpression && parentIsBigInt && |n.children| == 1 {
      NonNullDone(n.children[0], false);
      ZeroClean();
      assert r.children == [NonNullPass(n.children[0], false), JsbiBigInt([Num(0)])];
    } else {
      forall i | 0 <= i < |r.children| ensures !Anywhere(r.children[i], NonNullUnderMarker) {
        NonNullDone(n.children[i], IsBigInt(n));
      }
      NonNullPassKind(n, parentIsBigInt);
      forall i | 0 <= i < |r.children|
        ensures !(r.children[i].kind == TSNonNullExpression && |r.children[i].children| == 1) || !IsBigInt(r)
      {
        NonNullPassKind(n.children[i], IsBigInt(n));
      }
    }
  }

  /** The non-null pass changes nothing unless some `e!` sits directly inside
      a marker: `e!` elsewhere stays. */
  lemma {:induction false} NonNullUntouched(n: Node, parentIsBigInt: bool)
    requires !Anywhere(n, NonNullUnderMarker)
    requires !(parentIsBigInt && n.kind == TSNonNullExpression && |n.children| == 1)
    ensures NonNullPass(n, parentIsBigInt) == n
    decreases n
  {
    forall i | 0 <= i < |n.children| ensures NonNullPass(n.children[i], IsBigInt(n)) == n.children[i] {
      NonNullUntouched(n.children[i], IsBigInt(n));
    }
    assert NonNullPass(n, parentIsBigInt).children == n.children;
  }

  /** The keyword pass changes nothing in a tree without the keyword. */
  lemma {:induction false} KeywordUntouched(n: Node)
    requires !Anywhere(n, (m: Node) => IsKeyword(m.kind))
    ensures KeywordPass(n) == n
    decreases n
  {
    forall i | 0 <= i < |n.children| ensures KeywordPass(n.children[i]) == n.children[i] {
      KeywordUntouched(n.children[i]);
    }
    assert KeywordPass(n).children == n.children;
  }

  /** The erasure keeps a node that is not a call as it is, up to its
      children. */
  lemma BottomUpKeepsKind(n: Node, sel: Selector, f: Node -> Node, bad: Node -> bool)
    requires BottomUp(n, false, sel, f, bad).Some?
    ensures BottomUp(n, false, sel, f, bad).value.kind == n.kind
    ensures |BottomUp(n, false, sel, f, bad).value.children| == |n.children|
  {
    BottomUpChildren(n, false, sel, f, bad);
  }

  /** When the erasure succeeds, no marker is left. */
  lemma {:induction false} EraseClean(n: Node, here: bool)
    requires here == IsCall(n.kind)
    requires BottomUp(n, here, KindSel(IsCall), EraseRule, BadMarker).Some?
    ensures !Anywhere(BottomUp(n, here, KindSel(IsCall), EraseRule, BadMarker).value, IsBigInt)
    decreases n
  {
    var sel := KindSel(IsCall);
    BottomUpChildren(n, here, sel, EraseRule, BadMarker);
    var rs := seq(|n.children|, i requires 0 <= i < |n.children| =>
      BottomUp(n.children[i], sel(n.kind, i, n.children[i]), sel, EraseRule, BadMarker));
    var m := n.(children := AllSome(rs).value);
    forall i | 0 <= i < |m.children| ensures !Anywhere(m.children[i], IsBigInt) {
      EraseClean(n.children[i], IsCall(n.children[i].kind));
    }
  }

  /** A marker whose argument count is not one makes the erasure fail (the
      `assert.ok`), wherever it sits. */
  lemma {:induction false} EraseFails(n: Node, here: bool, p: Path)
    requires here == IsCall(n.kind)
    requires ValidPath(n, p) && BadMarker(At(n, p))
    ensures BottomUp(n, here, KindSel(IsCall), EraseRule, BadMarker).None?
    decreases |p|
  {
    var sel := KindSel(IsCall);
    var rs := seq(|n.children|, i requires 0 <= i < |n.children| =>
      BottomUp(n.children[i], sel(n.kind, i, n.children[i]), sel, EraseRule, BadMarker));
    if p == [] {
      if AllSome(rs).Some? {
        var c := n.children[0];
        assert !IsCall(c.kind);
        assert sel(n.kind, 0, c) == false;
        assert rs[0] == BottomUp(c, false, sel, EraseRule, BadMarker);
        BottomUpKeepsKind(c, sel, EraseRule, BadMarker);
        var m := n.(children := AllSome(rs).value);
        assert m.children[0].kind == Identifier(MarkerName);
        assert BadMarker(m);
      }
    } else {
      var k := p[0];
      EraseFails(n.children[k], IsCall(n.children[k].kind), p[1..]);
      assert rs[k].None?;
    }
  }

  /** The erasure changes nothing in a tree without markers. */
  lemma {:induction false} EraseUntouched(n: Node, here: bool)
    requires here == IsCall(n.kind)
    requires !Anywhere(n, IsBigInt)
    ensures BottomUp(n, here, KindSel(IsCall), EraseRule, BadMarker) == Some(n)
    decreases n
  {
    var sel := KindSel(IsCall);
    var rs := seq(|n.children|, i requires 0 <= i < |n.children| =>
      BottomUp(n.children[i], sel(n.kind, i, n.children[i]), sel, EraseRule, BadMarker));
    forall i | 0 <= i < |n.children| ensures rs[i] == Some(n.children[i]) {
      EraseUntouched(n.children[i], IsCall(n.children[i].kind));
    }
    assert AllSome(rs).value == n.children;
  }

  /** One node of the binary pass: its children first, then the rule. */
  lemma BinaryStep(n: Node)
    ensures var m := n.(children := seq(|n.children|, i requires 0 <= i < |n.children| => BinaryPass(n.children[i])));
      BinaryPass(n) == if IsBinary(n.kind) then BinRule(m) else m
  {
    var sel := KindSel(IsBinary);
    BottomUpNoBad(n, IsBinary(n.kind), sel, BinRule, NeverBad);
    BottomUpChildren(n, IsBinary(n.kind), sel, BinRule, NeverBad);
    forall i | 0 <= i < |n.children| ensures BottomUp(n.children[i], sel(n.kind, i, n.children[i]), sel, BinRule, NeverBad) == Some(BinaryPass(n.children[i])) {
      BottomUpNoBad(n.children[i], IsBinary(n.children[i].kind), sel, BinRule, NeverBad);
    }
  }

  /** One node of the erasure: its children first, then the rule. */
  lemma EraseStep(n: Node)
    requires forall i :: 0 <= i < |n.children| ==> EraseMarkers(n.children[i]).Some?
    ensures var m := n.(children := seq(|n.children|, i requires 0 <= i < |n.children| => EraseMarkers(n.children[i]).value));
      EraseMarkers(n) == if !IsCall(n.kind) then Some(m) else if BadMarker(m) then None else Some(EraseRule(m))
  {
    var sel := KindSel(IsCall);
    var rs := seq(|n.children|, i requires 0 <= i < |n.children| =>
      BottomUp(n.children[i], sel(n.kind, i, n.children[i]), sel, EraseRule, BadMarker));
    assert forall i :: 0 <= i < |n.children| ==> rs[i] == EraseMarkers(n.children[i]);
    assert AllSome(rs).value == seq(|n.children|, i requires 0 <= i < |n.children| => EraseMarkers(n.children[i]).value);
  }

  /** The import node has no node satisfying `P` when none of its four
      nodes does. */
  lemma ImportAvoids(P: Node -> bool)
    requires !P(ImportJsbi) && !P(ImportJsbi.children[0]) && !P(Ident("JSBI")) && !P(Str("jsbi"))
    ensures !Anywhere(ImportJsbi, P)
  {
    var spec := ImportJsbi.children[0];
    assert !Anywhere(spec.children[0], P);
    assert !Anywhere(spec, P);
    assert !Anywhere(ImportJsbi.children[1], P);
  }

  /** The import node is left as it is by passes 2 to 9. */
  lemma ImportPrepass()
    ensures Prepass(ImportJsbi) == ImportJsbi
  {
    ImportAvoids((m: Node) => IsKeyword(m.kind));
    ImportAvoids((m: Node) => m.kind == Identifier("BigInt"));
    ImportAvoids(AssignMatch);
    ImportAvoids(BinMatch);
    ImportAvoids(TypeofMatch);
    ImportAvoids(ValueOfMatch);
    ImportAvoids(NumberMatch);
    ImportAvoids(NonNullUnderMarker);
    PrepassUntouched(ImportJsbi);
  }

  /** Passes 2 to 9 keep a tree in which none of them finds a match. */
  lemma PrepassUntouched(t: Node)
    requires !Anywhere(t, (m: Node) => IsKeyword(m.kind))
    requires !Anywhere(t, (m: Node) => m.kind == Identifier("BigInt"))
    requires !Anywhere(t, AssignMatch) && !Anywhere(t, BinMatch) && !Anywhere(t, TypeofMatch)
    requires !Anywhere(t, ValueOfMatch) && !Anywhere(t, NumberMatch) && !Anywhere(t, NonNullUnderMarker)
    ensures Prepass(t) == t
  {
    KeywordUntouched(t);
    IdentUntouched(t);
    AssignUntouched(t);
    BinaryUntouched(t, IsBinary(t.kind));
    TypeofUntouched(t);
    ValueOfUntouched(t);
    NumberUntouched(t);
    NonNullUntouched(t, false);
  }

  /** and by the erasure. */
  lemma ImportErase()
    ensures EraseMarkers(ImportJsbi) == Some(ImportJsbi)
  {
    ImportAvoids(IsBigInt);
    EraseUntouched(ImportJsbi, false);
  }

  /** The erasure of a node that is not a call fails exactly when a child's
      fails, and otherwise erases each child. */
  lemma EraseSplit(p: Node)
    requires !IsCall(p.kind)
    ensures EraseMarkers(p).None? <==> exists i :: 0 <= i < |p.children| && EraseMarkers(p.children[i]).None?
    ensures EraseMarkers(p).Some? ==>
      EraseMarkers(p).value.kind == p.kind && |EraseMarkers(p).value.children| == |p.children| &&
      forall i :: 0 <= i < |p.children| ==> EraseMarkers(p.children[i]) == Some(EraseMarkers(p).value.children[i])
  {
    var sel := KindSel(IsCall);
    var rs := seq(|p.children|, i requires 0 <= i < |p.children| =>
      BottomUp(p.children[i], sel(p.kind, i, p.children[i]), sel, EraseRule, BadMarker));
    assert forall i :: 0 <= i < |p.children| ==> rs[i] == EraseMarkers(p.children[i]);
  }

  /** `t` is `r` with `F` applied to each child. */
  ghost predicate EachChild(r: Node, t: Node, F: Node -> Node) {
    t.kind == r.kind && |t.children| == |r.children| &&
    forall i :: 0 <= i < |r.children| ==> t.children[i] == F(r.children[i])
  }

  // Each pass, on the program node, rewrites each statement on its own.

  lemma KeywordRoot(r: Node)
    requires r.kind == OtherNode("Program")
    ensures EachChild(r, KeywordPass(r), KeywordPass)
  {
  }

  lemma IdentRoot(r: Node)
    requires r.kind == OtherNode("Program")
    ensures EachChild(r, IdentPass(r), IdentPass)
  {
  }

  lemma AssignRoot(r: Node)
    requires r.kind == OtherNode("Program")
    ensures EachChild(r, AssignPass(r), AssignPass)
  {
  }

  lemma BinaryRoot(r: Node)
    requires r.kind == OtherNode("Program")
    ensures EachChild(r, BinaryPass(r), BinaryPass)
  {
    BinaryStep(r);
  }

  lemma TypeofRoot(r: Node)
    requires r.kind == OtherNode("Program")
    ensures EachChild(r, TypeofPass(r), TypeofPass)
  {
  }

  lemma ValueOfRoot(r: Node)
    requires r.kind == OtherNode("Program")
    ensures EachChild(r, ValueOfPass(r), ValueOfPass)
  {
  }

  lemma NumberRoot(r: Node)
    requires r.kind == OtherNode("Program")
    ensures EachChild(r, NumberPass(r), NumberPass)
  {
  }

  lemma NonNullRoot(r: Node)
    requires r.kind == OtherNode("Program")
    ensures EachChild(r, NonNullPass(r, false), c => NonNullPass(c, false))
  {
    assert !IsBigInt(r);
  }

  /** On the program node, passes 2 to 9 rewrite each statement on its own. */
  lemma PrepassRoot(r: Node)
    requires r.kind == OtherNode("Program")
    ensures Prepass(r).kind == r.kind && |Prepass(r).children| == |r.children|
    ensures forall i :: 0 <= i < |r.children| ==> Prepass(r).children[i] == Prepass(r.children[i])
  {
    var t1 := KeywordPass(r);
    KeywordRoot(r);
    var t2 := IdentPass(t1);
    IdentRoot(t1);
    var t3 := AssignPass(t2);
    AssignRoot(t2);
    var t4 := BinaryPass(t3);
    BinaryRoot(t3);
    var t5 := TypeofPass(t4);
    TypeofRoot(t4);
    var t6 := ValueOfPass(t5);
    ValueOfRoot(t5);
    var t7 := NumberPass(t6);
    NumberRoot(t6);
    NonNullRoot(t7);
  }

  /** The rewritten program is the import followed by each statement
      rewritten, in their order; it fails exactly when one statement's
      erasure fails. */
  lemma RewriteProgram(body: seq<Node>)
    ensures var r := RewriteTree(AddImport(ProgramRoot(Program(body))));
      (r.None? <==> exists i :: 0 <= i < |body| && RewriteTree(body[i]).None?) &&
      (r.Some? ==>
         r.value.kind == OtherNode("Program") && |r.value.children| == |body| + 1 &&
         r.value.children[0] == ImportJsbi &&
         forall i :: 0 <= i < |body| ==> RewriteTree(body[i]) == Some(r.value.children[i + 1]))
  {
    ImportPrepass();
    ImportErase();
    RewriteHead(ImportJsbi, body);
  }

  /** The same, for any first statement the passes keep. */
  lemma RewriteHead(head: Node, body: seq<Node>)
    requires RewriteTree(head) == Some(head)
    ensures var r := RewriteTree(Node(NoLoc, OtherNode("Program"), [head] + body));
      (r.None? <==> exists i :: 0 <= i < |body| && RewriteTree(body[i]).None?) &&
      (r.Some? ==>
         r.value.kind == OtherNode("Program") && |r.value.children| == |body| + 1 &&
         r.value.children[0] == head &&
         forall i :: 0 <= i < |body| ==> RewriteTree(body[i]) == Some(r.value.children[i + 1]))
  {
    var root := Node(NoLoc, OtherNode("Program"), [head] + body);
    RewriteRoot(root);
    ShiftHead(head, body, RewriteTree, RewriteTree(root));
  }

  /** Statement-wise results over `[head] + body`, read over `body`. */
  lemma ShiftHead(head: Node, body: seq<Node>, F: Node -> Option<Node>, r: Option<Node>)
    requires F(head) == Some(head)
    requires var cs := [head] + body;
      (r.None? <==> exists i :: 0 <= i < |cs| && F(cs[i]).None?) &&
      (r.Some? ==> |r.value.children| == |cs| && forall i :: 0 <= i < |cs| ==> F(cs[i]) == Some(r.value.children[i]))
    ensures r.None? <==> exists i :: 0 <= i < |body| && F(body[i]).None?
    ensures r.Some? ==>
      |r.value.children| == |body| + 1 && r.value.children[0] == head &&
      forall i :: 0 <= i < |body| ==> F(body[i]) == Some(r.value.children[i + 1])
  {
    var cs := [head] + body;
    assert forall i :: 0 <= i < |body| ==> cs[i + 1] == body[i];
    if r.None? {
      var j :| 0 <= j < |cs| && F(cs[j]).None?;
      assert j != 0;
      assert F(body[j - 1]).None?;
    }
  }

  /** The passes work statement by statement below the program node. */
  lemma RewriteRoot(root: Node)
    requires root.kind == OtherNode("Program")
    ensures RewriteTree(root).None? <==> exists i :: 0 <= i < |root.children| && RewriteTree(root.children[i]).None?
    ensures RewriteTree(root).Some? ==>
      RewriteTree(root).value.kind == root.kind && |RewriteTree(root).value.children| == |root.children| &&
      forall i :: 0 <= i < |root.children| ==> RewriteTree(root.children[i]) == Some(RewriteTree(root).value.children[i])
  {
    PrepassRoot(root);
    EraseSplit(Prepass(root));
  }

  // Worked examples: what the passes make of marked expressions.

  /** `BinaryStep` with the rewritten children given. */
  lemma BinaryNode(n: Node, cs: seq<Node>)
    requires |cs| == |n.children| && forall i :: 0 <= i < |cs| ==> BinaryPass(n.children[i]) == cs[i]
    ensures BinaryPass(n) == if IsBinary(n.kind) then BinRule(n.(children := cs)) else n.(children := cs)
  {
    BinaryStep(n);
    assert seq(|n.children|, i requires 0 <= i < |n.children| => BinaryPass(n.children[i])) == cs;
  }

  /** `EraseStep` with the erased children given. */
  lemma EraseNode(n: Node, cs: seq<Node>)
    requires |cs| == |n.children| && forall i :: 0 <= i < |cs| ==> EraseMarkers(n.children[i]) == Some(cs[i])
    ensures var m := n.(children := cs);
      EraseMarkers(n) == if !IsCall(n.kind) then Some(m) else if BadMarker(m) then None else Some(EraseRule(m))
  {
    EraseStep(n);
    assert seq(|n.children|, i requires 0 <= i < |n.children| => EraseMarkers(n.children[i]).value) == cs;
  }

  /** The passes keep an identifier. */
  lemma IdentKept(name: string)
    ensures BinaryPass(Ident(name)) == Ident(name) && EraseMarkers(Ident(name)) == Some(Ident(name))
  {
    BinaryNode(Ident(name), []);
    EraseNode(Ident(name), []);
  }

  /** The binary pass goes into a marker. */
  lemma BinaryPassMark(e: Node)
    ensures BinaryPass(Mark(e)) == Mark(BinaryPass(e))
  {
    IdentKept(MarkerName);
    BinaryNode(Mark(e), [Ident(MarkerName), BinaryPass(e)]);
  }

  /** Erasing a marker leaves its erased argument. */
  lemma EraseMark(e: Node, v: Node)
    requires EraseMarkers(e) == Some(v)
    ensures EraseMarkers(Mark(e)) == Some(v)
  {
    IdentKept(MarkerName);
    EraseNode(Mark(e), [Ident(MarkerName), v]);
  }

  /** The passes keep the callee `JSBI.<name>`. */
  lemma MemberKept(name: string)
    ensures BinaryPass(JsbiMember(name)) == JsbiMember(name) && EraseMarkers(JsbiMember(name)) == Some(JsbiMember(name))
  {
    IdentKept("JSBI");
    IdentKept(name);
    BinaryNode(JsbiMember(name), [Ident("JSBI"), Ident(name)]);
    EraseNode(JsbiMember(name), [Ident("JSBI"), Ident(name)]);
  }

  /** Erasing a JSBI call erases its arguments. */
  lemma EraseJsbiCall(name: string, args: seq<Node>, vs: seq<Node>)
    requires |args| == |vs| && forall i :: 0 <= i < |args| ==> EraseMarkers(args[i]) == Some(vs[i])
    ensures EraseMarkers(Call(JsbiMember(name), args)) == Some(Call(JsbiMember(name), vs))
  {
    MemberKept(name);
    var c := Call(JsbiMember(name), args);
    EraseNode(c, [JsbiMember(name)] + vs);
  }

  /** The binary pass on a sum of two markers. */
  lemma BinaryAddMarks(a: Node, b: Node, a2: Node, b2: Node)
    requires BinaryPass(a) == a2 && BinaryPass(b) == b2
    ensures BinaryPass(Binary("+", Mark(a), Mark(b))) == Call(JsbiMember("add"), [Mark(a2), Mark(b2)])
  {
    BinaryPassMark(a);
    BinaryPassMark(b);
    BinaryNode(Binary("+", Mark(a), Mark(b)), [Mark(a2), Mark(b2)]);
    assert Binary("+", Mark(a), Mark(b)).(children := [Mark(a2), Mark(b2)]) == Binary("+", Mark(a2), Mark(b2));
    BinRuleMarks(a2, b2);
  }

  /** The rule on a sum of two markers. */
  lemma BinRuleMarks(a: Node, b: Node)
    ensures BinRule(Binary("+", Mark(a), Mark(b))) == Call(JsbiMember("add"), [Mark(a), Mark(b)])
  {
    assert BinMatch(Binary("+", Mark(a), Mark(b)));
  }

  /** The erasure of `JSBI.add` applied to two markers. */
  lemma EraseAddMarks(a: Node, b: Node, a2: Node, b2: Node)
    requires EraseMarkers(a) == Some(a2) && EraseMarkers(b) == Some(b2)
    ensures EraseMarkers(Call(JsbiMember("add"), [Mark(a), Mark(b)])) == Some(Call(JsbiMember("add"), [a2, b2]))
  {
    EraseMark(a, a2);
    EraseMark(b, b2);
    EraseJsbiCall("add", [Mark(a), Mark(b)], [a2, b2]);
  }

  /** Innermost first: the labelled `(x + y) + z`, with every operand and the
      inner sum marked, becomes `JSBI.add(JSBI.add(x, y), z)`. */
  lemma NestedAdd(x: Node, y: Node, z: Node)
    requires BinaryPass(x) == x && BinaryPass(y) == y && BinaryPass(z) == z
    requires EraseMarkers(x) == Some(x) && EraseMarkers(y) == Some(y) && EraseMarkers(z) == Some(z)
    ensures var t := Mark(Binary("+", Mark(Binary("+", Mark(x), Mark(y))), Mark(z)));
      EraseMarkers(BinaryPass(t)) == Some(Call(JsbiMember("add"), [Call(JsbiMember("add"), [x, y]), z]))
  {
    NestedBinary(x, y, z);
    var sum := Call(JsbiMember("add"), [Mark(x), Mark(y)]);
    var xy := Call(JsbiMember("add"), [x, y]);
    EraseAddMarks(x, y, x, y);
    EraseAddMarks(sum, z, xy, z);
    EraseMark(Call(JsbiMember("add"), [Mark(sum), Mark(z)]), Call(JsbiMember("add"), [xy, z]));
  }

  /** The binary pass of `NestedAdd`: the inner sum is rewritten first and,
      marked, becomes the outer call's first argument. */
  lemma NestedBinary(x: Node, y: Node, z: Node)
    requires BinaryPass(x) == x && BinaryPass(y) == y && BinaryPass(z) == z
    ensures var t := Mark(Binary("+", Mark(Binary("+", Mark(x), Mark(y))), Mark(z)));
      BinaryPass(t) == Mark(Call(JsbiMember("add"), [Mark(Call(JsbiMember("add"), [Mark(x), Mark(y)])), Mark(z)]))
  {
    var inner := Binary("+", Mark(x), Mark(y));
    var sum := Call(JsbiMember("add"), [Mark(x), Mark(y)]);
    BinaryAddMarks(x, y, x, y);
    BinaryAddMarks(inner, z, sum, z);
    BinaryPassMark(Binary("+", Mark(inner), Mark(z)));
  }

  /** `x += m`: the assignment pass already wraps the left operand in
      `JSBI.BigInt(...)`, which is not a marker, so the binary pass wraps it
      again and the result is `x = JSBI.add(JSBI.BigInt(JSBI.BigInt(x)), m)`. */
  lemma AddAssignWrapsTwice(name: string, y: Node)
    requires AssignPass(y) == y && BinaryPass(y) == y && EraseMarkers(y) == Some(y)
    ensures var x := Ident(name);
      EraseMarkers(BinaryPass(AssignPass(Assign("+=", x, Mark(y))))) ==
      Some(Assign("=", x, Call(JsbiMember("add"), [JsbiBigInt([JsbiBigInt([x])]), y])))
  {
    AddAssignStep(name, y);
    AddAssignBinary(name, y);
    AddAssignErase(name, y);
  }

  /** The assignment pass on `x += m`. */
  lemma AddAssignStep(name: string, y: Node)
    requires AssignPass(y) == y
    ensures AssignPass(Assign("+=", Ident(name), Mark(y))) == Assign("=", Ident(name), Binary("+", JsbiBigInt([Ident(name)]), Mark(y)))
  {
    var x := Ident(name);
    var t := Assign("+=", x, Mark(y));
    assert AssignMatch(t);
    assert AssignPass(x) == x;
    assert AssignPass(Ident(MarkerName)) == Ident(MarkerName);
    assert AssignPass(Mark(y)).children == [Ident(MarkerName), y];
    assert AssignPass(Mark(y)) == Mark(y);
  }

  /** The binary pass on its result. */
  lemma AddAssignBinary(name: string, y: Node)
    requires BinaryPass(y) == y
    ensures var x := Ident(name);
      BinaryPass(Assign("=", x, Binary("+", JsbiBigInt([x]), Mark(y)))) ==
      Assign("=", x, Call(JsbiMember("add"), [JsbiBigInt([JsbiBigInt([x])]), Mark(y)]))
  {
    var x := Ident(name);
    IdentKept(name);
    BinaryWrapKept(x);
    BinaryAddWrapped(JsbiBigInt([x]), y);
    BinaryNode(Assign("=", x, Binary("+", JsbiBigInt([x]), Mark(y))), [x, Call(JsbiMember("add"), [JsbiBigInt([JsbiBigInt([x])]), Mark(y)])]);
  }

  /** The binary pass keeps `JSBI.BigInt(e)` when it keeps `e`. */
  lemma BinaryWrapKept(e: Node)
    requires BinaryPass(e) == e
    ensures BinaryPass(JsbiBigInt([e])) == JsbiBigInt([e])
  {
    MemberKept("BigInt");
    BinaryNode(JsbiBigInt([e]), [JsbiMember("BigInt"), e]);
  }

  /** The binary pass on `JSBI.BigInt(x) + m`: the left operand is not a
      marker, so it is wrapped. */
  lemma BinaryAddWrapped(a: Node, y: Node)
    requires BinaryPass(a) == a && !IsBigInt(a) && BinaryPass(y) == y
    ensures BinaryPass(Binary("+", a, Mark(y))) == Call(JsbiMember("add"), [JsbiBigInt([a]), Mark(y)])
  {
    BinaryPassMark(y);
    BinaryNode(Binary("+", a, Mark(y)), [a, Mark(y)]);
  }

  /** The erasure of the binary pass's result on `x += m`. */
  lemma AddAssignErase(name: string, y: Node)
    requires EraseMarkers(y) == Some(y)
    ensures var x := Ident(name);
      EraseMarkers(Assign("=", x, Call(JsbiMember("add"), [JsbiBigInt([JsbiBigInt([x])]), Mark(y)]))) ==
      Some(Assign("=", x, Call(JsbiMember("add"), [JsbiBigInt([JsbiBigInt([x])]), y])))
  {
    var x := Ident(name);
    var wrapped := JsbiBigInt([JsbiBigInt([x])]);
    IdentKept(name);
    EraseJsbiCall("BigInt", [x], [x]);
    EraseJsbiCall("BigInt", [JsbiBigInt([x])], [JsbiBigInt([x])]);
    EraseMark(y, y);
    EraseJsbiCall("add", [wrapped, Mark(y)], [wrapped, y]);
    EraseNode(Assign("=", x, Call(JsbiMember("add"), [wrapped, Mark(y)])), [x, Call(JsbiMember("add"), [wrapped, y])]);
  }
}
