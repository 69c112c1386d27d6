/**
  misc/codemod-literal.ts: every big-integer literal `1n` becomes
  `JSBI.BigInt("1")`, and a file where that happened gets
  `const JSBI = require("jsbi");` as its first statement. The literal loop
  and the `require` step are shared with misc/codemod-jsbi-test.ts.
*/
module CodemodLiteral {
  import opened Wrappers
  import opened Ast
  import opened Paths

  predicate IsLiteral(k: Kind) {
    k.BigIntLiteral?
  }

  /** The node of type `BigIntLiteral` somewhere in a tree. */
  predicate IsLiteralNode(n: Node) {
    IsLiteral(n.kind)
  }

  /** The loop body: `j.callExpression(JSBI.BigInt, [j.stringLiteral(value)])`. */
  function LiteralRule(m: Node): Node {
    if m.kind.BigIntLiteral? then JsbiBigInt([Str(m.kind.value)]) else m
  }

  /** Every literal replaced by the call carrying its digits. */
  function LiteralPass(n: Node): Node
    decreases n
  {
    if IsLiteral(n.kind) then JsbiBigInt([Str(n.kind.value)])
    else n.(children := seq(|n.children|, i requires 0 <= i < |n.children| => LiteralPass(n.children[i])))
  }

  /** `const JSBI = require("jsbi");` */
  const RequireJsbi := Node(NoLoc, VariableDeclaration("const"),
    [Node(NoLoc, VariableDeclarator, [Ident("JSBI"), Call(Ident("require"), [Str("jsbi")])])])

  /** `p.value.body.unshift(...)` on the program node. */
  function AddRequire(root: Node): (r: Node)
    ensures r.kind == root.kind && r.loc == root.loc && |r.children| == |root.children| + 1
    ensures r.children[0] == RequireJsbi && r.children[1..] == root.children
  {
    root.(children := [RequireJsbi] + root.children)
  }

  /** What `transform` returns: nothing when the file has no literal,
      otherwise the printed program with the literals rewritten and the
      `require` first. */
  function Rewritten(source: string, parse: string -> Program, toSource: Program -> string): Option<string> {
    var root := ProgramRoot(parse(source));
    if !Anywhere(root, IsLiteralNode) then None
    else Some(toSource(Program(AddRequire(LiteralPass(root)).children)))
  }

  /** The literal loop: literals are leaves, so the forward loop replaces
      each of them; `found` says whether there was one. */
  method ReplaceLiterals(root: Node) returns (tree: Node, found: bool)
    requires WellFormed(root)
    ensures tree == LiteralPass(root)
    ensures found <==> Anywhere(root, IsLiteralNode)
  {
    forall p | ValidPath(root, p) && IsLiteral(At(root, p).kind) ensures At(root, p).children == [] {
      WellFormedAt(root, p);
    }
    tree, found := FindReplaceLeaves(root, IsLiteral, LiteralRule);
    LiteralBottomUp(root, IsLiteral(root.kind));
    AnywhereSame(root, KindIs(IsLiteral), IsLiteralNode);
  }

  /** `transform(file, api)`, with `parse` for `j(file.source)` and `toSource`
      for printing. */
  method Transform(source: string, parse: string -> Program, toSource: Program -> string) returns (r: Option<string>)
    requires WellFormed(ProgramRoot(parse(source)))
    ensures r == Rewritten(source, parse, toSource)
  {
    var tree := ProgramRoot(parse(source));
    var found;
    tree, found := ReplaceLiterals(tree);
    if !found {
      return None;
    }
    tree := tree.(children := [RequireJsbi] + tree.children);
    return Some(toSource(Program(tree.children)));
  }

  /** The literal pass is the bottom-up rewrite of the literal nodes. */
  lemma {:induction false} LiteralBottomUp(n: Node, here: bool)
    requires here == IsLiteral(n.kind)
    ensures BottomUp(n, here, KindSel(IsLiteral), LiteralRule, NeverBad) == Some(LiteralPass(n))
    decreases n
  {
    var sel := KindSel(IsLiteral);
    BottomUpNoBad(n, here, sel, LiteralRule, NeverBad);
    BottomUpChildren(n, here, sel, LiteralRule, NeverBad);
    forall i | 0 <= i < |n.children|
      ensures BottomUp(n.children[i], sel(n.kind, i, n.children[i]), sel, LiteralRule, NeverBad) == Some(LiteralPass(n.children[i]))
    {
      LiteralBottomUp(n.children[i], IsLiteral(n.children[i].kind));
    }
    if !here {
      var m := BottomUp(n, here, sel, LiteralRule, NeverBad).value;
      assert m.children == LiteralPass(n).children;
    }
  }

  // What the literal pass does, node by node.

  /** In a parsed tree every path stays in place: a literal at it has become
      `JSBI.BigInt("<its digits>")`, and any other node has kept its type, its
      location and its number of children. */
  lemma {:induction false} LiteralAt(n: Node, p: Path)
    requires WellFormed(n) && ValidPath(n, p)
    ensures ValidPath(LiteralPass(n), p)
    ensures var c, d := At(n, p), At(LiteralPass(n), p);
      (IsLiteral(c.kind) ==> d == JsbiBigInt([Str(c.kind.value)])) &&
      (!IsLiteral(c.kind) ==> d.kind == c.kind && d.loc == c.loc && |d.children| == |c.children|)
    decreases |p|
  {
    if p != [] {
      assert !IsLiteral(n.kind);
      LiteralAt(n.children[p[0]], p[1..]);
    }
  }

  /** No literal is left. */
  lemma {:induction false} LiteralDone(n: Node)
    ensures !Anywhere(LiteralPass(n), IsLiteralNode)
    decreases n
  {
    var r := LiteralPass(n);
    if IsLiteral(n.kind) {
      JsbiCallAvoids("BigInt", [Str(n.kind.value)], IsLiteralNode);
    } else {
      forall i | 0 <= i < |r.children| ensures !Anywhere(r.children[i], IsLiteralNode) {
        LiteralDone(n.children[i]);
      }
    }
  }

  /** Without a literal the pass changes nothing, `BigInt(...)` calls included. */
  lemma {:induction false} LiteralUntouched(n: Node)
    requires !Anywhere(n, IsLiteralNode)
    ensures LiteralPass(n) == n
    decreases n
  {
    forall i | 0 <= i < |n.children| ensures LiteralPass(n.children[i]) == n.children[i] {
      LiteralUntouched(n.children[i]);
    }
    assert LiteralPass(n).children == n.children;
  }

  /** The pass is idempotent. */
  lemma LiteralIdempotent(n: Node)
    ensures LiteralPass(LiteralPass(n)) == LiteralPass(n)
  {
    LiteralDone(n);
    LiteralUntouched(LiteralPass(n));
  }

  /** The rewritten tree of a parsed tree is well formed. */
  lemma {:induction false} LiteralWellFormed(n: Node)
    requires WellFormed(n)
    ensures WellFormed(LiteralPass(n))
    decreases n
  {
    if IsLiteral(n.kind) {
      var c := JsbiBigInt([Str(n.kind.value)]);
      assert WellFormed(c.children[0].children[0]) && WellFormed(c.children[0].children[1]);
      assert WellFormed(c.children[0]) && WellFormed(c.children[1]);
    } else {
      forall i | 0 <= i < |n.children| ensures WellFormed(LiteralPass(n).children[i]) {
        LiteralWellFormed(n.children[i]);
      }
    }
  }

  // The transform as a whole.

  /** A file without a literal is left alone: nothing is returned. */
  lemma NoLiteralNoOutput(source: string, parse: string -> Program, toSource: Program -> string)
    requires forall p :: ValidPath(ProgramRoot(parse(source)), p) ==> !IsLiteral(At(ProgramRoot(parse(source)), p).kind)
    ensures Rewritten(source, parse, toSource).None?
  {
    AnywherePath(ProgramRoot(parse(source)), IsLiteralNode);
  }

  /** When something was rewritten, the printed program is the one
      `require` followed by each statement rewritten, in their order. */
  lemma RequireFirst(source: string, parse: string -> Program, toSource: Program -> string)
    requires Rewritten(source, parse, toSource).Some?
    ensures var body := parse(source).body;
      exists out: seq<Node> ::
        Rewritten(source, parse, toSource) == Some(toSource(Program(out))) &&
        |out| == |body| + 1 && out[0] == RequireJsbi &&
        forall i :: 0 <= i < |body| ==> out[i + 1] == LiteralPass(body[i])
  {
    var root := ProgramRoot(parse(source));
    var out := AddRequire(LiteralPass(root)).children;
    assert !IsLiteral(root.kind);
    assert forall i :: 0 <= i < |root.children| ==> out[i + 1] == LiteralPass(root).children[i];
  }
}
