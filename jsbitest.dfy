/**
  misc/codemod-jsbi-test.ts: the test-file codemod. Literals `1n` become
  `JSBI.BigInt("1")` (the loop shared with misc/codemod-literal.ts), then
  every call `BigInt(args)` becomes `JSBI.BigInt(args)`, and a file where
  either happened gets `const JSBI = require("jsbi");` first.
*/
module CodemodJsbiTest {
  import opened Wrappers
  import opened Ast
  import opened Paths
  import opened CodemodLiteral

  /** A call whose callee is the identifier `BigInt`. */
  predicate CtorMatch(n: Node) {
    n.kind == CallExpression && |n.children| >= 1 && n.children[0].kind == Identifier("BigInt")
  }

  /** `j.callExpression(JSBI_BIGINT, p.value.arguments)`: the same arguments
      under the new callee. */
  function Rebuilt(x: Node): (r: Node)
    requires CtorMatch(x)
    ensures r.kind == CallExpression && r.loc == NoLoc && |r.children| == |x.children|
    ensures r.children[0] == JsbiMember("BigInt") && r.children[1..] == x.children[1..]
  {
    Call(JsbiMember("BigInt"), x.children[1..])
  }

  /** The constructor pass: every `BigInt(...)` call rewritten, arguments
      included. */
  function CtorPass(n: Node): Node
    decreases n
  {
    if CtorMatch(n) then
      Call(JsbiMember("BigInt"), seq(|n.children| - 1, i requires 0 <= i < |n.children| - 1 => CtorPass(n.children[i + 1])))
    else n.(children := seq(|n.children|, i requires 0 <= i < |n.children| => CtorPass(n.children[i])))
  }

  /** What `transform` returns: nothing when neither rule fired, otherwise
      the printed program with both passes made and the `require` first. */
  function Rewritten(source: string, parse: string -> Program, toSource: Program -> string): Option<string> {
    var root := ProgramRoot(parse(source));
    var lit := LiteralPass(root);
    if !Anywhere(root, IsLiteralNode) && !Anywhere(lit, CtorMatch) then None
    else Some(toSource(Program(AddRequire(CtorPass(lit)).children)))
  }

  /** The constructor loop, `for (const p of $j.find(j.CallExpression).paths())`:
      each listed path still names a node when its turn comes, and the pass
      ends with the recursive rewrite; `found` says whether a call matched. */
  method ReplaceCtors(root: Node) returns (tree: Node, found: bool)
    requires WellFormed(root)
    ensures tree == CtorPass(root)
    ensures found <==> Anywhere(root, CtorMatch)
  {
    var ps := FindPaths(root, IsCall);
    FindPathsKind(root, IsCall);
    tree, found := root, false;
    CtorLoopStart(root, ps);
    for i := 0 to |ps|
      invariant CtorLoop(root, ps, i, tree, found)
    {
      var p := ps[i];
      assert ValidPath(tree, p);
      var x := At(tree, p);
      if CtorMatch(x) {
        CtorLoopStep(root, ps, i, tree, found);
        tree := ReplaceAt(tree, p, Rebuilt(x));
        found := true;
      } else {
        CtorLoopSkip(root, ps, i, tree, found);
      }
    }
    CtorLoopEnd(root, ps, tree, found);
  }

  /** The invariant of the constructor loop after `i` steps: the tree stays
      parsed-shaped, the paths to come name nodes, every matching call is at
      one of them, and what is left to rewrite rewrites to the full result. */
  ghost predicate CtorLoop(root: Node, ps: seq<Path>, i: nat, tree: Node, found: bool) {
    i <= |ps| && WellFormed(tree) &&
    (forall j :: i <= j < |ps| ==> ValidPath(tree, ps[j])) &&
    (forall q :: ValidPath(tree, q) && CtorMatch(At(tree, q)) ==> q in ps[i..]) &&
    CtorPass(tree) == CtorPass(root) &&
    (!found ==> tree == root) &&
    (found ==> Anywhere(root, CtorMatch))
  }

  lemma CtorLoopStart(root: Node, ps: seq<Path>)
    requires WellFormed(root)
    requires forall p <- ps :: ValidPath(root, p)
    requires forall p :: ValidPath(root, p) && IsCall(At(root, p).kind) ==> p in ps
    ensures CtorLoop(root, ps, 0, root, false)
  {
    assert ps[0..] == ps;
  }

  lemma CtorLoopSkip(root: Node, ps: seq<Path>, i: nat, tree: Node, found: bool)
    requires CtorLoop(root, ps, i, tree, found) && i < |ps|
    requires !CtorMatch(At(tree, ps[i]))
    ensures CtorLoop(root, ps, i + 1, tree, found)
  {
    assert ps[i..] == [ps[i]] + ps[i + 1..];
  }

  lemma CtorLoopStep(root: Node, ps: seq<Path>, i: nat, tree: Node, found: bool)
    requires CtorLoop(root, ps, i, tree, found) && i < |ps| && AncestorsFirst(ps)
    requires CtorMatch(At(tree, ps[i]))
    ensures CtorLoop(root, ps, i + 1, ReplaceAt(tree, ps[i], Rebuilt(At(tree, ps[i]))), true)
  {
    CtorStep(tree, ps[i], ps, i);
    if !found {
      FoundAnywhere(root, CtorMatch, ps[i]);
    }
  }

  lemma CtorLoopEnd(root: Node, ps: seq<Path>, tree: Node, found: bool)
    requires CtorLoop(root, ps, |ps|, tree, found)
    ensures tree == CtorPass(root)
    ensures found <==> Anywhere(root, CtorMatch)
  {
    AnywherePath(tree, CtorMatch);
    CtorUntouched(tree);
    AnywherePath(root, CtorMatch);
  }

  /** One replacing step keeps the loop's invariant. */
  lemma CtorStep(t: Node, p: Path, ps: seq<Path>, i: nat)
    requires i < |ps| && p == ps[i] && AncestorsFirst(ps)
    requires WellFormed(t) && ValidPath(t, p) && CtorMatch(At(t, p))
    requires forall j :: i <= j < |ps| ==> ValidPath(t, ps[j])
    requires forall q :: ValidPath(t, q) && CtorMatch(At(t, q)) ==> q in ps[i..]
    ensures var t' := ReplaceAt(t, p, Rebuilt(At(t, p)));
      WellFormed(t') &&
      (forall j :: i < j < |ps| ==> ValidPath(t', ps[j])) &&
      (forall q :: ValidPath(t', q) && CtorMatch(At(t', q)) ==> q in ps[i + 1..]) &&
      CtorPass(t') == CtorPass(t)
  {
    var x := At(t, p);
    var y := Rebuilt(x);
    var t' := ReplaceAt(t, p, y);
    WellFormedAt(t, p);
    RebuiltWellFormed(x);
    ReplaceWellFormed(t, p, y);
    forall j | i < j < |ps| ensures ValidPath(t', ps[j]) {
      StepValid(t, p, ps[j]);
    }
    assert ps[i..] == [p] + ps[i + 1..];
    forall q | ValidPath(t', q) && CtorMatch(At(t', q)) ensures q in ps[i + 1..] {
      StepMatches(t, p, q);
    }
    RebuiltSame(x);
    CtorCong(t, p, y);
  }

  // The rebuilt call.

  /** No node of `JSBI.<name>` is a call. */
  lemma MemberNoCall(name: string, s: Path)
    requires ValidPath(JsbiMember(name), s)
    ensures At(JsbiMember(name), s).kind != CallExpression
  {
    if s != [] {
      assert s[1..] == [];
    }
  }

  /** The rebuilt call's arguments are the matched call's, at the same
      paths; under its callee there is no call. */
  lemma RebuiltPaths(x: Node, r: Path)
    requires CtorMatch(x) && ValidPath(Rebuilt(x), r)
    ensures (r == [] || r[0] == 0) ==> !CtorMatch(At(Rebuilt(x), r))
    ensures r != [] && r[0] >= 1 ==> ValidPath(x, r) && At(Rebuilt(x), r) == At(x, r)
  {
    var y := Rebuilt(x);
    if r != [] && r[0] == 0 {
      MemberNoCall("BigInt", r[1..]);
    } else if r != [] {
      assert y.children[r[0]] == x.children[r[0]];
    }
  }

  /** A path of a parsed matched call is a path of the rebuilt one. */
  lemma RebuiltValid(x: Node, r: Path)
    requires WellFormed(x) && CtorMatch(x) && ValidPath(x, r)
    ensures ValidPath(Rebuilt(x), r)
  {
    var y := Rebuilt(x);
    if r != [] && r[0] == 0 {
      assert WellFormed(x.children[0]);
      assert r[1..] == [];
    } else if r != [] {
      assert y.children[r[0]] == x.children[r[0]];
    }
  }

  lemma RebuiltWellFormed(x: Node)
    requires WellFormed(x) && CtorMatch(x)
    ensures WellFormed(Rebuilt(x))
  {
    var y := Rebuilt(x);
    assert WellFormed(y.children[0].children[0]) && WellFormed(y.children[0].children[1]);
    forall i | 0 <= i < |y.children| ensures WellFormed(y.children[i]) {
      if i > 0 {
        assert y.children[i] == x.children[i];
      }
    }
  }

  /** Replacing below a node by one of the same type keeps the node's type
      and whether it matches. */
  lemma ReplaceKeepsMatch(u: Node, s: Path, y: Node)
    requires ValidPath(u, s) && s != [] && y.kind == At(u, s).kind
    ensures ReplaceAt(u, s, y).kind == u.kind
    ensures CtorMatch(ReplaceAt(u, s, y)) == CtorMatch(u)
  {
    var u' := ReplaceAt(u, s, y);
    assert |u'.children| == |u.children|;
    if s[0] == 0 {
      assert u'.children[0] == ReplaceAt(u.children[0], s[1..], y);
    } else {
      assert u'.children[0] == u.children[0];
    }
  }

  /** After a step, every matching node was a matching node before, at
      another path. */
  lemma StepMatches(t: Node, p: Path, q: Path)
    requires ValidPath(t, p) && CtorMatch(At(t, p))
    requires ValidPath(ReplaceAt(t, p, Rebuilt(At(t, p))), q)
    requires CtorMatch(At(ReplaceAt(t, p, Rebuilt(At(t, p))), q))
    ensures q != p && ValidPath(t, q) && CtorMatch(At(t, q))
  {
    var x := At(t, p);
    var y := Rebuilt(x);
    if IsPrefix(p, q) {
      var r := q[|p|..];
      assert q == p + r;
      ReplaceInside(t, p, y, r);
      RebuiltPaths(x, r);
      AtAppend(t, p, r);
    } else if IsPrefix(q, p) {
      ReplaceAbove(t, p, y, q);
      assert q + p[|q|..] == p;
      AtAppend(t, q, p[|q|..]);
      ReplaceKeepsMatch(At(t, q), p[|q|..], y);
    } else {
      ReplaceBeside(t, p, y, q);
    }
  }

  /** After a step, every path still to come names a node. */
  lemma StepValid(t: Node, p: Path, q: Path)
    requires WellFormed(t) && ValidPath(t, p) && CtorMatch(At(t, p))
    requires ValidPath(t, q) && !IsPrefix(q, p)
    ensures ValidPath(ReplaceAt(t, p, Rebuilt(At(t, p))), q)
  {
    var x := At(t, p);
    var y := Rebuilt(x);
    if IsPrefix(p, q) {
      var r := q[|p|..];
      assert q == p + r;
      AtAppend(t, p, r);
      WellFormedAt(t, p);
      RebuiltValid(x, r);
      ReplaceInside(t, p, y, r);
    } else {
      ReplaceBeside(t, p, y, q);
    }
  }

  // The recursive rewrite.

  /** The rewrite leaves `JSBI.<name>` alone. */
  lemma CtorMember(name: string)
    ensures CtorPass(JsbiMember(name)) == JsbiMember(name)
  {
    var m := JsbiMember(name);
    assert CtorPass(m.children[0]) == m.children[0] && CtorPass(m.children[1]) == m.children[1];
    assert CtorPass(m).children == m.children;
  }

  /** Rewriting the rebuilt call gives what rewriting the matched call gives. */
  lemma RebuiltSame(x: Node)
    requires CtorMatch(x)
    ensures CtorPass(Rebuilt(x)) == CtorPass(x)
  {
    var y := Rebuilt(x);
    CtorMember("BigInt");
    assert CtorPass(y).children == CtorPass(x).children;
  }

  /** Replacing a node by one of the same type with the same rewrite leaves
      the rewrite of the whole tree as it was. */
  lemma {:induction false} CtorCong(t: Node, p: Path, y: Node)
    requires ValidPath(t, p) && y.kind == At(t, p).kind && CtorPass(y) == CtorPass(At(t, p))
    ensures CtorPass(ReplaceAt(t, p, y)) == CtorPass(t)
    decreases |p|
  {
    if p != [] {
      var k := p[0];
      var t' := ReplaceAt(t, p, y);
      CtorCong(t.children[k], p[1..], y);
      ReplaceKeepsMatch(t, p, y);
      assert forall i :: 0 <= i < |t.children| ==> CtorPass(t'.children[i]) == CtorPass(t.children[i]);
      assert CtorPass(t').children == CtorPass(t).children;
    }
  }

  /** Without a `BigInt(...)` call the pass changes nothing. */
  lemma {:induction false} CtorUntouched(n: Node)
    requires !Anywhere(n, CtorMatch)
    ensures CtorPass(n) == n
    decreases n
  {
    forall i | 0 <= i < |n.children| ensures CtorPass(n.children[i]) == n.children[i] {
      CtorUntouched(n.children[i]);
    }
    assert CtorPass(n).children == n.children;
  }

  /** No `BigInt(...)` call is left. */
  lemma {:induction false} CtorDone(n: Node)
    ensures !Anywhere(CtorPass(n), CtorMatch)
    decreases n
  {
    forall i | 0 <= i < |n.children| ensures !Anywhere(CtorPass(n.children[i]), CtorMatch) {
      CtorDone(n.children[i]);
    }
    if CtorMatch(n) {
      CtorDoneHere(n);
    } else {
      CtorDoneBelow(n);
    }
  }

  /** The rewritten call has no match when its rewritten arguments have none. */
  lemma CtorDoneHere(n: Node)
    requires CtorMatch(n)
    requires forall i :: 0 <= i < |n.children| ==> !Anywhere(CtorPass(n.children[i]), CtorMatch)
    ensures !Anywhere(CtorPass(n), CtorMatch)
  {
    var args := seq(|n.children| - 1, i requires 0 <= i < |n.children| - 1 => CtorPass(n.children[i + 1]));
    JsbiCallAvoids("BigInt", args, CtorMatch);
  }

  /** Any other node has no match when its rewritten children have none. */
  lemma CtorDoneBelow(n: Node)
    requires !CtorMatch(n)
    requires forall i :: 0 <= i < |n.children| ==> !Anywhere(CtorPass(n.children[i]), CtorMatch)
    ensures !Anywhere(CtorPass(n), CtorMatch)
  {
    var r := CtorPass(n);
    assert forall i :: 0 <= i < |r.children| ==> r.children[i] == CtorPass(n.children[i]);
  }

  /** `transform(file, api)`, with `parse` for `j(file.source)` and `toSource`
      for printing. */
  method Transform(source: string, parse: string -> Program, toSource: Program -> string) returns (r: Option<string>)
    requires WellFormed(ProgramRoot(parse(source)))
    ensures r == Rewritten(source, parse, toSource)
  {
    var tree := ProgramRoot(parse(source));
    LiteralWellFormed(tree);
    var found, called;
    tree, found := ReplaceLiterals(tree);
    tree, called := ReplaceCtors(tree);
    found := found || called;
    if !found {
      return None;
    }
    tree := tree.(children := [RequireJsbi] + tree.children);
    return Some(toSource(Program(tree.children)));
  }

  // The two passes together.

  /** The literal pass neither makes nor undoes a `BigInt(...)` call, so the
      constructor rule fires on the rewritten tree iff it would on the
      parsed one. */
  lemma {:induction false} LiteralKeepsCtors(n: Node)
    requires WellFormed(n)
    ensures Anywhere(LiteralPass(n), CtorMatch) == Anywhere(n, CtorMatch)
    decreases n
  {
    if IsLiteral(n.kind) {
      var c := JsbiBigInt([Str(n.kind.value)]);
      assert !Anywhere(c.children[0].children[0], CtorMatch) && !Anywhere(c.children[0].children[1], CtorMatch);
      assert !Anywhere(c.children[0], CtorMatch) && !Anywhere(c.children[1], CtorMatch);
      assert !Anywhere(c, CtorMatch);
      assert n.children == [];
    } else {
      var r := LiteralPass(n);
      forall i | 0 <= i < |n.children| ensures Anywhere(r.children[i], CtorMatch) == Anywhere(n.children[i], CtorMatch) {
        LiteralKeepsCtors(n.children[i]);
      }
      if |n.children| > 0 {
        assert r.children[0] == LiteralPass(n.children[0]);
      }
      assert CtorMatch(r) == CtorMatch(n);
    }
  }

  /** The rewrite can be read off at any path of a parsed tree that is not
      the callee `BigInt` of a match. */
  lemma {:induction false} CtorAt(t: Node, p: Path)
    requires WellFormed(t) && ValidPath(t, p) && At(t, p).kind != Identifier("BigInt")
    ensures ValidPath(CtorPass(t), p) && At(CtorPass(t), p) == CtorPass(At(t, p))
    decreases |p|
  {
    if p != [] {
      var k := p[0];
      CalleeLeaf(t, p);
      CtorAt(t.children[k], p[1..]);
    }
  }

  /** Under the callee of a match in a parsed tree there is only the callee. */
  lemma CalleeLeaf(t: Node, p: Path)
    requires WellFormed(t) && ValidPath(t, p) && p != []
    ensures CtorMatch(t) && p[0] == 0 ==> At(t, p) == t.children[0]
  {
    if CtorMatch(t) && p[0] == 0 {
      assert WellFormed(t.children[0]);
      assert p[1..] == [];
    }
  }

  /** The calls the literal pass made are left as they are:
      `JSBI.BigInt("<digits>")` is in the output wherever a literal was. */
  lemma LiteralCallsKept(n: Node, p: Path)
    requires WellFormed(n) && ValidPath(n, p) && IsLiteral(At(n, p).kind)
    ensures var out := CtorPass(LiteralPass(n));
      ValidPath(out, p) && At(out, p) == JsbiBigInt([Str(At(n, p).kind.value)])
  {
    LiteralAt(n, p);
    LiteralWellFormed(n);
    CtorAt(LiteralPass(n), p);
    CtorKeepsWrapped(At(n, p).kind.value);
  }

  /** The call the literal rule builds is not a `BigInt(...)` call. */
  lemma CtorKeepsWrapped(v: string)
    ensures CtorPass(JsbiBigInt([Str(v)])) == JsbiBigInt([Str(v)])
  {
    var c := JsbiBigInt([Str(v)]);
    assert !CtorMatch(c);
    CtorMember("BigInt");
    assert CtorPass(c.children[1]) == c.children[1];
    assert CtorPass(c).children == c.children;
  }

  /** A file with neither a literal nor a `BigInt(...)` call is left alone. */
  lemma NothingFound(source: string, parse: string -> Program, toSource: Program -> string)
    requires WellFormed(ProgramRoot(parse(source)))
    requires !Anywhere(ProgramRoot(parse(source)), IsLiteralNode)
    requires !Anywhere(ProgramRoot(parse(source)), CtorMatch)
    ensures Rewritten(source, parse, toSource).None?
  {
    LiteralKeepsCtors(ProgramRoot(parse(source)));
  }

  /** Either rule firing is enough for output. */
  lemma SomethingFound(source: string, parse: string -> Program, toSource: Program -> string)
    requires WellFormed(ProgramRoot(parse(source)))
    requires Anywhere(ProgramRoot(parse(source)), IsLiteralNode) || Anywhere(ProgramRoot(parse(source)), CtorMatch)
    ensures Rewritten(source, parse, toSource).Some?
  {
    LiteralKeepsCtors(ProgramRoot(parse(source)));
  }

  /** When something was rewritten, the printed program is the one
      `require` followed by each statement rewritten by both passes, in
      their order. */
  lemma TestRequireFirst(source: string, parse: string -> Program, toSource: Program -> string)
    requires Rewritten(source, parse, toSource).Some?
    ensures var body := parse(source).body;
      exists out: seq<Node> ::
        Rewritten(source, parse, toSource) == Some(toSource(Program(out))) &&
        |out| == |body| + 1 && out[0] == RequireJsbi &&
        forall i :: 0 <= i < |body| ==> out[i + 1] == CtorPass(LiteralPass(body[i]))
  {
    var root := ProgramRoot(parse(source));
    var lit := LiteralPass(root);
    var out := AddRequire(CtorPass(lit)).children;
    assert !IsLiteral(root.kind) && !CtorMatch(lit);
    assert forall i :: 0 <= i < |root.children| ==> lit.children[i] == LiteralPass(root.children[i]);
    assert forall i :: 0 <= i < |root.children| ==> out[i + 1] == CtorPass(lit).children[i];
  }
}
