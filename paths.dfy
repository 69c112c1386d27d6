/**
  jscodeshift's traversal: `find(T).paths()` lists the paths to the matching
  nodes in pre-order, computed once against the tree as it is when `find`
  runs, and `path.replace(x)` puts `x` where the path points. A path is the
  sequence of child indices from the root.

  `ApplyOpt` is the bottom-up rewrite a loop of replacements produces when
  every path is replaced after all paths below it (the reverse of a pre-order
  list, or a list of paths none of which lies below another); the insertion
  lemma is the single step of such a loop.
*/
module Paths {
  import opened Wrappers
  import opened Ast

  type Path = seq<nat>

  /** Which nodes of a tree a `find` (and the test the loop body makes on the
      node as it was found) selects: the parent's type, the child's index
      under it, the child. */
  type Selector = (Kind, nat, Node) -> bool

  predicate ValidPath(n: Node, p: Path)
    decreases |p|
  {
    p == [] || (p[0] < |n.children| && ValidPath(n.children[p[0]], p[1..]))
  }

  function At(n: Node, p: Path): Node
    requires ValidPath(n, p)
    decreases |p|
  {
    if p == [] then n else At(n.children[p[0]], p[1..])
  }

  /** `path.replace(x)` */
  function ReplaceAt(n: Node, p: Path, x: Node): Node
    requires ValidPath(n, p)
    decreases |p|
  {
    if p == [] then x
    else n.(children := n.children[p[0] := ReplaceAt(n.children[p[0]], p[1..], x)])
  }

  predicate IsPrefix(a: Path, b: Path) {
    |a| <= |b| && b[..|a|] == a
  }

  predicate StrictPrefix(a: Path, b: Path) {
    |a| < |b| && b[..|a|] == a
  }

  /** No path is preceded by one of its descendants, nor repeated: what a
      pre-order walk guarantees. */
  ghost predicate AncestorsFirst(ps: seq<Path>) {
    forall i, j :: 0 <= i < j < |ps| ==> !IsPrefix(ps[j], ps[i])
  }

  function Under(i: nat, ps: seq<Path>): (r: seq<Path>)
    ensures |r| == |ps| && forall j :: 0 <= j < |ps| ==> r[j] == [i] + ps[j]
  {
    seq(|ps|, j requires 0 <= j < |ps| => [i] + ps[j])
  }

  /** Every path of the tree, in pre-order (a node before its descendants,
      children left to right). */
  function PreOrder(n: Node): (r: seq<Path>)
    ensures forall p <- r :: ValidPath(n, p)
    decreases n, 1
  {
    [[]] + PreOrderFrom(n, 0)
  }

  function PreOrderFrom(n: Node, i: nat): (r: seq<Path>)
    ensures forall p <- r :: |p| > 0 && i <= p[0] && ValidPath(n, p)
    decreases n, 0, |n.children| - i
  {
    if i >= |n.children| then []
    else
      var ps := PreOrder(n.children[i]);
      assert forall j :: 0 <= j < |ps| ==> ([i] + ps[j])[1..] == ps[j];
      Under(i, ps) + PreOrderFrom(n, i + 1)
  }

  /** `find` lists every node: a path is in the pre-order list iff it is valid. */
  lemma PreOrderComplete(n: Node, p: Path)
    requires ValidPath(n, p)
    ensures p in PreOrder(n)
    decreases n, 1
  {
    if p != [] {
      PreOrderFromComplete(n, 0, p);
    }
  }

  lemma PreOrderFromComplete(n: Node, i: nat, p: Path)
    requires ValidPath(n, p) && p != [] && i <= p[0]
    ensures p in PreOrderFrom(n, i)
    decreases n, 0, |n.children| - i
  {
    if p[0] == i {
      PreOrderComplete(n.children[i], p[1..]);
      var ps := PreOrder(n.children[i]);
      var j :| 0 <= j < |ps| && ps[j] == p[1..];
      assert Under(i, ps)[j] == p;
    } else {
      PreOrderFromComplete(n, i + 1, p);
    }
  }

  lemma AncestorsFirstConcat(a: seq<Path>, b: seq<Path>)
    requires AncestorsFirst(a) && AncestorsFirst(b)
    requires forall x, y :: x in a && y in b ==> !IsPrefix(y, x)
    ensures AncestorsFirst(a + b)
  {
    var c := a + b;
    forall i, j | 0 <= i < j < |c| ensures !IsPrefix(c[j], c[i]) {
      if j < |a| {
        assert c[i] == a[i] && c[j] == a[j];
      } else if i >= |a| {
        assert c[i] == b[i - |a|] && c[j] == b[j - |a|];
      } else {
        assert c[i] in a && c[j] in b;
      }
    }
  }

  lemma PrefixCons(i: nat, x: Path, y: Path)
    ensures IsPrefix([i] + x, [i] + y) <==> IsPrefix(x, y)
    ensures StrictPrefix([i] + x, [i] + y) <==> StrictPrefix(x, y)
  {
    assert ([i] + x)[1..] == x;
    if |x| <= |y| {
      assert ([i] + y)[..|[i] + x|] == [i] + y[..|x|];
      assert ([i] + y[..|x|])[1..] == y[..|x|];
    }
  }

  lemma AncestorsFirstUnder(i: nat, ps: seq<Path>)
    requires AncestorsFirst(ps)
    ensures AncestorsFirst(Under(i, ps))
  {
    var u := Under(i, ps);
    forall a, b | 0 <= a < b < |u| ensures !IsPrefix(u[b], u[a]) {
      PrefixCons(i, ps[b], ps[a]);
    }
  }

  /** The pre-order list puts every node before its descendants and repeats no path. */
  lemma {:induction false} PreOrderAncestorsFirst(n: Node)
    ensures AncestorsFirst(PreOrder(n))
    decreases n, 1
  {
    PreOrderFromAncestorsFirst(n, 0);
    AncestorsFirstConcat([[]], PreOrderFrom(n, 0));
  }

  lemma {:induction false} PreOrderFromAncestorsFirst(n: Node, i: nat)
    ensures AncestorsFirst(PreOrderFrom(n, i))
    decreases n, 0, |n.children| - i
  {
    if i < |n.children| {
      var ps := PreOrder(n.children[i]);
      PreOrderAncestorsFirst(n.children[i]);
      AncestorsFirstUnder(i, ps);
      PreOrderFromAncestorsFirst(n, i + 1);
      forall x, y | x in Under(i, ps) && y in PreOrderFrom(n, i + 1) ensures !IsPrefix(y, x) {
        var j :| 0 <= j < |ps| && x == [i] + ps[j];
        assert x[0] == i && y[0] > i;
      }
      AncestorsFirstConcat(Under(i, ps), PreOrderFrom(n, i + 1));
    }
  }

  /** Whether the node at `p` is selected; `here` says whether the node at the
      start of `p` is. */
  predicate Selected(n: Node, p: Path, here: bool, sel: Selector)
    requires ValidPath(n, p)
    decreases |p|
  {
    if p == [] then here
    else Selected(n.children[p[0]], p[1..], sel(n.kind, p[0], n.children[p[0]]), sel)
  }

  /** The selected paths of a list, in the list's order. */
  function SelectPaths(n: Node, ps: seq<Path>, here: bool, sel: Selector): (r: seq<Path>)
    requires forall p <- ps :: ValidPath(n, p)
    ensures forall p <- r :: p in ps && Selected(n, p, here, sel)
    ensures forall p <- ps :: Selected(n, p, here, sel) ==> p in r
    decreases |ps|
  {
    if ps == [] then []
    else (if Selected(n, ps[0], here, sel) then [ps[0]] else []) + SelectPaths(n, ps[1..], here, sel)
  }

  lemma AncestorsFirstTail(ps: seq<Path>)
    requires AncestorsFirst(ps) && ps != []
    ensures AncestorsFirst(ps[1..])
  {
    var t := ps[1..];
    forall i, j | 0 <= i < j < |t| ensures !IsPrefix(t[j], t[i]) {
      assert t[i] == ps[i + 1] && t[j] == ps[j + 1];
    }
  }

  lemma {:induction false} SelectPathsAncestorsFirst(n: Node, ps: seq<Path>, here: bool, sel: Selector)
    requires forall p <- ps :: ValidPath(n, p)
    requires AncestorsFirst(ps)
    ensures AncestorsFirst(SelectPaths(n, ps, here, sel))
    decreases |ps|
  {
    if ps != [] {
      var rest := SelectPaths(n, ps[1..], here, sel);
      AncestorsFirstTail(ps);
      SelectPathsAncestorsFirst(n, ps[1..], here, sel);
      var head := if Selected(n, ps[0], here, sel) then [ps[0]] else [];
      forall x, y | x in head && y in rest ensures !IsPrefix(y, x) {
        assert y in ps[1..];
        var j :| 0 <= j < |ps[1..]| && ps[1..][j] == y;
        assert ps[j + 1] == y;
      }
      AncestorsFirstConcat(head, rest);
    }
  }

  /** `find` by node type: the pre-order paths whose node satisfies `k`. */
  function KindSel(k: Kind -> bool): Selector {
    (pk: Kind, i: nat, c: Node) => k(c.kind)
  }

  /** The test "the node has a type satisfying `k`". */
  function KindIs(k: Kind -> bool): Node -> bool {
    (m: Node) => k(m.kind)
  }

  function FindPaths(n: Node, k: Kind -> bool): seq<Path> {
    SelectPaths(n, PreOrder(n), k(n.kind), KindSel(k))
  }

  lemma {:induction false} SelectedKind(n: Node, p: Path, k: Kind -> bool)
    requires ValidPath(n, p)
    ensures Selected(n, p, k(n.kind), KindSel(k)) == k(At(n, p).kind)
    decreases |p|
  {
    if p != [] {
      SelectedKind(n.children[p[0]], p[1..], k);
    }
  }

  /** For a non-root path, selection is the selector applied to the parent
      (`path.parent.value`), the index under it, and the node. */
  lemma {:induction false} SelectedParent(n: Node, p: Path, here: bool, sel: Selector)
    requires ValidPath(n, p) && p != []
    ensures ValidPath(n, p[..|p| - 1])
    ensures p[|p| - 1] < |At(n, p[..|p| - 1]).children|
    ensures At(n, p[..|p| - 1]).children[p[|p| - 1]] == At(n, p)
    ensures Selected(n, p, here, sel) == sel(At(n, p[..|p| - 1]).kind, p[|p| - 1], At(n, p))
    decreases |p|
  {
    if |p| > 1 {
      var c := n.children[p[0]];
      SelectedParent(c, p[1..], sel(n.kind, p[0], c), sel);
      assert p[1..][..|p[1..]| - 1] == p[..|p| - 1][1..];
    }
  }

  /** The selected paths as a set. */
  ghost function SelSet(n: Node, here: bool, sel: Selector): set<Path> {
    set p | p in PreOrder(n) && Selected(n, p, here, sel)
  }

  function Sub(S: set<Path>, i: nat): set<Path> {
    set p | p in S && |p| > 0 && p[0] == i :: p[1..]
  }

  /** All children rewritten, or None if one failed. */
  function AllSome(rs: seq<Option<Node>>): (r: Option<seq<Node>>)
    ensures r.None? <==> exists i :: 0 <= i < |rs| && rs[i].None?
    ensures r.Some? ==> |r.value| == |rs| && forall i :: 0 <= i < |rs| ==> rs[i] == Some(r.value[i])
    decreases |rs|
  {
    if rs == [] then Some([])
    else if rs[0].None? then None
    else
      var t := AllSome(rs[1..]);
      assert forall i :: 1 <= i < |rs| ==> rs[i] == rs[1..][i - 1];
      if t.None? then None else Some([rs[0].value] + t.value)
  }

  /** Changing one child's result changes the combined result at that child only. */
  lemma AllSomeUpdate(rs: seq<Option<Node>>, k: nat, x: Option<Node>)
    requires AllSome(rs).Some? && k < |rs|
    ensures AllSome(rs[k := x]) == if x.None? then None else Some(AllSome(rs).value[k := x.value])
  {
    var cs := AllSome(rs).value;
    if x.Some? {
      var cs' := cs[k := x.value];
      var r := AllSome(rs[k := x]);
      assert forall i :: 0 <= i < |rs| ==> rs[k := x][i] == Some(cs'[i]);
      assert r.Some?;
      assert r.value == cs';
    } else {
      assert rs[k := x][k].None?;
    }
  }

  /** The tree after `f` has replaced every node at a path of `S`, below
      before above, each seeing its already rewritten children; None if one
      of them was `bad` (the loop's assertion failed). */
  function ApplyOpt(n: Node, S: set<Path>, f: Node -> Node, bad: Node -> bool): Option<Node>
    decreases n, 1
  {
    match AllSome(ApplyChildren(n, S, f, bad))
    case None => None
    case Some(cs) =>
      var m := n.(children := cs);
      if [] !in S then Some(m) else if bad(m) then None else Some(f(m))
  }

  function ApplyChildren(n: Node, S: set<Path>, f: Node -> Node, bad: Node -> bool): seq<Option<Node>>
    decreases n, 0
  {
    seq(|n.children|, i requires 0 <= i < |n.children| => ApplyOpt(n.children[i], Sub(S, i), f, bad))
  }

  /** Each child is rewritten with the paths below it. */
  lemma ApplyChildrenSpec(n: Node, S: set<Path>, f: Node -> Node, bad: Node -> bool)
    ensures |ApplyChildren(n, S, f, bad)| == |n.children|
    ensures forall i :: 0 <= i < |n.children| ==>
      ApplyChildren(n, S, f, bad)[i] == ApplyOpt(n.children[i], Sub(S, i), f, bad)
  {
  }

  /** The same rewrite, with the selection made node by node. */
  function BottomUp(n: Node, here: bool, sel: Selector, f: Node -> Node, bad: Node -> bool): Option<Node>
    decreases n
  {
    var rs := seq(|n.children|, i requires 0 <= i < |n.children| =>
      BottomUp(n.children[i], sel(n.kind, i, n.children[i]), sel, f, bad));
    match AllSome(rs)
    case None => None
    case Some(cs) =>
      var m := n.(children := cs);
      if !here then Some(m) else if bad(m) then None else Some(f(m))
  }

  lemma SubSelSet(n: Node, here: bool, sel: Selector, i: nat)
    requires i < |n.children|
    ensures Sub(SelSet(n, here, sel), i) == SelSet(n.children[i], sel(n.kind, i, n.children[i]), sel)
  {
    var c := n.children[i];
    var h := sel(n.kind, i, c);
    forall q | q in Sub(SelSet(n, here, sel), i) ensures q in SelSet(c, h, sel) {
      var p :| p in SelSet(n, here, sel) && |p| > 0 && p[0] == i && q == p[1..];
      PreOrderComplete(c, q);
    }
    forall q | q in SelSet(c, h, sel) ensures q in Sub(SelSet(n, here, sel), i) {
      var p := [i] + q;
      assert p[1..] == q;
      assert ValidPath(n, p);
      PreOrderComplete(n, p);
      assert p in SelSet(n, here, sel);
    }
  }

  /** Replacing the selected paths below-first is the node-by-node bottom-up rewrite. */
  lemma {:induction false} ApplySelSet(n: Node, here: bool, sel: Selector, f: Node -> Node, bad: Node -> bool)
    ensures ApplyOpt(n, SelSet(n, here, sel), f, bad) == BottomUp(n, here, sel, f, bad)
    decreases n
  {
    var S := SelSet(n, here, sel);
    var rs := ApplyChildren(n, S, f, bad);
    ApplyChildrenSpec(n, S, f, bad);
    var ts := seq(|n.children|, i requires 0 <= i < |n.children| =>
      BottomUp(n.children[i], sel(n.kind, i, n.children[i]), sel, f, bad));
    forall i | 0 <= i < |n.children| ensures rs[i] == ts[i] {
      SubSelSet(n, here, sel, i);
      ApplySelSet(n.children[i], sel(n.kind, i, n.children[i]), sel, f, bad);
    }
    assert rs == ts;
    assert [] in S <==> here by {
      assert [] in PreOrder(n);
    }
  }

  /** How adding `p` to a set with no path above `p` changes the sets of the children. */
  lemma SubInsert(S: set<Path>, p: Path)
    requires p != [] && p !in S
    requires forall q <- S :: !StrictPrefix(q, p)
    ensures [] !in S
    ensures Sub(S + {p}, p[0]) == Sub(S, p[0]) + {p[1..]}
    ensures p[1..] !in Sub(S, p[0])
    ensures forall q <- Sub(S, p[0]) :: !StrictPrefix(q, p[1..])
    ensures forall i: nat :: i != p[0] ==> Sub(S + {p}, i) == Sub(S, i)
  {
    var k := p[0];
    assert StrictPrefix([], p);
    assert p == [k] + p[1..];
    forall q0 | q0 in S && |q0| > 0 && q0[0] == k
      ensures q0[1..] != p[1..] && !StrictPrefix(q0[1..], p[1..])
    {
      assert q0 == [k] + q0[1..];
      PrefixCons(k, q0[1..], p[1..]);
    }
    assert Sub(S + {p}, k) == Sub(S, k) + {p[1..]};
  }

  lemma SubSame(S: set<Path>)
    requires [] !in S
    ensures forall i: nat :: Sub(S + {[]}, i) == Sub(S, i)
  {
  }

  /** One step of a replacement loop: replacing at `p`, when no path already
      replaced lies above `p`, yields the rewrite of the set with `p` added. */
  lemma {:induction false} ApplyInsert(n: Node, S: set<Path>, p: Path, f: Node -> Node, bad: Node -> bool)
    requires ValidPath(n, p) && p !in S
    requires forall q <- S :: !StrictPrefix(q, p)
    requires ApplyOpt(n, S, f, bad).Some?
    ensures ValidPath(ApplyOpt(n, S, f, bad).value, p)
    ensures var m := ApplyOpt(n, S, f, bad).value;
      ApplyOpt(n, S + {p}, f, bad) == if bad(At(m, p)) then None else Some(ReplaceAt(m, p, f(At(m, p))))
    decreases n
  {
    var rs := ApplyChildren(n, S, f, bad);
    var rs' := ApplyChildren(n, S + {p}, f, bad);
    ApplyChildrenSpec(n, S, f, bad);
    ApplyChildrenSpec(n, S + {p}, f, bad);
    var cs := AllSome(rs).value;
    if p == [] {
      SubSame(S);
      assert rs' == rs;
    } else {
      SubInsert(S, p);
      var k := p[0];
      assert rs[k] == Some(cs[k]);
      ApplyInsert(n.children[k], Sub(S, k), p[1..], f, bad);
      assert rs' == rs[k := rs'[k]];
      AllSomeUpdate(rs, k, rs'[k]);
    }
  }

  /** A failure stays a failure when one more path, not below any path of the
      set, is added. */
  lemma {:induction false} ApplyInsertFailed(n: Node, S: set<Path>, p: Path, f: Node -> Node, bad: Node -> bool)
    requires ValidPath(n, p) && p !in S
    requires forall q <- S :: !StrictPrefix(q, p)
    requires ApplyOpt(n, S, f, bad).None?
    ensures ApplyOpt(n, S + {p}, f, bad).None?
    decreases n
  {
    var rs := ApplyChildren(n, S, f, bad);
    var rs' := ApplyChildren(n, S + {p}, f, bad);
    ApplyChildrenSpec(n, S, f, bad);
    ApplyChildrenSpec(n, S + {p}, f, bad);
    if p == [] {
      SubSame(S);
      assert rs' == rs;
    } else {
      SubInsert(S, p);
      var k := p[0];
      var j :| 0 <= j < |rs| && rs[j].None?;
      if j == k {
        ApplyInsertFailed(n.children[k], Sub(S, k), p[1..], f, bad);
        assert rs'[k].None?;
      } else {
        assert rs'[j].None?;
      }
    }
  }

  /** The loop's set after `k` steps of a list of paths. */
  ghost function Done(ps: seq<Path>, k: nat): set<Path>
    requires k <= |ps|
  {
    set i | 0 <= i < k :: ps[i]
  }

  /** `reverse` of codemod-jsbi.ts: a reversed copy. */
  function Reverse<T>(s: seq<T>): (r: seq<T>)
    ensures |r| == |s|
    ensures forall k :: 0 <= k < |s| ==> r[k] == s[|s| - 1 - k]
  {
    if s == [] then [] else Reverse(s[1..]) + [s[0]]
  }

  /** Reversing a pre-order list puts every path before its ancestors. */
  lemma ReverseDescendantsFirst(ps: seq<Path>)
    requires AncestorsFirst(ps)
    ensures forall i, j :: 0 <= i < j < |ps| ==> !IsPrefix(Reverse(ps)[i], Reverse(ps)[j])
  {
    var r := Reverse(ps);
    forall i, j | 0 <= i < j < |ps| ensures !IsPrefix(r[i], r[j]) {
      assert r[i] == ps[|ps| - 1 - i] && r[j] == ps[|ps| - 1 - j];
    }
  }

  lemma {:induction false} SelectPathsAppend(n: Node, a: seq<Path>, b: seq<Path>, here: bool, sel: Selector)
    requires forall p <- a :: ValidPath(n, p)
    requires forall p <- b :: ValidPath(n, p)
    ensures SelectPaths(n, a + b, here, sel) == SelectPaths(n, a, here, sel) + SelectPaths(n, b, here, sel)
    decreases |a|
  {
    if a == [] {
      assert a + b == b;
    } else {
      assert (a + b)[1..] == a[1..] + b;
      SelectPathsAppend(n, a[1..], b, here, sel);
    }
  }

  /** A filtering loop's step: the selected paths of one more element. */
  lemma SelectPathsSnoc(n: Node, ps: seq<Path>, i: nat, here: bool, sel: Selector)
    requires i < |ps| && forall p <- ps :: ValidPath(n, p)
    ensures SelectPaths(n, ps[..i + 1], here, sel) ==
      SelectPaths(n, ps[..i], here, sel) + if Selected(n, ps[i], here, sel) then [ps[i]] else []
  {
    assert ps[..i + 1] == ps[..i] + [ps[i]];
    SelectPathsAppend(n, ps[..i], [ps[i]], here, sel);
  }

  /** The paths `find` lists by type are those of nodes of that type. */
  lemma FindPathsKind(n: Node, k: Kind -> bool)
    ensures forall p <- FindPaths(n, k) :: ValidPath(n, p) && k(At(n, p).kind)
    ensures forall p :: ValidPath(n, p) && k(At(n, p).kind) ==> p in FindPaths(n, k)
    ensures AncestorsFirst(FindPaths(n, k))
  {
    forall p | p in FindPaths(n, k) ensures k(At(n, p).kind) {
      SelectedKind(n, p, k);
    }
    forall p | ValidPath(n, p) && k(At(n, p).kind) ensures p in FindPaths(n, k) {
      PreOrderComplete(n, p);
      SelectedKind(n, p, k);
    }
    PreOrderAncestorsFirst(n);
    SelectPathsAncestorsFirst(n, PreOrder(n), k(n.kind), KindSel(k));
  }

  /** Rewriting no path changes nothing. */
  lemma {:induction false} ApplyEmpty(n: Node, f: Node -> Node, bad: Node -> bool)
    ensures ApplyOpt(n, {}, f, bad) == Some(n)
    decreases n
  {
    var rs := ApplyChildren(n, {}, f, bad);
    ApplyChildrenSpec(n, {}, f, bad);
    forall i | 0 <= i < |n.children| ensures rs[i] == Some(n.children[i]) {
      assert Sub({}, i) == {};
      ApplyEmpty(n.children[i], f, bad);
    }
    assert AllSome(rs).value == n.children;
  }

  /** The paths that later steps of a reverse loop replace lie neither at nor
      above the ones before. */
  lemma ReverseStep(ps: seq<Path>, i: nat)
    requires AncestorsFirst(ps) && i < |ps|
    ensures Reverse(ps)[i] !in Done(Reverse(ps), i)
    ensures forall q <- Done(Reverse(ps), i) :: !StrictPrefix(q, Reverse(ps)[i])
    ensures Done(Reverse(ps), i + 1) == Done(Reverse(ps), i) + {Reverse(ps)[i]}
  {
    var rev := Reverse(ps);
    ReverseDescendantsFirst(ps);
    forall q | q in Done(rev, i) ensures q != rev[i] && !StrictPrefix(q, rev[i]) {
      var k :| 0 <= k < i && rev[k] == q;
      assert !IsPrefix(rev[k], rev[i]);
    }
    DoneNext(rev, i);
  }

  lemma DoneNext(ps: seq<Path>, k: nat)
    requires k < |ps|
    ensures Done(ps, k + 1) == Done(ps, k) + {ps[k]}
  {
  }

  lemma FailedStep(root: Node, ps: seq<Path>, i: nat, f: Node -> Node, bad: Node -> bool)
    requires AncestorsFirst(ps) && i < |ps| && forall p <- ps :: ValidPath(root, p)
    requires ApplyOpt(root, Done(Reverse(ps), i), f, bad).None?
    ensures ApplyOpt(root, Done(Reverse(ps), i + 1), f, bad).None?
  {
    var rev := Reverse(ps);
    var p := rev[i];
    assert p == ps[|ps| - 1 - i];
    ReverseStep(ps, i);
    ApplyInsertFailed(root, Done(rev, i), p, f, bad);
  }

  lemma {:induction false} FailedRest(root: Node, ps: seq<Path>, i: nat, f: Node -> Node, bad: Node -> bool)
    requires AncestorsFirst(ps) && i <= |ps| && forall p <- ps :: ValidPath(root, p)
    requires ApplyOpt(root, Done(Reverse(ps), i), f, bad).None?
    ensures ApplyOpt(root, Done(Reverse(ps), |ps|), f, bad).None?
    decreases |ps| - i
  {
    if i < |ps| {
      FailedStep(root, ps, i, f, bad);
      FailedRest(root, ps, i + 1, f, bad);
    }
  }

  /** `for (const p of reverse(paths)) p.replace(f(p.value))`, where the body's
      assertion fails on a `bad` node: over a pre-order list this is the
      bottom-up rewrite of the listed paths. */
  method ReplaceInReverse(root: Node, ps: seq<Path>, f: Node -> Node, bad: Node -> bool) returns (r: Option<Node>)
    requires forall p <- ps :: ValidPath(root, p)
    requires AncestorsFirst(ps)
    ensures r == ApplyOpt(root, (set p | p in ps), f, bad)
  {
    var rev := Reverse(ps);
    var tree := root;
    ApplyEmpty(root, f, bad);
    assert Done(rev, 0) == {};
    for i := 0 to |rev|
      invariant ApplyOpt(root, Done(rev, i), f, bad) == Some(tree)
    {
      var p := rev[i];
      assert p == ps[|ps| - 1 - i];
      ReverseStep(ps, i);
      ApplyInsert(root, Done(rev, i), p, f, bad);
      var node := At(tree, p);
      if bad(node) {
        FailedRest(root, ps, i + 1, f, bad);
        DoneAll(ps);
        return None;
      }
      tree := ReplaceAt(tree, p, f(node));
    }
    DoneAll(ps);
    return Some(tree);
  }

  lemma DoneAll(ps: seq<Path>)
    ensures Done(Reverse(ps), |ps|) == set p | p in ps
  {
    var rev := Reverse(ps);
    forall p | p in ps ensures p in Done(rev, |ps|) {
      var k :| 0 <= k < |ps| && ps[k] == p;
      assert rev[|ps| - 1 - k] == p;
    }
  }

  /** A bottom-up rewrite whose test never fails succeeds. */
  lemma {:induction false} BottomUpNoBad(n: Node, here: bool, sel: Selector, f: Node -> Node, bad: Node -> bool)
    requires forall m :: !bad(m)
    ensures BottomUp(n, here, sel, f, bad).Some?
    decreases n
  {
    var rs := seq(|n.children|, i requires 0 <= i < |n.children| =>
      BottomUp(n.children[i], sel(n.kind, i, n.children[i]), sel, f, bad));
    forall i | 0 <= i < |n.children| ensures rs[i].Some? {
      BottomUpNoBad(n.children[i], sel(n.kind, i, n.children[i]), sel, f, bad);
    }
  }

  /** A bottom-up rewrite that selects nothing leaves the tree as it is. */
  lemma {:induction false} BottomUpNothing(n: Node, sel: Selector, f: Node -> Node, bad: Node -> bool)
    requires forall pk, i, c :: !sel(pk, i, c)
    ensures BottomUp(n, false, sel, f, bad) == Some(n)
    decreases n
  {
    var rs := seq(|n.children|, i requires 0 <= i < |n.children| =>
      BottomUp(n.children[i], sel(n.kind, i, n.children[i]), sel, f, bad));
    forall i | 0 <= i < |n.children| ensures rs[i] == Some(n.children[i]) {
      BottomUpNothing(n.children[i], sel, f, bad);
    }
    assert AllSome(rs).value == n.children;
  }

  /** The node a bottom-up rewrite builds before its own test: the node with
      each child rewritten under that child's selection. */
  lemma BottomUpChildren(n: Node, here: bool, sel: Selector, f: Node -> Node, bad: Node -> bool)
    requires BottomUp(n, here, sel, f, bad).Some?
    ensures var rs := seq(|n.children|, i requires 0 <= i < |n.children| =>
        BottomUp(n.children[i], sel(n.kind, i, n.children[i]), sel, f, bad));
      AllSome(rs).Some? &&
      var m := n.(children := AllSome(rs).value);
      |m.children| == |n.children| &&
      (forall i :: 0 <= i < |n.children| ==>
        BottomUp(n.children[i], sel(n.kind, i, n.children[i]), sel, f, bad) == Some(m.children[i])) &&
      BottomUp(n, here, sel, f, bad) == Some(if here then f(m) else m)
  {
  }

  /** The test of a replacement loop whose body cannot fail. */
  predicate NeverBad(m: Node) {
    false
  }

  /** No path of the list lies at or below another one. */
  predicate Antichain(ps: seq<Path>) {
    forall i, j :: 0 <= i < |ps| && 0 <= j < |ps| && i != j ==> !IsPrefix(ps[i], ps[j])
  }

  /** A subtree of a well-formed tree is well formed. */
  lemma {:induction false} WellFormedAt(n: Node, p: Path)
    requires WellFormed(n) && ValidPath(n, p)
    ensures WellFormed(At(n, p))
    decreases |p|
  {
    if p != [] {
      WellFormedAt(n.children[p[0]], p[1..]);
    }
  }

  /** The node at a strict prefix of a valid path has a child. */
  lemma {:induction false} PrefixHasChildren(n: Node, q: Path, p: Path)
    requires ValidPath(n, p) && StrictPrefix(q, p)
    ensures ValidPath(n, q) && |At(n, q).children| > 0
    decreases |q|
  {
    if q != [] {
      assert p[0] == q[0];
      PrefixHasChildren(n.children[p[0]], q[1..], p[1..]);
      assert p[1..][..|q[1..]|] == q[1..];
    }
  }

  /** A pre-order list of leaves is an antichain. */
  lemma LeavesAntichain(n: Node, ps: seq<Path>)
    requires forall p <- ps :: ValidPath(n, p) && At(n, p).children == []
    requires AncestorsFirst(ps)
    ensures Antichain(ps)
  {
    forall i, j | 0 <= i < |ps| && 0 <= j < |ps| && i != j ensures !IsPrefix(ps[i], ps[j]) {
      if i < j {
        assert !IsPrefix(ps[j], ps[i]);
      } else {
        assert !IsPrefix(ps[i], ps[j]);
      }
      if IsPrefix(ps[i], ps[j]) && ps[i] != ps[j] {
        PrefixHasChildren(n, ps[i], ps[j]);
      }
    }
  }

  /** The paths a forward loop has still to replace lie neither at nor above
      the ones before, when no path lies below another. */
  lemma ForwardStep(ps: seq<Path>, i: nat)
    requires Antichain(ps) && i < |ps|
    ensures ps[i] !in Done(ps, i)
    ensures forall q <- Done(ps, i) :: !StrictPrefix(q, ps[i])
    ensures Done(ps, i + 1) == Done(ps, i) + {ps[i]}
  {
    forall q | q in Done(ps, i) ensures q != ps[i] && !StrictPrefix(q, ps[i]) {
      var k :| 0 <= k < i && ps[k] == q;
      assert !IsPrefix(ps[k], ps[i]);
    }
  }

  /** `for (const p of paths) { p.replace(f(p.value)); found = true; }` over
      a list of paths none of which lies below another: every listed node
      replaced, and `found` set iff the list is not empty. */
  method ReplaceForward(root: Node, ps: seq<Path>, f: Node -> Node) returns (tree: Node, found: bool)
    requires forall p <- ps :: ValidPath(root, p)
    requires Antichain(ps)
    ensures ApplyOpt(root, (set p | p in ps), f, NeverBad) == Some(tree)
    ensures found <==> ps != []
  {
    tree, found := root, false;
    ApplyEmpty(root, f, NeverBad);
    assert Done(ps, 0) == {};
    for i := 0 to |ps|
      invariant ApplyOpt(root, Done(ps, i), f, NeverBad) == Some(tree)
      invariant found <==> i > 0
    {
      var p := ps[i];
      ForwardStep(ps, i);
      ApplyInsert(root, Done(ps, i), p, f, NeverBad);
      tree := ReplaceAt(tree, p, f(At(tree, p)));
      found := true;
    }
    assert Done(ps, |ps|) == set p | p in ps;
  }

  /** The paths `find` lists are the selected ones. */
  lemma FindPathsSet(n: Node, k: Kind -> bool)
    ensures (set p | p in FindPaths(n, k)) == SelSet(n, k(n.kind), KindSel(k))
  {
  }

  /** `for (const p of reverse($j.find(T).paths())) { ... p.replace(f(p.value)) }` */
  method FindReplaceReverse(root: Node, k: Kind -> bool, f: Node -> Node, bad: Node -> bool) returns (r: Option<Node>)
    ensures r == BottomUp(root, k(root.kind), KindSel(k), f, bad)
  {
    var ps := FindPaths(root, k);
    FindPathsKind(root, k);
    r := ReplaceInReverse(root, ps, f, bad);
    FindPathsSet(root, k);
    ApplySelSet(root, k(root.kind), KindSel(k), f, bad);
  }

  /** `for (const p of $j.find(T).paths()) { p.replace(f(p.value)); found = true; }`
      when the nodes of type T have no children: `found` says whether there
      was one. */
  method FindReplaceLeaves(root: Node, k: Kind -> bool, f: Node -> Node) returns (tree: Node, found: bool)
    requires forall p :: ValidPath(root, p) && k(At(root, p).kind) ==> At(root, p).children == []
    ensures BottomUp(root, k(root.kind), KindSel(k), f, NeverBad) == Some(tree)
    ensures found <==> Anywhere(root, KindIs(k))
  {
    var ps := FindPaths(root, k);
    FindPathsKind(root, k);
    LeavesAntichain(root, ps);
    tree, found := ReplaceForward(root, ps, f);
    FindPathsSet(root, k);
    ApplySelSet(root, k(root.kind), KindSel(k), f, NeverBad);
    AnywherePath(root, KindIs(k));
    if found {
      assert ValidPath(root, ps[0]) && k(At(root, ps[0]).kind);
    }
  }

  /** A node satisfying `P` is somewhere in the tree iff it is at some path. */
  lemma AnywherePath(n: Node, P: Node -> bool)
    ensures Anywhere(n, P) <==> exists p :: ValidPath(n, p) && P(At(n, p))
  {
    if Anywhere(n, P) {
      var p := AnywhereFound(n, P);
    }
    if exists p :: ValidPath(n, p) && P(At(n, p)) {
      var p :| ValidPath(n, p) && P(At(n, p));
      FoundAnywhere(n, P, p);
    }
  }

  lemma {:induction false} AnywhereFound(n: Node, P: Node -> bool) returns (p: Path)
    requires Anywhere(n, P)
    ensures ValidPath(n, p) && P(At(n, p))
    decreases n
  {
    if P(n) {
      p := [];
    } else {
      var i :| 0 <= i < |n.children| && Anywhere(n.children[i], P);
      var q := AnywhereFound(n.children[i], P);
      p := [i] + q;
      assert p[1..] == q;
    }
  }

  lemma {:induction false} FoundAnywhere(n: Node, P: Node -> bool, p: Path)
    requires ValidPath(n, p) && P(At(n, p))
    ensures Anywhere(n, P)
    decreases |p|
  {
    if p != [] {
      FoundAnywhere(n.children[p[0]], P, p[1..]);
    }
  }

  // How a replacement at one path looks from another path.

  /** A path extended: the node at `p + r` is the node at `r` below `p`. */
  lemma {:induction false} AtAppend(t: Node, p: Path, r: Path)
    requires ValidPath(t, p)
    ensures ValidPath(t, p + r) <==> ValidPath(At(t, p), r)
    ensures ValidPath(t, p + r) ==> At(t, p + r) == At(At(t, p), r)
    decreases |p|
  {
    if p == [] {
      assert p + r == r;
    } else {
      assert (p + r)[0] == p[0] && (p + r)[1..] == p[1..] + r;
      AtAppend(t.children[p[0]], p[1..], r);
    }
  }

  /** Below the replaced path the tree is the replacement. */
  lemma {:induction false} ReplaceInside(t: Node, p: Path, y: Node, r: Path)
    requires ValidPath(t, p)
    ensures ValidPath(ReplaceAt(t, p, y), p + r) <==> ValidPath(y, r)
    ensures ValidPath(y, r) ==> At(ReplaceAt(t, p, y), p + r) == At(y, r)
    decreases |p|
  {
    if p == [] {
      assert p + r == r;
    } else {
      assert (p + r)[0] == p[0] && (p + r)[1..] == p[1..] + r;
      ReplaceInside(t.children[p[0]], p[1..], y, r);
    }
  }

  /** Above the replaced path the node is its own subtree with the
      replacement made inside it. */
  lemma {:induction false} ReplaceAbove(t: Node, p: Path, y: Node, q: Path)
    requires ValidPath(t, p) && IsPrefix(q, p)
    ensures ValidPath(t, q) && ValidPath(ReplaceAt(t, p, y), q)
    ensures ValidPath(At(t, q), p[|q|..])
    ensures At(ReplaceAt(t, p, y), q) == ReplaceAt(At(t, q), p[|q|..], y)
    decreases |q|
  {
    if q != [] {
      assert q[0] == p[0];
      assert p[1..][|q[1..]|..] == p[|q|..];
      ReplaceAbove(t.children[p[0]], p[1..], y, q[1..]);
    }
  }

  /** Beside the replaced path nothing changes. */
  lemma {:induction false} ReplaceBeside(t: Node, p: Path, y: Node, q: Path)
    requires ValidPath(t, p) && !IsPrefix(p, q) && !IsPrefix(q, p)
    ensures ValidPath(ReplaceAt(t, p, y), q) <==> ValidPath(t, q)
    ensures ValidPath(t, q) ==> At(ReplaceAt(t, p, y), q) == At(t, q)
    decreases |p|
  {
    var t' := ReplaceAt(t, p, y);
    assert p != [] && q != [];
    if p[0] == q[0] {
      PrefixTail(p, q);
      PrefixTail(q, p);
      ReplaceBeside(t.children[p[0]], p[1..], y, q[1..]);
    } else {
      assert |t'.children| == |t.children|;
      if q[0] < |t.children| {
        assert t'.children[q[0]] == t.children[q[0]];
      }
    }
  }

  /** Two paths with the same first step: one is a prefix of the other iff
      it is after that step. */
  lemma PrefixTail(a: Path, b: Path)
    requires a != [] && b != [] && a[0] == b[0]
    ensures IsPrefix(a[1..], b[1..]) == IsPrefix(a, b)
  {
    if |a| <= |b| {
      assert b[..|a|] == [b[0]] + b[1..][..|a| - 1];
      assert a == [a[0]] + a[1..];
    }
  }

  /** Replacing a node by a well-formed one keeps the tree well formed. */
  lemma {:induction false} ReplaceWellFormed(t: Node, p: Path, y: Node)
    requires WellFormed(t) && ValidPath(t, p) && WellFormed(y)
    ensures WellFormed(ReplaceAt(t, p, y))
    decreases |p|
  {
    if p != [] {
      ReplaceWellFormed(t.children[p[0]], p[1..], y);
      var t' := ReplaceAt(t, p, y);
      forall i | 0 <= i < |t'.children| ensures WellFormed(t'.children[i]) {
        if i != p[0] {
          assert t'.children[i] == t.children[i];
        }
      }
    }
  }
}
