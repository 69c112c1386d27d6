/**
  misc/codemod-label-bigint.ts: wraps every expression the detector reported
  in a call of the marker `__BIGINT__`, innermost first, and puts the
  marker's declaration on a line of its own before the printed program.
*/
module LabelBigint {
  import opened Wrappers
  import opened Ast
  import opened Paths
  import DetectBigint

  /** `detections.find(d => d.range[0] === start && d.range[1] === end)` */
  function FindDetection(dets: seq<DetectBigint.Detection>, start: nat, end: nat): (r: Option<DetectBigint.Detection>)
    ensures r.Some? ==> r.value in dets && r.value.range == (start, end)
    ensures r.None? <==> forall d <- dets :: d.range != (start, end)
    ensures r.Some? ==>
              exists k :: 0 <= k < |dets| && dets[k] == r.value &&
                forall j :: 0 <= j < k ==> dets[j].range != (start, end)
    decreases |dets|
  {
    if dets == [] then None
    else if dets[0].range == (start, end) then Some(dets[0])
    else
      var r := FindDetection(dets[1..], start, end);
      assert forall d <- dets[1..] :: d in dets;
      assert r.Some? ==> forall k :: 0 <= k < |dets[1..]| ==> dets[1..][k] == dets[k + 1];
      r
  }

  /** `isBigInt` of `main`: a node matches iff some detection has exactly its
      span; a node without a location fails the assertion (None). */
  function IsBigInt(dets: seq<DetectBigint.Detection>, node: Node): (r: Option<bool>)
    ensures r.None? <==> node.loc.NoLoc?
    ensures r == Some(true) <==>
      node.loc.Span? && exists d <- dets :: d.range == (node.loc.start, node.loc.end)
  {
    match node.loc
    case NoLoc => None
    case Span(start, end) => Some(FindDetection(dets, start, end).Some?)
  }

  /** The four positions that are never wrapped: a member's property, a
      declarator's id, a class property's key, an assignment's left side. */
  predicate Excluded(parent: Kind, i: nat) {
    (parent.MemberExpression? && i == 1) ||
    (parent == VariableDeclarator && i == 0) ||
    (parent == ClassProperty && i == 0) ||
    (parent.AssignmentExpression? && i == 0)
  }

  /** Which node the collecting loop keeps, from its parent's type, its index
      under the parent and the node. */
  function LabelSel(isBigInt: Node -> Option<bool>): Selector {
    (pk: Kind, i: nat, c: Node) => IsExpression(c.kind) && !Excluded(pk, i) && isBigInt(c) == Some(true)
  }

  /** `isBigInt` is asked about the node at `p`: an expression not in one of
      the four positions. */
  predicate Tested(root: Node, p: Path)
    requires ValidPath(root, p)
  {
    p != [] && IsExpression(At(root, p).kind) &&
    (SelectedParent(root, p, false, KindSel(IsExpression));
     !Excluded(At(root, p[..|p| - 1]).kind, p[|p| - 1]))
  }

  /** Some node of `ps` that is tested makes `isBigInt` throw. */
  predicate UnlocatedIn(root: Node, ps: seq<Path>, isBigInt: Node -> Option<bool>)
    requires forall p <- ps :: ValidPath(root, p)
  {
    exists p <- ps :: Tested(root, p) && isBigInt(At(root, p)).None?
  }

  /** Some tested node makes `isBigInt` throw. */
  predicate Unlocated(root: Node, isBigInt: Node -> Option<bool>) {
    UnlocatedIn(root, FindPaths(root, IsExpression), isBigInt)
  }

  lemma UnlocatedSnoc(root: Node, ps: seq<Path>, i: nat, isBigInt: Node -> Option<bool>)
    requires i < |ps| && forall p <- ps :: ValidPath(root, p)
    ensures UnlocatedIn(root, ps[..i + 1], isBigInt) <==>
      UnlocatedIn(root, ps[..i], isBigInt) || (Tested(root, ps[i]) && isBigInt(At(root, ps[i])).None?)
  {
    assert ps[..i + 1] == ps[..i] + [ps[i]];
  }

  /** The labelled tree: every selected node wrapped, its children first. */
  function Label(n: Node, here: bool, isBigInt: Node -> Option<bool>): Option<Node> {
    BottomUp(n, here, LabelSel(isBigInt), Mark, NeverBad)
  }

  /** `DECLARE` */
  const Declare := "declare function " + MarkerName + "(value: bigint): bigint;"

  /** What `transform` returns: None if `isBigInt` throws, otherwise the
      declaration, a newline and the printed labelled program. */
  function Labeled(prog: Program, isBigInt: Node -> Option<bool>, toSource: Program -> string): Option<string> {
    var root := ProgramRoot(prog);
    if Unlocated(root, isBigInt) then None
    else
      BottomUpNoBad(root, false, LabelSel(isBigInt), Mark, NeverBad);
      Some(Declare + "\n" + toSource(Program(Label(root, false, isBigInt).value.children)))
  }

  /** One path of the collecting loop: it is not the root, and it is kept iff
      it is outside the four positions and `isBigInt` says true. */
  lemma CollectStep(root: Node, isBigInt: Node -> Option<bool>, p: Path)
    requires !IsExpression(root.kind) && p in FindPaths(root, IsExpression)
    ensures ValidPath(root, p) && p != []
    ensures ValidPath(root, p[..|p| - 1])
    ensures Tested(root, p) == !Excluded(At(root, p[..|p| - 1]).kind, p[|p| - 1])
    ensures Selected(root, p, false, LabelSel(isBigInt)) ==
      (!Excluded(At(root, p[..|p| - 1]).kind, p[|p| - 1]) && isBigInt(At(root, p)) == Some(true))
  {
    FindPathsKind(root, IsExpression);
    SelectedParent(root, p, false, LabelSel(isBigInt));
  }

  /** Every selected path is one the first loop looks at. */
  lemma SelSetFound(root: Node, isBigInt: Node -> Option<bool>)
    ensures forall p <- SelSet(root, false, LabelSel(isBigInt)) :: p in FindPaths(root, IsExpression)
  {
    FindPathsKind(root, IsExpression);
    forall p | p in SelSet(root, false, LabelSel(isBigInt)) ensures p in FindPaths(root, IsExpression) {
      if p != [] {
        SelectedParent(root, p, false, LabelSel(isBigInt));
      }
    }
  }

  lemma UnlocatedPrefix(root: Node, ps: seq<Path>, i: nat, isBigInt: Node -> Option<bool>)
    requires i <= |ps| && forall p <- ps :: ValidPath(root, p)
    requires UnlocatedIn(root, ps[..i], isBigInt)
    ensures UnlocatedIn(root, ps, isBigInt)
  {
    var p :| p in ps[..i] && Tested(root, p) && isBigInt(At(root, p)).None?;
  }

  /** The first loop: the expression paths, in `find` order, minus the four
      positions, kept when `isBigInt` says so. */
  method CollectMatches(root: Node, isBigInt: Node -> Option<bool>) returns (r: Option<seq<Path>>)
    requires !IsExpression(root.kind)
    ensures r.None? <==> Unlocated(root, isBigInt)
    ensures r.Some? ==> r.value == SelectPaths(root, FindPaths(root, IsExpression), false, LabelSel(isBigInt))
  {
    var sel := LabelSel(isBigInt);
    var ps := FindPaths(root, IsExpression);
    var matches: seq<Path> := [];
    for i := 0 to |ps|
      invariant matches == SelectPaths(root, ps[..i], false, sel)
      invariant !UnlocatedIn(root, ps[..i], isBigInt)
    {
      var p := ps[i];
      CollectStep(root, isBigInt, p);
      SelectPathsSnoc(root, ps, i, false, sel);
      UnlocatedSnoc(root, ps, i, isBigInt);
      if !Excluded(At(root, p[..|p| - 1]).kind, p[|p| - 1]) {
        var b := isBigInt(At(root, p));
        if b.None? {
          UnlocatedPrefix(root, ps, i + 1, isBigInt);
          return None;
        }
        if b.value {
          matches := matches + [p];
        }
      }
    }
    assert ps[..|ps|] == ps;
    return Some(matches);
  }

  /** The collected paths are the selected set, ancestors before descendants. */
  lemma MatchesShape(root: Node, isBigInt: Node -> Option<bool>)
    ensures var ms := SelectPaths(root, FindPaths(root, IsExpression), false, LabelSel(isBigInt));
      (forall p <- ms :: ValidPath(root, p)) && AncestorsFirst(ms) &&
      (set p | p in ms) == SelSet(root, false, LabelSel(isBigInt))
  {
    var ps := FindPaths(root, IsExpression);
    FindPathsKind(root, IsExpression);
    SelectPathsAncestorsFirst(root, ps, false, LabelSel(isBigInt));
    SelSetFound(root, isBigInt);
  }

  /** The second loop: each collected path, last first, replaced by the
      marker call around the node now there. */
  method ReplaceMatches(root: Node, isBigInt: Node -> Option<bool>, matches: seq<Path>) returns (tree: Node)
    requires matches == SelectPaths(root, FindPaths(root, IsExpression), false, LabelSel(isBigInt))
    ensures Label(root, false, isBigInt) == Some(tree)
  {
    MatchesShape(root, isBigInt);
    var r := ReplaceInReverse(root, matches, Mark, NeverBad);
    ApplySelSet(root, false, LabelSel(isBigInt), Mark, NeverBad);
    BottomUpNoBad(root, false, LabelSel(isBigInt), Mark, NeverBad);
    tree := r.value;
  }

  /** `transform(source, j, isBigInt)`, with the parsed program in place of the
      source and `toSource` for printing. */
  method Transform(prog: Program, isBigInt: Node -> Option<bool>, toSource: Program -> string)
    returns (r: Option<string>)
    ensures r == Labeled(prog, isBigInt, toSource)
  {
    var root := ProgramRoot(prog);
    var matches := CollectMatches(root, isBigInt);
    if matches.None? {
      return None;
    }
    var tree := ReplaceMatches(root, isBigInt, matches.value);
    return Some(Declare + "\n" + toSource(Program(tree.children)));
  }

  /** What labelling does at one child: the child is rewritten (its own
      children first) and then wrapped exactly once if it is a matched
      expression outside the four positions; otherwise it keeps its type and
      location. */
  lemma LabelChild(n: Node, here: bool, isBigInt: Node -> Option<bool>, i: nat)
    requires i < |n.children|
    ensures Label(n, here, isBigInt).Some?
    ensures var r := Label(n, here, isBigInt).value;
      var core := if here then r.children[1] else r;
      var c := n.children[i];
      (here ==> r == Mark(core)) &&
      core.kind == n.kind && core.loc == n.loc && |core.children| == |n.children| &&
      Label(c, LabelSel(isBigInt)(n.kind, i, c), isBigInt) == Some(core.children[i]) &&
      (IsExpression(c.kind) && !Excluded(n.kind, i) && isBigInt(c) == Some(true) ==>
        core.children[i] == Mark(core.children[i].children[1]) &&
        core.children[i].children[1].kind == c.kind && core.children[i].children[1].loc == c.loc) &&
      (!(IsExpression(c.kind) && !Excluded(n.kind, i) && isBigInt(c) == Some(true)) ==>
        core.children[i].kind == c.kind && core.children[i].loc == c.loc)
  {
    var sel := LabelSel(isBigInt);
    var nobad := NeverBad;
    BottomUpNoBad(n, here, sel, Mark, nobad);
    BottomUpChildren(n, here, sel, Mark, nobad);
    var c := n.children[i];
    BottomUpNoBad(c, sel(n.kind, i, c), sel, Mark, nobad);
    BottomUpChildren(c, sel(n.kind, i, c), sel, Mark, nobad);
  }

  /** An excluded position is never wrapped, whatever the detections say: the
      child there is only labelled inside. */
  lemma ExcludedNeverWrapped(n: Node, here: bool, isBigInt: Node -> Option<bool>, i: nat)
    requires i < |n.children| && Excluded(n.kind, i)
    ensures Label(n, here, isBigInt).Some? && Label(n.children[i], false, isBigInt).Some?
    ensures var r := Label(n, here, isBigInt).value;
      var core := if here then r.children[1] else r;
      core.children[i] == Label(n.children[i], false, isBigInt).value
  {
    var sel := LabelSel(isBigInt);
    BottomUpNoBad(n, here, sel, Mark, NeverBad);
    BottomUpNoBad(n.children[i], false, sel, Mark, NeverBad);
    BottomUpChildren(n, here, sel, Mark, NeverBad);
    assert !sel(n.kind, i, n.children[i]);
  }

  /** With every tested node located and none detected, the tree part of the
      output is the unmodified tree. */
  lemma NoMatchUnchanged(prog: Program, isBigInt: Node -> Option<bool>, toSource: Program -> string)
    requires !Unlocated(ProgramRoot(prog), isBigInt)
    requires forall c :: isBigInt(c) != Some(true)
    ensures Labeled(prog, isBigInt, toSource) == Some(Declare + "\n" + toSource(prog))
  {
    BottomUpNothing(ProgramRoot(prog), LabelSel(isBigInt), Mark, NeverBad);
  }

  /** With no detections, every located node is reported as not detected, so
      the output is the declaration and the program as parsed. */
  lemma NoDetectionsUnchanged(prog: Program, toSource: Program -> string)
    requires !Unlocated(ProgramRoot(prog), (c: Node) => IsBigInt([], c))
    ensures Labeled(prog, (c: Node) => IsBigInt([], c), toSource) == Some(Declare + "\n" + toSource(prog))
  {
    NoMatchUnchanged(prog, (c: Node) => IsBigInt([], c), toSource);
  }
}
