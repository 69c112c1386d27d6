/**
  The two codemods run one after the other: the labeler's output is the
  rewriter's input. The labeler's declaration line is exactly what the
  rewriter drops, and the rewriter's last pass undoes the labelling.
*/
module Pipeline {
  import opened Wrappers
  import opened Ast
  import opened Paths
  import LabelBigint
  import CodemodJsbi

  /** The declaration line the labeler writes has no newline in it. */
  lemma DeclareOneLine()
    ensures '\n' !in LabelBigint.Declare
  {
    assert '\n' !in "declare function ";
    assert '\n' !in MarkerName;
    assert '\n' !in "(value: bigint): bigint;";
  }

  /** Dropping the first line of the labeler's output leaves the printed
      labelled program. */
  lemma StripDeclare(text: string)
    ensures CodemodJsbi.StripHeader(LabelBigint.Declare + "\n" + text) == text
  {
    DeclareOneLine();
    CodemodJsbi.StripHeaderLine(LabelBigint.Declare, text);
  }

  /** Erasing the markers undoes the labelling, in a tree that had no
      `__BIGINT__` call of its own. */
  lemma {:induction false} LabelErase(n: Node, here: bool, isBigInt: Node -> Option<bool>)
    requires !Anywhere(n, CodemodJsbi.IsBigInt)
    ensures LabelBigint.Label(n, here, isBigInt).Some?
    ensures CodemodJsbi.EraseMarkers(LabelBigint.Label(n, here, isBigInt).value) == Some(n)
    decreases n
  {
    var sel := LabelBigint.LabelSel(isBigInt);
    BottomUpNoBad(n, here, sel, Mark, NeverBad);
    BottomUpChildren(n, here, sel, Mark, NeverBad);
    var rs := seq(|n.children|, i requires 0 <= i < |n.children| =>
      BottomUp(n.children[i], sel(n.kind, i, n.children[i]), sel, Mark, NeverBad));
    var m := n.(children := AllSome(rs).value);
    forall i | 0 <= i < |n.children| ensures CodemodJsbi.EraseMarkers(m.children[i]) == Some(n.children[i]) {
      LabelErase(n.children[i], sel(n.kind, i, n.children[i]), isBigInt);
    }
    CodemodJsbi.EraseNode(m, n.children);
    assert m.(children := n.children) == n;
    if here {
      CodemodJsbi.EraseMark(m, n);
    }
  }

  /** Labelling, printing, dropping the declaration, parsing again and
      erasing the markers gives back the program up to locations, when
      printing and parsing keep everything but the locations and the program
      had no `__BIGINT__` call of its own. */
  lemma LabelRoundTrip(prog: Program, isBigInt: Node -> Option<bool>, parse: string -> Program, toSource: Program -> string)
    requires forall p :: StripLocs(ProgramRoot(parse(toSource(p)))) == StripLocs(ProgramRoot(p))
    requires !LabelBigint.Unlocated(ProgramRoot(prog), isBigInt)
    requires !Anywhere(ProgramRoot(prog), CodemodJsbi.IsBigInt)
    ensures LabelBigint.Labeled(prog, isBigInt, toSource).Some?
    ensures var back := ProgramRoot(parse(CodemodJsbi.StripHeader(LabelBigint.Labeled(prog, isBigInt, toSource).value)));
      CodemodJsbi.EraseMarkers(back).Some? &&
      StripLocs(CodemodJsbi.EraseMarkers(back).value) == StripLocs(ProgramRoot(prog))
  {
    var root := ProgramRoot(prog);
    LabelErase(root, false, isBigInt);
    var labelled := LabelBigint.Label(root, false, isBigInt).value;
    BottomUpChildren(root, false, LabelBigint.LabelSel(isBigInt), Mark, NeverBad);
    assert labelled.kind == root.kind && labelled.loc == NoLoc;
    var text := toSource(Program(labelled.children));
    StripDeclare(text);
    var back := ProgramRoot(parse(text));
    assert ProgramRoot(Program(labelled.children)) == labelled;
    assert StripLocs(back) == StripLocs(labelled);
    CodemodJsbi.EraseIgnoresLocs(back, IsCall(back.kind));
    CodemodJsbi.EraseIgnoresLocs(labelled, IsCall(labelled.kind));
  }
}
