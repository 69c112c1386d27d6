/**
  `createPositionConverter` of misc/detect-bigint.ts: a table of the offsets
  at which the lines of a text start, and the conversion of an offset to a
  0-based line and column.
*/
module Positions {
  import opened Wrappers

  /** `text.split("\n")`: the pieces between newlines, at least one. */
  function Split(s: string): (r: seq<string>)
    ensures |r| >= 1
    decreases |s|
  {
    if s == [] then [""]
    else
      var init := Split(s[..|s| - 1]);
      if s[|s| - 1] == '\n' then init + [""]
      else init[..|init| - 1] + [init[|init| - 1] + [s[|s| - 1]]]
  }

  /** The pieces joined with newlines between them. */
  function Join(ls: seq<string>): string
    requires |ls| >= 1
    decreases |ls|
  {
    if |ls| == 1 then ls[0] else Join(ls[..|ls| - 1]) + "\n" + ls[|ls| - 1]
  }

  /** Splitting a text with one more character at its end. */
  lemma SplitSnoc(t: string, c: char)
    ensures c == '\n' ==> Split(t + [c]) == Split(t) + [""]
    ensures c != '\n' ==> var r := Split(t);
      Split(t + [c]) == r[..|r| - 1] + [r[|r| - 1] + [c]]
  {
    assert (t + [c])[..|t|] == t;
  }

  /** Splitting loses nothing: joining the lines gives the text back. */
  lemma {:induction false} SplitJoin(s: string)
    ensures Join(Split(s)) == s
    decreases |s|
  {
    if s != [] {
      var t := s[..|s| - 1];
      var c := s[|s| - 1];
      assert s == t + [c];
      SplitSnoc(t, c);
      var r := Split(t);
      SplitJoin(t);
      if c == '\n' {
        var r' := r + [""];
        assert r'[..|r'| - 1] == r;
      } else {
        var r' := r[..|r| - 1] + [r[|r| - 1] + [c]];
        if |r| > 1 {
          assert r'[..|r'| - 1] == r[..|r| - 1];
        }
      }
    }
  }

  /** No line holds a newline. */
  lemma {:induction false} SplitLines(s: string)
    ensures forall k :: 0 <= k < |Split(s)| ==> '\n' !in Split(s)[k]
    decreases |s|
  {
    if s != [] {
      var t := s[..|s| - 1];
      var c := s[|s| - 1];
      assert s == t + [c];
      SplitSnoc(t, c);
      var r := Split(t);
      SplitLines(t);
      if c != '\n' {
        var r' := r[..|r| - 1] + [r[|r| - 1] + [c]];
        forall k | 0 <= k < |r'| ensures '\n' !in r'[k] {
          if k < |r| - 1 {
            assert r'[k] == r[k];
          }
        }
      }
    }
  }

  /** The table `acc`: 0, then one entry per line, each the previous one plus
      the line's length and its newline. */
  function LineStarts(ls: seq<string>): (acc: seq<int>)
    ensures |acc| == |ls| + 1
    decreases |ls|
  {
    if ls == [] then [0]
    else
      var a := LineStarts(ls[..|ls| - 1]);
      a + [a[|a| - 1] + |ls[|ls| - 1]| + 1]
  }

  /** Each entry of the table is the one before it plus the length of the line
      in between and one for its newline. */
  lemma {:induction false} LineStartsStep(ls: seq<string>)
    ensures LineStarts(ls)[0] == 0
    ensures forall k :: 0 <= k < |ls| ==> LineStarts(ls)[k + 1] == LineStarts(ls)[k] + |ls[k]| + 1
    decreases |ls|
  {
    if ls != [] {
      var init := ls[..|ls| - 1];
      LineStartsStep(init);
      forall k | 0 <= k < |ls| - 1 ensures ls[k] == init[k] { }
    }
  }

  /** The table starts at 0 and is strictly increasing. */
  lemma LineStartsIncreasing(ls: seq<string>)
    ensures LineStarts(ls)[0] == 0
    ensures forall i, j :: 0 <= i < j < |ls| + 1 ==> LineStarts(ls)[i] < LineStarts(ls)[j]
  {
    var acc := LineStarts(ls);
    LineStartsStep(ls);
    forall i, j | 0 <= i < j < |ls| + 1 ensures acc[i] < acc[j] {
      var k := i;
      while k < j
        invariant i <= k <= j && acc[i] <= acc[k] && (k > i ==> acc[i] < acc[k])
      {
        k := k + 1;
      }
    }
  }

  /** The table's last entry is one past the end of the joined text. */
  lemma {:induction false} LineStartsLast(ls: seq<string>)
    requires |ls| >= 1
    ensures LineStarts(ls)[|ls|] == |Join(ls)| + 1
    decreases |ls|
  {
    if |ls| > 1 {
      LineStartsLast(ls[..|ls| - 1]);
    }
  }

  /** Entries before the last one depend only on the lines before them. */
  lemma LineStartsPrefix(ls: seq<string>, k: nat)
    requires k <= |ls|
    ensures LineStarts(ls)[..k + 1] == LineStarts(ls[..k])
    decreases |ls|
  {
    if k < |ls| {
      var init := ls[..|ls| - 1];
      LineStartsPrefix(init, k);
      assert init[..k] == ls[..k];
      assert LineStarts(ls)[..k + 1] == LineStarts(init)[..k + 1];
    } else {
      assert ls[..k] == ls;
    }
  }

  /** Line `k` sits in the joined text at its table entry, followed by a
      newline unless it is the last line. */
  lemma {:induction false} LineStartsText(ls: seq<string>, k: nat)
    requires k < |ls|
    ensures var acc := LineStarts(ls);
      0 <= acc[k] && acc[k] + |ls[k]| <= |Join(ls)| &&
      Join(ls)[acc[k]..acc[k] + |ls[k]|] == ls[k] &&
      (k + 1 < |ls| ==> acc[k] + |ls[k]| < |Join(ls)| && Join(ls)[acc[k] + |ls[k]|] == '\n')
    decreases |ls|
  {
    if |ls| > 1 {
      var init := ls[..|ls| - 1];
      var a := LineStarts(init);
      var j := Join(ls);
      assert j == Join(init) + "\n" + ls[|ls| - 1];
      LineStartsLast(init);
      if k == |ls| - 1 {
        assert LineStarts(ls)[k] == |Join(init)| + 1;
        assert j[a[k]..a[k] + |ls[k]|] == ls[k];
      } else {
        LineStartsText(init, k);
        assert LineStarts(ls)[k] == a[k] && init[k] == ls[k];
        assert j[a[k]..a[k] + |ls[k]|] == Join(init)[a[k]..a[k] + |ls[k]|];
        if k + 1 == |init| {
          LineStartsStep(init);
        }
      }
    }
  }

  /** The character at entry plus column: the line's own character, or the
      newline after it. */
  lemma TextAt(ls: seq<string>, l: nat, c: nat)
    requires l < |ls| && c <= |ls[l]|
    requires 0 <= LineStarts(ls)[l] + c < |Join(ls)|
    ensures Join(ls)[LineStarts(ls)[l] + c] == if c < |ls[l]| then ls[l][c] else '\n'
  {
    var acc := LineStarts(ls);
    LineStartsText(ls, l);
    if c < |ls[l]| {
      assert Join(ls)[acc[l] + c] == Join(ls)[acc[l]..acc[l] + |ls[l]|][c];
    } else if l + 1 == |ls| {
      LineStartsLast(ls);
      LineStartsStep(ls);
    }
  }

  /** `offsetToLineColumn`, scanning lines from `line` on: the first line
      whose successor starts after `offset`; None is the "unreachable" throw. */
  function Locate(acc: seq<int>, offset: int, line: nat): Option<(nat, int)>
    decreases |acc| - line
  {
    if line + 1 >= |acc| then None
    else if offset < acc[line + 1] then Some((line, offset - acc[line]))
    else Locate(acc, offset, line + 1)
  }

  /** What the scan finds, for an increasing table: it fails exactly when the
      offset is at or past the last entry; otherwise the line is the first one
      whose successor entry lies beyond the offset, and the column is the
      distance from the line's entry, so entry plus column gives the offset back. */
  lemma {:induction false} LocateSpec(acc: seq<int>, offset: int, line: nat)
    requires forall i, j :: 0 <= i < j < |acc| ==> acc[i] < acc[j]
    requires 2 <= |acc| && line < |acc| && forall l :: 0 < l <= line ==> acc[l] <= offset
    ensures var r := Locate(acc, offset, line);
      (r.Some? <==> offset < acc[|acc| - 1]) &&
      (r.Some? ==>
        var (l, c) := r.value;
        line <= l < |acc| - 1 && offset < acc[l + 1] &&
        (forall l' :: 0 < l' <= l ==> acc[l'] <= offset) &&
        acc[l] + c == offset)
    decreases |acc| - line
  {
    if line + 1 < |acc| {
      if offset >= acc[line + 1] {
        LocateSpec(acc, offset, line + 1);
      }
    }
  }

  /** The scan over the table of a list of lines: it fails exactly past the
      end of the joined text, and for an offset that is not negative the
      column lies within the line, its newline included. */
  lemma LocateLines(ls: seq<string>, offset: int)
    requires |ls| >= 1
    ensures var acc := LineStarts(ls);
      var r := Locate(acc, offset, 0);
      (r.Some? <==> offset < |Join(ls)| + 1) &&
      (r.Some? ==>
        r.value.0 < |ls| && offset < acc[r.value.0 + 1] && acc[r.value.0] + r.value.1 == offset &&
        (forall l :: 0 < l <= r.value.0 ==> acc[l] <= offset) &&
        (0 <= offset ==> 0 <= r.value.1 <= |ls[r.value.0]|))
  {
    var acc := LineStarts(ls);
    LineStartsIncreasing(ls);
    LineStartsLast(ls);
    LineStartsStep(ls);
    LocateSpec(acc, offset, 0);
    var r := Locate(acc, offset, 0);
    if r.Some? {
      var l := r.value.0;
      if 0 < l {
        assert acc[l] <= offset;
      }
      assert acc[l + 1] == acc[l] + |ls[l]| + 1;
    }
  }

  /** The position of an offset inside the text means what it says: the
      character there is the line's character at the column, or the newline
      ending the line. */
  lemma LocateLinesText(ls: seq<string>, offset: int)
    requires |ls| >= 1 && 0 <= offset < |Join(ls)|
    ensures Locate(LineStarts(ls), offset, 0).Some?
    ensures var (l, c) := Locate(LineStarts(ls), offset, 0).value;
      l < |ls| && 0 <= c <= |ls[l]| &&
      Join(ls)[offset] == if c < |ls[l]| then ls[l][c] else '\n'
  {
    LocateLines(ls, offset);
    var (l, c) := Locate(LineStarts(ls), offset, 0).value;
    TextAt(ls, l, c);
  }

  /** The converter `createPositionConverter` returns: the lines of the
      source and the table of their starting offsets. */
  class PositionConverter {
    const source: string
    const lines: seq<string>
    const acc: seq<int>

    ghost predicate Valid() {
      lines == Split(source) && acc == LineStarts(lines)
    }

    constructor (source: string)
      ensures this.source == source && Valid()
    {
      var ls := Split(source);
      var a := [0];
      for i := 0 to |ls|
        invariant a == LineStarts(ls[..i])
      {
        assert ls[..i + 1][..i] == ls[..i];
        a := a + [a[|a| - 1] + |ls[i]| + 1];
      }
      assert ls[..|ls|] == ls;
      this.source := source;
      lines := ls;
      acc := a;
    }

    /** The table starts at 0, increases strictly and ends one past the end of
        the source. */
    lemma TableShape()
      requires Valid()
      ensures |acc| == |lines| + 1 && acc[0] == 0
      ensures forall i, j :: 0 <= i < j < |acc| ==> acc[i] < acc[j]
      ensures acc[|acc| - 1] == |source| + 1
    {
      LineStartsIncreasing(lines);
      LineStartsLast(lines);
      SplitJoin(source);
    }

    /** `offsetToLineColumn(offset)`: the 0-based line and column of an offset,
        or None where the source throws. */
    method OffsetToLineColumn(offset: int) returns (r: Option<(nat, int)>)
      requires Valid()
      ensures r == Locate(acc, offset, 0)
      ensures r.Some? <==> offset < |source| + 1
      ensures r.Some? ==>
        (r.value.0 < |lines| && offset < acc[r.value.0 + 1] &&
         acc[r.value.0] + r.value.1 == offset &&
         forall l :: 0 < l <= r.value.0 ==> acc[l] <= offset)
      ensures r.Some? && 0 <= offset ==> 0 <= r.value.1 <= |lines[r.value.0]|
    {
      var line := 0;
      r := None;
      while line < |acc| - 1
        invariant 0 <= line <= |acc| - 1
        invariant Locate(acc, offset, line) == Locate(acc, offset, 0)
      {
        if offset < acc[line + 1] {
          var column := offset - acc[line];
          r := Some((line, column));
          break;
        }
        line := line + 1;
      }
      assert r == Locate(acc, offset, 0);
      LocateLines(lines, offset);
      SplitJoin(source);
    }

    /** The character at an offset of the source is the character of its line
        at its column, or the newline that ends the line. */
    lemma LocateText(offset: int)
      requires Valid() && 0 <= offset < |source|
      ensures Locate(acc, offset, 0).Some?
      ensures var (l, c) := Locate(acc, offset, 0).value;
        l < |lines| && 0 <= c <= |lines[l]| &&
        source[offset] == if c < |lines[l]| then lines[l][c] else '\n'
    {
      SplitJoin(source);
      LocateLinesText(lines, offset);
    }
  }
}
