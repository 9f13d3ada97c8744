/** The snake's body and the two ways it changes: a move, which shifts every
    segment one place towards the tail behind a new head, and growth, which
    duplicates the tail. The body is ordered head first. */
module Snake {
  import opened Geometry

  /** One move in direction `d`: a new head one step ahead of the old one is
      put in front and the last segment is dropped. */
  function Move(s: seq<Cell>, d: Direction): (r: seq<Cell>)
    requires |s| >= 1
    ensures |r| == |s|
    ensures r[0] == Step(s[0], d)
    ensures forall i :: 0 <= i < |s| - 1 ==> r[i + 1] == s[i]
  {
    [Step(s[0], d)] + s[..|s| - 1]
  }

  /** Growth after eating: a copy of the current tail is appended at once. */
  function Grow(s: seq<Cell>): (r: seq<Cell>)
    requires |s| >= 1
    ensures |r| == |s| + 1
    ensures forall i :: 0 <= i < |s| ==> r[i] == s[i]
    ensures r[|s|] == s[|s| - 1]
  {
    s + [s[|s| - 1]]
  }

  /** Growing and then moving keeps the whole old body behind the new head:
      the duplicated tail plays the part of a "growth pending" flag. */
  lemma MoveAfterGrow(s: seq<Cell>, d: Direction)
    requires |s| >= 1
    ensures Move(Grow(s), d) == [Step(s[0], d)] + s
  {
    assert Grow(s)[..|s|] == s;
  }

  /** A move keeps every segment on the grid when the body was on it. */
  lemma MoveAligned(s: seq<Cell>, d: Direction)
    requires |s| >= 1
    requires forall i :: 0 <= i < |s| ==> Aligned(s[i])
    ensures forall i :: 0 <= i < |s| ==> Aligned(Move(s, d)[i])
  {
    StepAligned(s[0], d);
  }
}
