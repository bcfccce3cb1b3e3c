/** The segment list every model is written out as, routing a key to its segment, and the
    splits of a key run that models stand for (cpp/segmented_model.h). */
module Segments {
  import opened Geometry
  import opened FitLines

  datatype Segment = Segment(startKey: int, slope: real, intercept: real)

  function LineOf(s: Segment): Line {
    Line(s.slope, s.intercept)
  }

  ghost predicate SortedStarts(segments: seq<Segment>) {
    forall i, j :: 0 <= i < j < |segments| ==> segments[i].startKey < segments[j].startKey
  }

  /** r is the last segment starting at or below key, or 0 when key is below them all. */
  ghost predicate Owns(segments: seq<Segment>, r: nat, key: int) {
    && r < |segments|
    && (segments[r].startKey <= key || r == 0)
    && (forall i :: r < i < |segments| ==> key < segments[i].startKey)
  }

  /** Routing by halving with a moving base instead of a branch. */
  method FindSegmentIndex(segments: seq<Segment>, key: int) returns (r: nat)
    requires SortedStarts(segments)
    ensures segments == [] ==> r == 0
    ensures segments != [] ==> Owns(segments, r, key)
  {
    var base: nat := 0;
    var n: nat := |segments|;
    while n > 1
      invariant base + n <= |segments|
      invariant segments != [] ==> n >= 1
      invariant segments == [] ==> n == 0 && base == 0
      invariant base == 0 || segments[base].startKey <= key
      invariant forall i :: base + n <= i < |segments| ==> key < segments[i].startKey
    {
      var half := n / 2;
      base := if segments[base + half].startKey <= key then base + half else base;
      n := n - half;
    }
    r := base;
  }

  /** The points a model is fit on: keys against position labels. */
  ghost function Points(keys: seq<int>, positions: seq<int>): seq<Point>
    requires |keys| == |positions|
  {
    seq(|keys|, i requires 0 <= i < |keys| => Point(keys[i], positions[i]))
  }

  /** A split of n points into consecutive nonempty runs, given by where each run starts. */
  ghost predicate IsSplit(starts: seq<nat>, n: nat) {
    && (n == 0 <==> starts == [])
    && (n > 0 ==> starts[0] == 0)
    && (forall k :: 0 <= k < |starts| ==> starts[k] < n)
    && (forall j, k :: 0 <= j < k < |starts| ==> starts[j] < starts[k])
  }

  function RunEnd(starts: seq<nat>, k: nat, n: nat): nat
    requires k < |starts|
  {
    if k + 1 < |starts| then starts[k + 1] else n
  }

  ghost function Run(pts: seq<Point>, starts: seq<nat>, k: nat): seq<Point>
    requires IsSplit(starts, |pts|) && k < |starts|
  {
    pts[starts[k]..RunEnd(starts, k, |pts|)]
  }

  /** A split every run of which some line fits within eps. */
  ghost predicate IsBoundedSplit(pts: seq<Point>, eps: int, starts: seq<nat>) {
    IsSplit(starts, |pts|) && forall k :: 0 <= k < |starts| ==> RunFits(pts, eps, starts, k)
  }

  ghost predicate RunFits(pts: seq<Point>, eps: int, starts: seq<nat>, k: nat)
    requires IsSplit(starts, |pts|) && k < |starts|
  {
    Fittable(Run(pts, starts, k), eps)
  }

  /** Segment k is run k's: it starts at the run's first key and its line fits the run. */
  ghost predicate SegmentServes(s: Segment, run: seq<Point>, eps: int) {
    run != [] && s.startKey == run[0].x && FitsAll(LineOf(s), run, eps)
  }

  ghost predicate ModelServes(segments: seq<Segment>, pts: seq<Point>, eps: int, starts: seq<nat>) {
    && IsSplit(starts, |pts|) && |segments| == |starts|
    && forall k :: 0 <= k < |starts| ==> SegmentServes(segments[k], Run(pts, starts, k), eps)
  }

  lemma ServedSplitIsBounded(segments: seq<Segment>, pts: seq<Point>, eps: int, starts: seq<nat>)
    requires ModelServes(segments, pts, eps, starts)
    ensures IsBoundedSplit(pts, eps, starts)
  {
    forall k | 0 <= k < |starts| ensures RunFits(pts, eps, starts, k) {
      assert SegmentServes(segments[k], Run(pts, starts, k), eps);
    }
  }

  lemma ServedStartsAreSorted(segments: seq<Segment>, pts: seq<Point>, eps: int, starts: seq<nat>)
    requires Rightward(pts) && ModelServes(segments, pts, eps, starts)
    ensures SortedStarts(segments)
  {
    forall i, j | 0 <= i < j < |segments| ensures segments[i].startKey < segments[j].startKey {
      assert SegmentServes(segments[i], Run(pts, starts, i), eps);
      assert SegmentServes(segments[j], Run(pts, starts, j), eps);
    }
  }

  /** In a served model, the segment a trained key routes to is the one fit on it. */
  lemma RouteFindsRun(segments: seq<Segment>, pts: seq<Point>, eps: int, starts: seq<nat>, i: nat, r: nat)
    requires Rightward(pts) && ModelServes(segments, pts, eps, starts) && i < |pts|
    requires Owns(segments, r, pts[i].x)
    ensures starts[r] <= i < RunEnd(starts, r, |pts|)
    ensures Fits(LineOf(segments[r]), pts[i], eps)
  {
    assert SegmentServes(segments[r], Run(pts, starts, r), eps);
    KeyOrder(pts, starts[r], i);
    if r + 1 < |starts| {
      assert SegmentServes(segments[r + 1], Run(pts, starts, r + 1), eps);
      KeyOrder(pts, starts[r + 1], i);
    }
    var run := Run(pts, starts, r);
    assert run[i - starts[r]] == pts[i];
  }

  lemma KeyOrder(pts: seq<Point>, i: nat, j: nat)
    requires Rightward(pts) && i < |pts| && j < |pts|
    ensures pts[i].x <= pts[j].x <==> i <= j
  {
  }

  /** Rounding half away from zero, as llround does. */
  function Round(x: real): int {
    if x >= 0.0 then (x + 0.5).Floor else -((-x + 0.5).Floor)
  }

  /** Rounding never leaves an integer interval. */
  lemma RoundStaysWithin(x: real, lo: int, hi: int)
    requires lo as real <= x <= hi as real
    ensures lo <= Round(x) <= hi
  {
  }
}
