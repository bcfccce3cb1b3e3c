/** The optimal segmentation (cpp/segmented_model.h): close a segment only when the next
    point cannot fit. No split of the keys into runs that a line fits within eps is shorter. */
module OptimalModel {
  import opened Geometry
  import opened FitLines
  import opened Segments
  import opened OptimalSegmenter
  import opened PinnedModel

  /** Every run but the last is cut short only because its next point does not fit. */
  ghost predicate IsGreedy(pts: seq<Point>, eps: int, starts: seq<nat>) {
    IsSplit(starts, |pts|) && forall k :: 0 <= k < |starts| - 1 ==> CutForced(pts, eps, starts, k)
  }

  ghost predicate CutForced(pts: seq<Point>, eps: int, starts: seq<nat>, k: nat)
    requires IsSplit(starts, |pts|) && k + 1 < |starts|
  {
    !Fittable(pts[starts[k]..starts[k + 1] + 1], eps)
  }

  /** A line that fits a run fits every part of it. */
  lemma PartFits(pts: seq<Point>, eps: int, from: nat, to: nat, a: nat, b: nat)
    requires from <= a <= b <= to <= |pts| && Fittable(pts[from..to], eps)
    ensures Fittable(pts[a..b], eps)
  {
    var l :| FitsAll(l, pts[from..to], eps);
    forall i | 0 <= i < b - a ensures Fits(l, pts[a..b][i], eps) {
      assert pts[a..b][i] == pts[from..to][a - from + i];
    }
    assert FitsAll(l, pts[a..b], eps);
  }

  /** Greedy stays ahead: its k-th run starts no earlier than any other bounded split's. */
  lemma {:induction false} GreedyStaysAhead(pts: seq<Point>, eps: int, greedy: seq<nat>, other: seq<nat>, k: nat)
    requires IsGreedy(pts, eps, greedy) && IsBoundedSplit(pts, eps, other)
    requires k < |greedy| && k < |other|
    ensures other[k] <= greedy[k]
  {
    if k > 0 {
      GreedyStaysAhead(pts, eps, greedy, other, k - 1);
      assert RunFits(pts, eps, other, k - 1) && CutForced(pts, eps, greedy, k - 1);
      if greedy[k] < other[k] {
        PartFits(pts, eps, other[k - 1], other[k], greedy[k - 1], greedy[k] + 1);
      }
    }
  }

  /** So no bounded split has fewer runs. */
  lemma GreedyIsFewest(pts: seq<Point>, eps: int, greedy: seq<nat>, other: seq<nat>)
    requires IsGreedy(pts, eps, greedy) && IsBoundedSplit(pts, eps, other)
    ensures |greedy| <= |other|
  {
    if 0 < |other| < |greedy| {
      var k := |other| - 1;
      GreedyStaysAhead(pts, eps, greedy, other, k);
      assert RunFits(pts, eps, other, k) && CutForced(pts, eps, greedy, k);
      PartFits(pts, eps, other[k], |pts|, greedy[k], greedy[k + 1] + 1);
    }
  }

  /** The builder's loop state: finished runs up to `start`, the open run since. */
  ghost predicate Building(segments: seq<Segment>, pts: seq<Point>, eps: int, starts: seq<nat>, start: nat, i: nat)
  {
    && start <= i <= |pts| && (i > 0 ==> start < i) && (i == 0 ==> start == 0)
    && |segments| == |starts| && IsSplit(starts, start)
    && (forall k :: 0 <= k < |starts| ==> Finished(segments, pts, eps, starts, start, k))
  }

  ghost predicate Finished(segments: seq<Segment>, pts: seq<Point>, eps: int, starts: seq<nat>, start: nat, k: nat)
    requires start <= |pts| && |segments| == |starts| && IsSplit(starts, start) && k < |starts|
  {
    var to := RunEnd(starts, k, start);
    && SegmentServes(segments[k], pts[starts[k]..to], eps)
    && (to < |pts| ==> !Fittable(pts[starts[k]..to + 1], eps))
  }

  lemma CloseRun(segments: seq<Segment>, s: Segment, pts: seq<Point>, eps: int, starts: seq<nat>, start: nat, i: nat)
    requires Building(segments, pts, eps, starts, start, i) && start < i
    requires SegmentServes(s, pts[start..i], eps)
    requires i < |pts| ==> !Fittable(pts[start..i + 1], eps)
    ensures |segments + [s]| == |starts + [start]| && IsSplit(starts + [start], i)
    ensures forall k :: 0 <= k < |starts + [start]| ==> Finished(segments + [s], pts, eps, starts + [start], i, k)
  {
    hide SegmentServes, Fittable;
    var segments', starts' := segments + [s], starts + [start];
    forall k | 0 <= k < |starts'| ensures Finished(segments', pts, eps, starts', i, k) {
      if k < |starts| {
        assert Finished(segments, pts, eps, starts, start, k);
        assert RunEnd(starts', k, i) == RunEnd(starts, k, start);
      }
    }
  }

  lemma FinishedIsGreedy(segments: seq<Segment>, pts: seq<Point>, eps: int, starts: seq<nat>)
    requires |segments| == |starts| && IsSplit(starts, |pts|)
    requires forall k :: 0 <= k < |starts| ==> Finished(segments, pts, eps, starts, |pts|, k)
    ensures ModelServes(segments, pts, eps, starts) && IsGreedy(pts, eps, starts)
  {
    hide SegmentServes, Fittable;
    forall k | 0 <= k < |starts| ensures SegmentServes(segments[k], Run(pts, starts, k), eps) {
      assert Finished(segments, pts, eps, starts, |pts|, k);
    }
    forall k | 0 <= k < |starts| - 1 ensures CutForced(pts, eps, starts, k) {
      assert Finished(segments, pts, eps, starts, |pts|, k);
    }
  }

  /** Builds the fewest segments that keep every point within eps (eps >= 1); with eps < 1 the
      geometry degenerates and the pinned builder runs instead. */
  method BuildOptimalSegmentedModel(keys: seq<int>, positions: seq<int>, eps: int)
    returns (segments: seq<Segment>, ghost starts: seq<nat>)
    requires |keys| == |positions| && Rightward(Points(keys, positions))
    ensures eps < 1 ==> IsPinnedModel(segments, Points(keys, positions), eps, SIZE_MAX, starts)
    ensures eps >= 1 ==> ModelServes(segments, Points(keys, positions), eps, starts)
    ensures eps >= 1 ==> forall other :: IsBoundedSplit(Points(keys, positions), eps, other) ==> |segments| <= |other|
  {
    if eps < 1 {
      segments, starts := BuildSegmentedModel(keys, positions, eps, SIZE_MAX);
      return;
    }
    segments, starts := BuildGreedy(keys, positions, eps);
    ghost var pts := Points(keys, positions);
    forall other | IsBoundedSplit(pts, eps, other) ensures |segments| <= |other| {
      GreedyIsFewest(pts, eps, starts, other);
    }
  }

  method BuildGreedy(keys: seq<int>, positions: seq<int>, eps: int)
    returns (segments: seq<Segment>, ghost starts: seq<nat>)
    requires |keys| == |positions| && Rightward(Points(keys, positions)) && eps >= 1
    ensures ModelServes(segments, Points(keys, positions), eps, starts)
    ensures IsGreedy(Points(keys, positions), eps, starts)
  {
    segments, starts := [], [];
    ghost var pts := Points(keys, positions);
    if keys == [] {
      FinishedIsGreedy(segments, pts, eps, starts);
      return;
    }
    assert Building(segments, pts, eps, starts, 0, 0) && pts[0..0] == [];
    hide Building, IsSplit, Rightward, Segmenter.Valid;
    var segmenter := new Segmenter(eps);
    var start: nat := 0;
    for i := 0 to |keys|
      invariant fresh(segmenter) && segmenter.Valid() && segmenter.eps == eps
      invariant Building(segments, pts, eps, starts, start, i)
      invariant start <= i && segmenter.pts == pts[start..i]
      invariant i > 0 ==> start < i
    {
      segments, starts, start := Take(segmenter, keys, positions, i, start, segments, starts);
    }
    var s := segmenter.LineFrom(keys[start]);
    ServesRun(s, pts, start, |keys|, eps);
    CloseRun(segments, s, pts, eps, starts, start, |keys|);
    FinishedIsGreedy(segments + [s], pts, eps, starts + [start]);
    segments, starts := segments + [s], starts + [start];
  }

  /** One key of the builder's loop. */
  method Take(segmenter: Segmenter, keys: seq<int>, positions: seq<int>, i: nat, start: nat,
              segments: seq<Segment>, ghost starts: seq<nat>)
    returns (segments': seq<Segment>, ghost starts': seq<nat>, start': nat)
    requires |keys| == |positions| && Rightward(Points(keys, positions)) && i < |keys|
    requires segmenter.Valid() && Building(segments, Points(keys, positions), segmenter.eps, starts, start, i)
    requires segmenter.pts == Points(keys, positions)[start..i]
    modifies segmenter
    ensures segmenter.Valid() && start' <= i && segmenter.pts == Points(keys, positions)[start'..i + 1]
    ensures Building(segments', Points(keys, positions), segmenter.eps, starts', start', i + 1)
  {
    ghost var pts, eps := Points(keys, positions), segmenter.eps;
    if i > 0 { KeyOrder(pts, i, i - 1); }
    OnePoint(pts[i], eps);
    assert pts[start..i + 1] == pts[start..i] + [pts[i]] && [pts[i]] == [] + [pts[i]] == pts[i..i + 1];
    assert eps >= 1;
    hide Fittable, SegmentServes, Finished, FitsAll, IsSplit, Rightward, Segmenter.Valid;
    segments', starts', start' := segments, starts, start;
    var ok := segmenter.Add(keys[i], positions[i]);
    if !ok {
      var s := Restart(segmenter, keys[start], keys[i], positions[i]);
      ServesRun(s, pts, start, i, eps);
      CloseRun(segments, s, pts, eps, starts, start, i);
      segments', starts', start' := segments + [s], starts + [start], i;
    }
  }

  /** Closes the segmenter's run and opens the next one at (x, y). */
  method Restart(segmenter: Segmenter, startKey: int, x: int, y: int) returns (s: Segment)
    requires segmenter.Valid() && |segmenter.pts| >= 1
    modifies segmenter
    ensures segmenter.Valid() && segmenter.pts == [Point(x, y)]
    ensures s.startKey == startKey && FitsAll(LineOf(s), old(segmenter.pts), segmenter.eps)
  {
    s := segmenter.LineFrom(startKey);
    segmenter.Reset();
    OnePoint(Point(x, y), segmenter.eps);
    assert [] + [Point(x, y)] == [Point(x, y)];
    var ok := segmenter.Add(x, y);
  }

  lemma ServesRun(s: Segment, pts: seq<Point>, start: nat, i: nat, eps: int)
    requires start < i <= |pts| && s.startKey == pts[start].x && FitsAll(LineOf(s), pts[start..i], eps)
    ensures SegmentServes(s, pts[start..i], eps)
  {
  }

  /** The pinned builder is one of the splits beaten: it never uses fewer segments, whatever its cap. */
  method CompareBuilders(keys: seq<int>, positions: seq<int>, eps: int, maxKeys: nat)
    returns (optimal: seq<Segment>, pinned: seq<Segment>)
    requires |keys| == |positions| && Rightward(Points(keys, positions)) && eps >= 1
    ensures |optimal| <= |pinned|
  {
    ghost var s1, s2;
    optimal, s1 := BuildOptimalSegmentedModel(keys, positions, eps);
    pinned, s2 := BuildSegmentedModel(keys, positions, eps, maxKeys);
    PinnedServes(pinned, Points(keys, positions), eps, maxKeys, s2);
    ServedSplitIsBounded(pinned, Points(keys, positions), eps, s2);
  }
}
