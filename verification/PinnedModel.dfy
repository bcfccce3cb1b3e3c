/** The pinned-anchor segmentation (cpp/segmented_model.h): each segment's line passes
    exactly through the segment's first point, which turns every later point into one
    interval for the slope. */
module PinnedModel {
  import opened Geometry
  import opened FitLines
  import opened Segments

  /** A line through the anchor with this slope passes within eps of q. */
  ghost predicate SlopeFits(slope: real, anchor: Point, q: Point, eps: int) {
    var dx, dy := (q.x - anchor.x) as real, (q.y - anchor.y) as real;
    dy - eps as real <= slope * dx <= dy + eps as real
  }

  ghost predicate SlopeFitsAll(slope: real, anchor: Point, qs: seq<Point>, eps: int) {
    forall i :: 0 <= i < |qs| ==> SlopeFits(slope, anchor, qs[i], eps)
  }

  /** Segment k of a pinned model: exact at its anchor, within eps (when eps allows anything)
      elsewhere, no longer than the cap, and closed only because the cap was reached or no
      slope through the anchor reaches the next point. */
  ghost predicate PinnedRun(s: Segment, pts: seq<Point>, from: nat, to: nat, eps: int, maxKeys: nat)
    requires from < to <= |pts|
  {
    && s.startKey == pts[from].x
    && Hits(LineOf(s), pts[from])
    && (forall i :: from < i < to ==> Fits(LineOf(s), pts[i], eps))
    && to - from <= Cap(maxKeys)
    && (to < |pts| ==> to - from >= maxKeys || NoSlopeReaches(pts, from, to, eps))
  }

  /** The cap when none is asked for. */
  const SIZE_MAX := 0xFFFF_FFFF_FFFF_FFFF

  /** A segment always takes its anchor, even under a cap of zero keys. */
  function Cap(maxKeys: nat): nat {
    if maxKeys == 0 then 1 else maxKeys
  }

  ghost predicate NoSlopeReaches(pts: seq<Point>, from: nat, to: nat, eps: int)
    requires from < to < |pts|
  {
    NoSlope(pts[from], pts[from + 1..to + 1], eps)
  }

  ghost predicate NoSlope(anchor: Point, qs: seq<Point>, eps: int) {
    forall slope :: !SlopeFitsAll(slope, anchor, qs, eps)
  }

  /** The pinned runs of the first i points. */
  ghost predicate PinnedPrefix(segments: seq<Segment>, pts: seq<Point>, eps: int, maxKeys: nat, starts: seq<nat>, i: nat)
    requires i <= |pts|
  {
    && |segments| == |starts|
    && IsSplit(starts, i)
    && forall k :: 0 <= k < |starts| ==> PinnedAt(segments, pts, eps, maxKeys, starts, i, k)
  }

  ghost predicate PinnedAt(segments: seq<Segment>, pts: seq<Point>, eps: int, maxKeys: nat, starts: seq<nat>, i: nat, k: nat)
    requires i <= |pts| && |segments| == |starts| && IsSplit(starts, i) && k < |starts|
  {
    PinnedRun(segments[k], pts, starts[k], RunEnd(starts, k, i), eps, maxKeys)
  }

  ghost predicate IsPinnedModel(segments: seq<Segment>, pts: seq<Point>, eps: int, maxKeys: nat, starts: seq<nat>) {
    PinnedPrefix(segments, pts, eps, maxKeys, starts, |pts|)
  }

  /** The running slope interval; an infinite end is Unbounded. */
  datatype Bound = Unbounded | Bounded(value: real)

  function Raise(b: Bound, v: real): real {
    if b.Unbounded? || b.value < v then v else b.value
  }

  function Lower(b: Bound, v: real): real {
    if b.Unbounded? || v < b.value then v else b.value
  }

  ghost predicate WithinBounds(slope: real, lo: Bound, hi: Bound) {
    (lo.Bounded? ==> lo.value <= slope) && (hi.Bounded? ==> slope <= hi.value)
  }

  /** The slopes between the bounds are exactly the ones that reach every point. */
  ghost predicate IntervalIs(anchor: Point, qs: seq<Point>, eps: int, lo: Bound, hi: Bound) {
    forall slope :: SlopeFitsAll(slope, anchor, qs, eps) <==> WithinBounds(slope, lo, hi)
  }

  /** One point's constraint, solved for the slope. */
  lemma SlopeInterval(slope: real, anchor: Point, q: Point, eps: int)
    requires anchor.x < q.x
    ensures var dx, dy := (q.x - anchor.x) as real, (q.y - anchor.y) as real;
      SlopeFits(slope, anchor, q, eps) <==> (dy - eps as real) / dx <= slope <= (dy + eps as real) / dx
  {
    var dx, dy := (q.x - anchor.x) as real, (q.y - anchor.y) as real;
    Solve(slope, dx, dy - eps as real);
    Solve(slope, dx, dy + eps as real);
  }

  lemma Solve(slope: real, dx: real, v: real)
    requires dx > 0.0
    ensures v <= slope * dx <==> v / dx <= slope
    ensures slope * dx <= v <==> slope <= v / dx
  {
    var q := v / dx;
    assert q * dx == v;
    if q < slope { MulStrict(q, slope, dx); }
    if slope < q { MulStrict(slope, q, dx); }
  }

  lemma AppendSlope(slope: real, anchor: Point, qs: seq<Point>, q: Point, eps: int)
    ensures SlopeFitsAll(slope, anchor, qs + [q], eps)
       <==> SlopeFitsAll(slope, anchor, qs, eps) && SlopeFits(slope, anchor, q, eps)
  {
    hide SlopeFits;
    if SlopeFitsAll(slope, anchor, qs + [q], eps) {
      assert (qs + [q])[|qs|] == q;
      forall n | 0 <= n < |qs| ensures SlopeFits(slope, anchor, qs[n], eps) { assert (qs + [q])[n] == qs[n]; }
    }
  }

  /** One more point intersects the slope interval with its own. */
  lemma Narrow(anchor: Point, qs: seq<Point>, q: Point, eps: int, lo: Bound, hi: Bound, newMin: real, newMax: real)
    requires anchor.x < q.x && IntervalIs(anchor, qs, eps, lo, hi)
    requires newMin == ((q.y - anchor.y) as real - eps as real) / (q.x - anchor.x) as real
    requires newMax == ((q.y - anchor.y) as real + eps as real) / (q.x - anchor.x) as real
    ensures IntervalIs(anchor, qs + [q], eps, Bounded(Raise(lo, newMin)), Bounded(Lower(hi, newMax)))
  {
    forall slope ensures SlopeFitsAll(slope, anchor, qs + [q], eps)
                    <==> WithinBounds(slope, Bounded(Raise(lo, newMin)), Bounded(Lower(hi, newMax))) {
      AppendSlope(slope, anchor, qs, q, eps);
      SlopeInterval(slope, anchor, q, eps);
    }
  }

  /** A slope through the anchor and the segment line it becomes agree on every point. */
  lemma SlopeLineFits(slope: real, anchor: Point, q: Point, eps: int, s: Segment)
    requires s.slope == slope && s.intercept == anchor.y as real - slope * (anchor.x as real)
    ensures Fits(LineOf(s), q, eps) <==> SlopeFits(slope, anchor, q, eps)
    ensures Hits(LineOf(s), anchor)
  {
    Rise(LineOf(s), anchor.x, q.x);
  }

  // ---- Slopes over positions that do not fall ----

  predicate Climbing(positions: seq<int>) {
    forall i, j :: 0 <= i < j < |positions| ==> positions[i] <= positions[j]
  }

  /** The slope interval's midpoint is not negative, or there is no interval yet. */
  predicate MidpointRises(lo: Bound, hi: Bound) {
    lo.Bounded? && hi.Bounded? ==> lo.value + hi.value >= 0.0
  }

  /** One more point no lower than the anchor keeps the midpoint from being negative. */
  lemma StaysRising(lo: Bound, hi: Bound, dx: real, dy: real, eps: real)
    requires dx > 0.0 && dy >= 0.0 && MidpointRises(lo, hi) && (lo.Bounded? <==> hi.Bounded?)
    ensures MidpointRises(Bounded(Raise(lo, (dy - eps) / dx)), Bounded(Lower(hi, (dy + eps) / dx)))
  {
    var a, b := (dy - eps) / dx, (dy + eps) / dx;
    assert (a + b) * dx == 2.0 * dy by { assert a * dx == dy - eps && b * dx == dy + eps; }
    if a + b < 0.0 { MulStrict(a + b, 0.0, dx); }
  }

  /** The interval loop: j is the last point some slope through the anchor still reaches. */
  method FitFrom(keys: seq<int>, positions: seq<int>, i: nat, eps: int, maxKeys: nat)
    returns (j: nat, slopeMin: Bound, slopeMax: Bound)
    requires |keys| == |positions| && i < |keys| && Rightward(Points(keys, positions))
    ensures i <= j < |keys| && j + 1 - i <= Cap(maxKeys)
    ensures j > i <==> slopeMin.Bounded? && slopeMax.Bounded?
    ensures j > i ==> slopeMin.value <= slopeMax.value
    ensures Climbing(positions) ==> MidpointRises(slopeMin, slopeMax)
    ensures IntervalIs(Points(keys, positions)[i], Points(keys, positions)[i + 1..j + 1], eps, slopeMin, slopeMax)
    ensures j + 1 < |keys| ==> j + 1 - i >= maxKeys || NoSlopeReaches(Points(keys, positions), i, j + 1, eps)
  {
    ghost var pts := Points(keys, positions);
    slopeMin, slopeMax := Unbounded, Unbounded;
    j := i;
    var k := i + 1;
    while k < |keys| && k - i < maxKeys
      invariant i < k <= |keys| && j == k - 1 && k - i <= Cap(maxKeys)
      invariant if j > i then slopeMin.Bounded? && slopeMax.Bounded? && slopeMin.value <= slopeMax.value
                else slopeMin.Unbounded? && slopeMax.Unbounded?
      invariant Climbing(positions) ==> MidpointRises(slopeMin, slopeMax)
      invariant IntervalIs(pts[i], pts[i + 1..k], eps, slopeMin, slopeMax)
    {
      var dx, dy := (keys[k] - keys[i]) as real, (positions[k] - positions[i]) as real;
      var newMin := (dy - eps as real) / dx;
      var newMax := (dy + eps as real) / dx;
      var candidateMin := Raise(slopeMin, newMin);
      var candidateMax := Lower(slopeMax, newMax);
      Narrow(pts[i], pts[i + 1..k], pts[k], eps, slopeMin, slopeMax, newMin, newMax);
      assert pts[i + 1..k + 1] == pts[i + 1..k] + [pts[k]];
      if candidateMin > candidateMax {
        EmptyInterval(pts[i], pts[i + 1..k + 1], eps, candidateMin, candidateMax);
        break;
      }
      if Climbing(positions) { StaysRising(slopeMin, slopeMax, dx, dy, eps as real); }
      slopeMin, slopeMax := Bounded(candidateMin), Bounded(candidateMax);
      j := k;
      k := k + 1;
    }
  }

  lemma EmptyInterval(anchor: Point, qs: seq<Point>, eps: int, lo: real, hi: real)
    requires lo > hi && IntervalIs(anchor, qs, eps, Bounded(lo), Bounded(hi))
    ensures NoSlope(anchor, qs, eps)
  {
    hide SlopeFitsAll;
    forall slope ensures !SlopeFitsAll(slope, anchor, qs, eps) {
      assert !WithinBounds(slope, Bounded(lo), Bounded(hi));
    }
  }

  lemma AppendRun(segments: seq<Segment>, s: Segment, pts: seq<Point>, eps: int, maxKeys: nat, starts: seq<nat>,
                  i: nat, to: nat)
    requires i < to <= |pts| && PinnedPrefix(segments, pts, eps, maxKeys, starts, i)
    requires PinnedRun(s, pts, i, to, eps, maxKeys)
    ensures PinnedPrefix(segments + [s], pts, eps, maxKeys, starts + [i], to)
  {
    hide PinnedRun;
    var segments', starts' := segments + [s], starts + [i];
    forall k | 0 <= k < |starts'| ensures PinnedAt(segments', pts, eps, maxKeys, starts', to, k) {
      if k < |starts| {
        assert PinnedAt(segments, pts, eps, maxKeys, starts, i, k);
        assert RunEnd(starts', k, to) == RunEnd(starts, k, i);
      }
    }
  }

  lemma PinnedFromSlope(s: Segment, pts: seq<Point>, i: nat, j: nat, eps: int, maxKeys: nat, lo: Bound, hi: Bound)
    requires i <= j < |pts| && j + 1 - i <= Cap(maxKeys)
    requires s.startKey == pts[i].x && s.intercept == pts[i].y as real - s.slope * (pts[i].x as real)
    requires j > i ==> lo.Bounded? && hi.Bounded? && lo.value <= hi.value && s.slope == (lo.value + hi.value) / 2.0
    requires IntervalIs(pts[i], pts[i + 1..j + 1], eps, lo, hi)
    requires j + 1 < |pts| ==> j + 1 - i >= maxKeys || NoSlopeReaches(pts, i, j + 1, eps)
    ensures PinnedRun(s, pts, i, j + 1, eps, maxKeys)
  {
    SlopeLineFits(s.slope, pts[i], pts[i], eps, s);
    forall k | i < k < j + 1 ensures Fits(LineOf(s), pts[k], eps) {
      assert WithinBounds(s.slope, lo, hi) <==> SlopeFitsAll(s.slope, pts[i], pts[i + 1..j + 1], eps);
      assert SlopeFitsAll(s.slope, pts[i], pts[i + 1..j + 1], eps);
      assert pts[i + 1..j + 1][k - i - 1] == pts[k];
      SlopeLineFits(s.slope, pts[i], pts[k], eps, s);
    }
  }

  /** The segment starting at point i: the midpoint of the slopes that reach the run. */
  method FitSegment(keys: seq<int>, positions: seq<int>, i: nat, eps: int, maxKeys: nat)
    returns (s: Segment, j: nat)
    requires |keys| == |positions| && i < |keys| && Rightward(Points(keys, positions))
    ensures i <= j < |keys|
    ensures PinnedRun(s, Points(keys, positions), i, j + 1, eps, maxKeys)
    ensures Climbing(positions) ==> s.slope >= 0.0
  {
    var slopeMin, slopeMax;
    j, slopeMin, slopeMax := FitFrom(keys, positions, i, eps, maxKeys);
    var slope := if j == i then 0.0 else (slopeMin.value + slopeMax.value) / 2.0;
    s := Segment(keys[i], slope, positions[i] as real - slope * (keys[i] as real));
    PinnedFromSlope(s, Points(keys, positions), i, j, eps, maxKeys, slopeMin, slopeMax);
  }

  /** No line falls. */
  predicate RisingLines(segments: seq<Segment>) {
    forall s :: 0 <= s < |segments| ==> segments[s].slope >= 0.0
  }

  /** Builds the pinned model left to right. */
  method BuildSegmentedModel(keys: seq<int>, positions: seq<int>, eps: int, maxKeys: nat)
    returns (segments: seq<Segment>, ghost starts: seq<nat>)
    requires |keys| == |positions| && Rightward(Points(keys, positions))
    ensures IsPinnedModel(segments, Points(keys, positions), eps, maxKeys, starts)
    ensures Climbing(positions) ==> RisingLines(segments)
  {
    segments, starts := [], [];
    ghost var pts := Points(keys, positions);
    var i := 0;
    assert PinnedPrefix(segments, pts, eps, maxKeys, starts, 0);
    hide PinnedRun, PinnedPrefix, Climbing;
    while i < |keys|
      invariant 0 <= i <= |keys|
      invariant PinnedPrefix(segments, pts, eps, maxKeys, starts, i)
      invariant Climbing(positions) ==> RisingLines(segments)
    {
      var s, j := FitSegment(keys, positions, i, eps, maxKeys);
      AppendRun(segments, s, pts, eps, maxKeys, starts, i, j + 1);
      segments, starts := segments + [s], starts + [i];
      i := j + 1;
    }
  }

  /** With eps >= 0 a pinned model is one of the bounded splits it approximates. */
  lemma PinnedServes(segments: seq<Segment>, pts: seq<Point>, eps: int, maxKeys: nat, starts: seq<nat>)
    requires eps >= 0 && IsPinnedModel(segments, pts, eps, maxKeys, starts)
    ensures ModelServes(segments, pts, eps, starts)
  {
    forall k | 0 <= k < |starts| ensures SegmentServes(segments[k], Run(pts, starts, k), eps) {
      assert PinnedAt(segments, pts, eps, maxKeys, starts, |pts|, k);
      PinnedRunServes(segments[k], pts, starts[k], RunEnd(starts, k, |pts|), eps, maxKeys);
    }
  }

  lemma PinnedRunServes(s: Segment, pts: seq<Point>, from: nat, to: nat, eps: int, maxKeys: nat)
    requires eps >= 0 && from < to <= |pts| && PinnedRun(s, pts, from, to, eps, maxKeys)
    ensures SegmentServes(s, pts[from..to], eps)
  {
    forall i | 0 <= i < to - from ensures Fits(LineOf(s), pts[from..to][i], eps) {
      assert pts[from..to][i] == pts[from + i];
    }
  }

  // ---- Where the runs are, read off the points ----

  /** The end of the run that starts at `from`, if it gets to `to`. */
  ghost function PinnedEnd(pts: seq<Point>, from: nat, to: nat, eps: int, maxKeys: nat): (end: nat)
    requires from < to <= |pts|
    ensures to <= end <= |pts|
    decreases |pts| - to
  {
    if to == |pts| || to - from >= maxKeys || NoSlopeReaches(pts, from, to, eps) then to
    else PinnedEnd(pts, from, to + 1, eps, maxKeys)
  }

  /** The starts of the runs from point `from` on. */
  ghost function PinnedStarts(pts: seq<Point>, from: nat, eps: int, maxKeys: nat): seq<nat>
    requires from <= |pts|
    decreases |pts| - from
  {
    if from == |pts| then []
    else [from] + PinnedStarts(pts, PinnedEnd(pts, from, from + 1, eps, maxKeys), eps, maxKeys)
  }

  /** A run ends at the first point where it may. */
  lemma {:induction false} RunEndsFirst(s: Segment, pts: seq<Point>, from: nat, to: nat, end: nat, eps: int, maxKeys: nat)
    requires from < to <= end <= |pts| && PinnedRun(s, pts, from, end, eps, maxKeys)
    ensures PinnedEnd(pts, from, to, eps, maxKeys) == end
    decreases end - to
  {
    if to < end {
      var qs := pts[from + 1..to + 1];
      forall i | 0 <= i < |qs| ensures SlopeFits(s.slope, pts[from], qs[i], eps) {
        Rise(LineOf(s), 0, pts[from].x);
        SlopeLineFits(s.slope, pts[from], pts[from + 1 + i], eps, s);
      }
      assert SlopeFitsAll(s.slope, pts[from], qs, eps);
      RunEndsFirst(s, pts, from, to + 1, end, eps, maxKeys);
    }
  }

  /** A pinned model's runs are determined by the points, eps and the cap. */
  lemma StartsAreDetermined(segments: seq<Segment>, pts: seq<Point>, eps: int, maxKeys: nat, starts: seq<nat>)
    requires IsPinnedModel(segments, pts, eps, maxKeys, starts)
    ensures starts == PinnedStarts(pts, 0, eps, maxKeys)
  {
    if pts != [] {
      StartsFrom(segments, pts, eps, maxKeys, starts, 0);
      assert starts[0..] == starts;
    }
  }

  lemma {:induction false} StartsFrom(segments: seq<Segment>, pts: seq<Point>, eps: int, maxKeys: nat, starts: seq<nat>, k: nat)
    requires IsPinnedModel(segments, pts, eps, maxKeys, starts) && k < |starts|
    ensures starts[k..] == PinnedStarts(pts, starts[k], eps, maxKeys)
    decreases |starts| - k
  {
    assert PinnedAt(segments, pts, eps, maxKeys, starts, |pts|, k);
    RunEndsFirst(segments[k], pts, starts[k], starts[k] + 1, RunEnd(starts, k, |pts|), eps, maxKeys);
    if k + 1 < |starts| {
      StartsFrom(segments, pts, eps, maxKeys, starts, k + 1);
      assert starts[k..] == [starts[k]] + starts[k + 1..];
    } else {
      assert starts[k..] == [starts[k]] + [];
    }
  }

  /** Two points that no slope through the anchor reaches both: the first allows at most less than the
      second asks for, or the other way round. */
  lemma Clash(pts: seq<Point>, from: nat, to: nat, eps: int, i: nat, j: nat)
    requires from < i <= to < |pts| && from < j <= to && pts[from].x < pts[i].x && pts[from].x < pts[j].x
    requires (pts[i].y - pts[from].y + eps) * (pts[j].x - pts[from].x) < (pts[j].y - pts[from].y - eps) * (pts[i].x - pts[from].x)
    ensures NoSlopeReaches(pts, from, to, eps)
  {
    var qs := pts[from + 1..to + 1];
    forall slope | SlopeFitsAll(slope, pts[from], qs, eps) ensures false {
      assert qs[i - from - 1] == pts[i] && qs[j - from - 1] == pts[j];
      assert SlopeFits(slope, pts[from], pts[i], eps) && SlopeFits(slope, pts[from], pts[j], eps);
      BothReached(slope, pts[i].x - pts[from].x, pts[i].y - pts[from].y, pts[j].x - pts[from].x, pts[j].y - pts[from].y, eps);
    }
  }

  lemma BothReached(slope: real, dx: int, dy: int, dx': int, dy': int, eps: int)
    requires 0 < dx && 0 < dx' && slope * dx as real <= (dy + eps) as real && (dy' - eps) as real <= slope * dx' as real
    ensures (dy' - eps) * dx <= (dy + eps) * dx'
  {
    var a, b := dx as real, dx' as real;
    MulMono((dy' - eps) as real, slope * b, a);
    MulMono(slope * a, (dy + eps) as real, b);
    assert slope * b * a == slope * a * b;
    ScaledReal(dy' - eps, dx);
    ScaledReal(dy + eps, dx');
  }

  /** A run that a slope carries to `end`, and no slope further, ends there. */
  lemma RunIs(pts: seq<Point>, from: nat, end: nat, eps: int, maxKeys: nat, slope: real)
    requires from < end <= |pts| && end - from <= maxKeys
    requires forall i :: from < i < end ==> SlopeFits(slope, pts[from], pts[i], eps)
    requires end == |pts| || NoSlopeReaches(pts, from, end, eps)
    ensures PinnedStarts(pts, from, eps, maxKeys) == [from] + PinnedStarts(pts, end, eps, maxKeys)
  {
    hide PinnedStarts, SlopeFits, NoSlopeReaches;
    RunEndIs(pts, from, from + 1, end, eps, maxKeys, slope);
    StartsStep(pts, from, eps, maxKeys);
  }

  lemma StartsStep(pts: seq<Point>, from: nat, eps: int, maxKeys: nat)
    requires from < |pts|
    ensures PinnedStarts(pts, from, eps, maxKeys)
         == [from] + PinnedStarts(pts, PinnedEnd(pts, from, from + 1, eps, maxKeys), eps, maxKeys)
  {
  }

  lemma {:induction false} RunEndIs(pts: seq<Point>, from: nat, to: nat, end: nat, eps: int, maxKeys: nat, slope: real)
    requires from < to <= end <= |pts| && end - from <= maxKeys
    requires forall i :: from < i < end ==> SlopeFits(slope, pts[from], pts[i], eps)
    requires end == |pts| || NoSlopeReaches(pts, from, end, eps)
    ensures PinnedEnd(pts, from, to, eps, maxKeys) == end
    decreases end - to
  {
    hide SlopeFits;
    if to < end {
      assert SlopeFitsAll(slope, pts[from], pts[from + 1..to + 1], eps);
      RunEndIs(pts, from, to + 1, end, eps, maxKeys, slope);
    }
  }
}
