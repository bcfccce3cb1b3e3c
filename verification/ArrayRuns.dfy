/** Runs of a gapped array (cpp/gapped_array.h: layout, predict_from, refresh_segments): all those without
    removes keep predictions close, and two short ones with removes leave states the comments there do not
    allow for. Every call is one a client can make. */
module ArrayRuns {
  import opened Geometry
  import opened Segments
  import opened PinnedModel
  import opened Slots
  import opened SlotSearch
  import opened EvenLayout
  import opened Drift
  import opened Coverage
  import opened SlotShift
  import opened Regions
  import opened Relays
  import opened Refreshes
  import opened GappedArray

  const E := EMPTY_SLOT

  /** However many keys are inserted after a layout, as long as none is removed all but fewer than eps of
      every segment's keys are predicted less than 2 * eps slots off. */
  method BuildAndInsert<V>(sortedKeys: seq<int>, values: seq<V>, density: real, eps: nat, emptyValue: V,
                           newKeys: seq<int>, newValues: seq<V>) returns (a: GappedArray<V>)
    requires 0.0 < density && eps >= 1 && |values| == |sortedKeys| && StrictKeys(sortedKeys)
    requires |newValues| == |newKeys| && forall i :: 0 <= i < |newKeys| ==> newKeys[i] < EMPTY_SLOT
    ensures fresh(a) && a.Valid() && a.AnchorsHeld() && a.eps == eps
    ensures forall s :: 0 <= s < |a.segments| ==> |FarPredictions(a.data, a.segments, s, 2 * eps)| < eps
  {
    hide LaidOut, AllFitted, FarPredictions, SegmentsKept, SortedSlots, Entries, MapOf, InsertedAs, StrictKeys, Anchored;
    a := new GappedArray<V>.Build(sortedKeys, values, density, eps, emptyValue);
    for i := 0 to |newKeys|
      invariant a.Valid() && a.AnchorsHeld()
    {
      a.Insert(newKeys[i], newValues[i]);
    }
    forall s | 0 <= s < |a.segments| ensures |FarPredictions(a.data, a.segments, s, 2 * eps)| < eps {
      a.PredictionsStayClose(s);
    }
  }

  // ---- A prediction cut off by an anchor that is gone ----

  const SPARSE_KEYS: seq<int> := [0, 1, 100, 101, 102, 103, 104]

  /** Every other slot holds a key; 0 and 1 are one segment, the rest are not in it, and the second
      segment is anchored at slot 4. */
  lemma SparseLayout(data: seq<int>, segments: seq<Segment>)
    requires SortedSlots(data) && LaidOut(data, segments, SPARSE_KEYS, 0.5, 1)
    ensures data == [0, E, 1, E, 100, E, 101, E, 102, E, 103, E, 104, E]
    ensures SparseSegments(segments)
  {
    hide PinnedStarts, LaidEvenly, SortedSlots, SparseSegments, FitOf;
    assert |SPARSE_KEYS| == 7 && CeilReal(7 as real / 0.5) == 14;
    assert Capacity(7, 0.5) == 14;
    SparseData(data);
    SparseFit(segments);
  }

  /** The first two segments, as a fit of those keys leaves them. */
  ghost predicate SparseSegments(segments: seq<Segment>) {
    |segments| >= 2 && segments[0].startKey == 0 && segments[1].startKey == 100 && AnchorPosition(segments[1]) == 4.0
  }

  lemma SparseData(data: seq<int>)
    requires |data| == 14 && SortedSlots(data) && LaidEvenly(data, 0, 14, SPARSE_KEYS)
    ensures data == [0, E, 1, E, 100, E, 101, E, 102, E, 103, E, 104, E]
  {
    hide LaidEvenly, SortedSlots;
    SparseSlots(data);
    SparseGaps(data);
  }

  lemma SparseSlots(d: seq<int>)
    requires |d| == 14 && LaidEvenly(d, 0, 14, SPARSE_KEYS)
    ensures d[0] == 0 && d[2] == 1 && d[4] == 100 && d[6] == 101 && d[8] == 102 && d[10] == 103 && d[12] == 104
  {
    hide LaidEvenly;
    LaidAtPlace(d, 0, 14, SPARSE_KEYS, 0, 0);
    LaidAtPlace(d, 0, 14, SPARSE_KEYS, 1, 2);
    LaidAtPlace(d, 0, 14, SPARSE_KEYS, 2, 4);
    LaidAtPlace(d, 0, 14, SPARSE_KEYS, 3, 6);
    LaidAtPlace(d, 0, 14, SPARSE_KEYS, 4, 8);
    LaidAtPlace(d, 0, 14, SPARSE_KEYS, 5, 10);
    LaidAtPlace(d, 0, 14, SPARSE_KEYS, 6, 12);
  }

  lemma SparseGaps(d: seq<int>)
    requires |d| == 14 && SortedSlots(d) && LaidEvenly(d, 0, 14, SPARSE_KEYS)
    ensures d[1] == d[3] == d[5] == d[7] == d[9] == d[11] == d[13] == E
  {
    hide LaidEvenly, SortedSlots;
    assert Places(0, 14, 7) == [0, 2, 4, 6, 8, 10, 12];
    LaidGap(d, 0, 14, SPARSE_KEYS, 1);
    LaidGap(d, 0, 14, SPARSE_KEYS, 3);
    LaidGap(d, 0, 14, SPARSE_KEYS, 5);
    LaidGap(d, 0, 14, SPARSE_KEYS, 7);
    LaidGap(d, 0, 14, SPARSE_KEYS, 9);
    LaidGap(d, 0, 14, SPARSE_KEYS, 11);
    LaidGap(d, 0, 14, SPARSE_KEYS, 13);
  }

  lemma SparseFit(segments: seq<Segment>)
    requires FitOf(segments, SPARSE_KEYS, 0, 14, 1)
    ensures SparseSegments(segments)
  {
    hide PinnedStarts, FitOf, LaidPoints, SegmentCap;
    SparsePoints();
    var starts := SparseStarts(LaidPoints(SPARSE_KEYS, 0, 14));
    SmallCap(7);
    FitAnchorAt(segments, SPARSE_KEYS, 0, 14, 1, starts, 0);
    FitAnchorAt(segments, SPARSE_KEYS, 0, 14, 1, starts, 1);
  }

  lemma SparsePoints()
    ensures LaidPoints(SPARSE_KEYS, 0, 14) == [Point(0, 0), Point(1, 2), Point(100, 4), Point(101, 6), Point(102, 8), Point(103, 10), Point(104, 12)]
  {
  }

  lemma SparseStarts(pts: seq<Point>) returns (starts: seq<nat>)
    requires pts == [Point(0, 0), Point(1, 2), Point(100, 4), Point(101, 6), Point(102, 8), Point(103, 10), Point(104, 12)]
    ensures starts == PinnedStarts(pts, 0, 1, 4096) && |starts| >= 2 && starts[0] == 0 && starts[1] == 2
  {
    hide PinnedStarts, NoSlopeReaches;
    Clash(pts, 0, 2, 1, 2, 1);
    RunIs(pts, 0, 2, 1, 4096, 2.0);
    StartsStep(pts, 2, 1, 4096);
    starts := PinnedStarts(pts, 0, 1, 4096);
  }

  /** A key its segment was fit on, predicted more than 2 * eps slots too far left. */
  ghost predicate CutOff(data: seq<int>, segments: seq<Segment>, fitted: seq<set<int>>, eps: nat, s: nat, p: nat) {
    && s < |segments| == |fitted| && p < |data| && IsReal(data[p]) && Owns(segments, s, data[p]) && data[p] in fitted[s]
    && PredictFrom(segments, s, data[p], |data|) < p - 2 * eps
  }

  /** With 100 to 103 gone, inserting 2 spreads the first segment over twelve slots. */
  lemma SparseInsert(a: Shape, z: Shape) returns (local: seq<Segment>)
    requires a.data == [0, E, 1, E, E, E, E, E, E, E, E, E, 104, E] && SparseSegments(a.segments) && SortedStarts(a.segments)
    requires a.changes == Zeros(|a.segments|) && InsertedAs(a, 2, 0.5, 1, z)
    ensures |z.data| == 14 && LaidEvenly(z.data, 0, 12, [0, 1, 2]) && FitOf(local, [0, 1, 2], 0, 12, 1)
    ensures z.segments == local + a.segments[1..] && z.changes == Zeros(|local|) + a.changes[1..]
  {
    hide *;
    var b := SparsePlace(a);
    PlacedLeaves(a, 2, 0, 12, 11, 0, 0, 0.5, 1, z, b);
    var r := OneDue(b, 0, 0.5, 1, z);
    SparseWindow(b);
    NarrowestDecides(r, b, 0, 0.5, 1, z, 0, 0, 0, 0, 12);
    local := r.local;
    SparseRelaid(a, b, z, local);
  }

  lemma SparsePlace(a: Shape) returns (b: Shape)
    requires a.data == [0, E, 1, E, E, E, E, E, E, E, E, E, 104, E] && SparseSegments(a.segments) && SortedStarts(a.segments)
    requires a.changes == Zeros(|a.segments|)
    ensures InsertsAt(a.data, a.segments, 2, 1, 0, 12, 11, 0, 0)
    ensures b == Shape(ShiftIn(a.data, 12, 11, 2), a.segments, Bump(a.changes, 0, 0)) && |b.changes| == |b.segments| >= 2
    ensures b.data == [0, E, 1, E, E, E, E, E, E, E, E, 2, 104, E] && b.changes[0] >= Threshold(1)
  {
    b := Shape(ShiftIn(a.data, 12, 11, 2), a.segments, Bump(a.changes, 0, 0));
    assert ShiftIn(a.data, 12, 11, 2) == [0, E, 1, E, E, E, E, E, E, E, E, 2, 104, E];
  }

  /** The first segment's own twelve slots are the narrowest window with room. */
  lemma SparseWindow(b: Shape)
    requires b.data == [0, E, 1, E, E, E, E, E, E, E, E, 2, 104, E] && SparseSegments(b.segments) && SortedStarts(b.segments)
    ensures RealKeys(b.data[0..12]) == [0, 1, 2]
    ensures Narrowest(b.data, b.segments, 0, 0, 0, 0, 0, 12) && !LastIsFull(b.data, b.segments, 0)
  {
    WindowOfOne(0, |b.segments|);
    assert IsRegion(b.data, b.segments, 0, 0, 0, 12);
    assert b.data[0..12] == [0, E, 1, E, E, E, E, E, E, E, E, 2];
    SparseKeys();
    assert !TooDense(3, 12, 0, |b.segments|);
  }

  lemma SparseKeys()
    ensures RealKeys([0, E, 1, E, E, E, E, E, E, E, E, 2]) == [0, 1, 2]
  {
    hide RealKeys;
    var a := [0];
    var b := a + [E];
    var c := b + [1];
    var d := c + [E, E, E, E, E, E, E, E];
    RealKeysOfOne(0);
    RealKeysPush(a, E);
    RealKeysPush(b, 1);
    GapsAddNothing(c, [E, E, E, E, E, E, E, E]);
    RealKeysPush(d, 2);
    assert d + [2] == [0, E, 1, E, E, E, E, E, E, E, E, 2];
  }

  lemma SparseRelaid(a: Shape, b: Shape, z: Shape, local: seq<Segment>)
    requires |b.data| == 14 && RealKeys(b.data[0..12]) == [0, 1, 2] && |b.segments| >= 2 && |b.changes| == |b.segments|
    requires a.segments == b.segments && b.changes == Bump(a.changes, 0, 0) && z.changes == Splice(b.changes, 0, 0, Zeros(|local|))
    requires RelaidBy(b.data, b.segments, 0, 0, 0, 12, 1, z.data, z.segments, local)
    ensures |z.data| == 14 && LaidEvenly(z.data, 0, 12, [0, 1, 2]) && FitOf(local, [0, 1, 2], 0, 12, 1)
    ensures z.segments == local + a.segments[1..] && z.changes == Zeros(|local|) + a.changes[1..]
  {
    hide LaidEvenly, FitOf, RealKeys;
  }

  /** Key 2 now lies at slot 8, in the segment before the one anchored at slot 4. */
  lemma SparseCutOff(a: Shape, z: Shape, local: seq<Segment>, fitted: seq<set<int>>)
    requires |z.data| == 14 && LaidEvenly(z.data, 0, 12, [0, 1, 2]) && FitOf(local, [0, 1, 2], 0, 12, 1)
    requires SparseSegments(a.segments) && z.segments == local + a.segments[1..]
    requires |a.changes| == |a.segments| && z.changes == Zeros(|local|) + a.changes[1..]
    requires SortedStarts(z.segments) && Covered(z.data, z.segments, z.changes, fitted)
    ensures |local| > 0 && CutOff(z.data, z.segments, fitted, 1, |local| - 1, 8)
  {
    LocalStarts(local);
    var s := |local| - 1;
    LaidAtPlace(z.data, 0, 12, [0, 1, 2], 2, 8);
    assert Owns(z.segments, s, 2) by { assert z.segments[s] == local[s] && z.segments[s + 1] == a.segments[1]; }
    OwnedIsFitted(z, fitted, s, 8);
    NextCutsOff(z.segments, s, 2, 14);
  }

  lemma LocalStarts(local: seq<Segment>)
    requires FitOf(local, [0, 1, 2], 0, 12, 1)
    ensures |local| > 0 && forall k :: 0 <= k < |local| ==> local[k].startKey <= 2
  {
    hide FitOf, PinnedStarts;
    var pts := LaidPoints([0, 1, 2], 0, 12);
    StartsStep(pts, 0, 1, SegmentCap(3));
    FitStartsAt(local, [0, 1, 2], 0, 12, 1, PinnedStarts(pts, 0, 1, SegmentCap(3)));
  }

  /** A segment without changes was fit on every key it owns. */
  lemma OwnedIsFitted(z: Shape, fitted: seq<set<int>>, s: nat, p: nat)
    requires Covered(z.data, z.segments, z.changes, fitted) && s < |z.changes| && z.changes[s] == 0
    requires p < |z.data| && IsReal(z.data[p]) && Owns(z.segments, s, z.data[p])
    ensures s < |fitted| && z.data[p] in fitted[s]
  {
    assert CoveredAt(z.data, z.segments, z.changes, fitted, s);
    assert z.data[p] !in Strays(z.data, z.segments, fitted, s);
  }

  lemma NextCutsOff(segments: seq<Segment>, s: nat, key: int, n: nat)
    requires s + 1 < |segments| && AnchorPosition(segments[s + 1]) == 4.0
    ensures PredictFrom(segments, s, key, n) <= 4
  {
    hide AnchorPosition, At;
  }

  /** Laying out seven keys with eps 1, removing four and inserting one leaves a key that its segment was
      fit on and that is predicted four slots too far left: the anchor of the next segment is gone,
      but its stored position still cuts predictions off. */
  method ClampMisses() returns (a: GappedArray<int>)
    ensures fresh(a) && a.Valid() && a.eps == 1
    ensures exists s: nat, p: nat :: CutOff(a.data, a.segments, a.fitted, a.eps, s, p)
  {
    hide LaidOut, SortedSlots, SegmentsKept, SparseSegments, Entries, MapOf, InsertedAs, CutOff, LaidEvenly, FitOf, SortedStarts, Covered;
    a := SparseArray();
    ghost var before := a.Now();
    a.ValidParts();
    a.CoreParts();
    a.Insert(2, 0);
    a.ValidParts();
    a.CoreParts();
    ghost var local := SparseInsert(before, a.Now());
    KeptParts(a.data, a.segments, a.segmentChanges, a.fitted, a.eps);
    SparseCutOff(before, a.Now(), local, a.fitted);
  }

  /** Seven keys laid out, and four of them removed. */
  method SparseArray() returns (a: GappedArray<int>)
    ensures fresh(a) && a.Valid() && a.density == 0.5 && a.eps == 1
    ensures a.data == [0, E, 1, E, E, E, E, E, E, E, E, E, 104, E] && SparseSegments(a.segments) && SortedStarts(a.segments)
    ensures a.segmentChanges == Zeros(|a.segments|)
  {
    hide LaidOut, SortedSlots, SegmentsKept, SparseSegments, Anchored, AllFitted, Entries, Zip;
    a := new GappedArray<int>.Build(SPARSE_KEYS, [0, 0, 0, 0, 0, 0, 0], 0.5, 1, 0);
    SparseLayout(a.data, a.segments);
    var removed := a.Remove(100);
    removed := a.Remove(101);
    removed := a.Remove(102);
    removed := a.Remove(103);
    KeptParts(a.data, a.segments, a.segmentChanges, a.fitted, a.eps);
  }

  lemma KeptParts(data: seq<int>, segments: seq<Segment>, changes: seq<nat>, fitted: seq<set<int>>, eps: nat)
    requires SegmentsKept(data, segments, changes, fitted, eps)
    ensures SortedStarts(segments) && Covered(data, segments, changes, fitted)
  {
  }

  // ---- A countdown that outruns its list ----

  const CROWDED_KEYS: seq<int> := [12, 13, 40, 45, 79, 84, 99, 148]

  ghost predicate StartAt(segments: seq<Segment>, keys: seq<int>) {
    |segments| == |keys| && forall s :: 0 <= s < |keys| ==> segments[s].startKey == keys[s]
  }

  lemma CrowdedLayout(data: seq<int>, segments: seq<Segment>)
    requires SortedSlots(data) && LaidOut(data, segments, CROWDED_KEYS, 0.75, 1)
    ensures data == [12, 13, 40, E, 45, 79, 84, E, 99, 148, E]
    ensures StartAt(segments, [12, 79, 148])
  {
    hide PinnedStarts, LaidEvenly, SortedSlots, FitOf, StartAt;
    assert |CROWDED_KEYS| == 8 && CeilReal(8 as real / 0.75) == 11;
    assert Capacity(8, 0.75) == 11;
    CrowdedData(data);
    CrowdedFit(segments);
  }

  lemma CrowdedData(data: seq<int>)
    requires |data| == 11 && SortedSlots(data) && LaidEvenly(data, 0, 11, CROWDED_KEYS)
    ensures data == [12, 13, 40, E, 45, 79, 84, E, 99, 148, E]
  {
    hide LaidEvenly, SortedSlots, Places;
    CrowdedSlots(data);
    CrowdedGaps(data);
  }

  lemma CrowdedSlots(d: seq<int>)
    requires |d| == 11 && LaidEvenly(d, 0, 11, CROWDED_KEYS)
    ensures d[0] == 12 && d[1] == 13 && d[2] == 40 && d[4] == 45 && d[5] == 79 && d[6] == 84 && d[8] == 99 && d[9] == 148
  {
    hide LaidEvenly;
    LaidAtPlace(d, 0, 11, CROWDED_KEYS, 0, 0);
    LaidAtPlace(d, 0, 11, CROWDED_KEYS, 1, 1);
    LaidAtPlace(d, 0, 11, CROWDED_KEYS, 2, 2);
    LaidAtPlace(d, 0, 11, CROWDED_KEYS, 3, 4);
    LaidAtPlace(d, 0, 11, CROWDED_KEYS, 4, 5);
    LaidAtPlace(d, 0, 11, CROWDED_KEYS, 5, 6);
    LaidAtPlace(d, 0, 11, CROWDED_KEYS, 6, 8);
    LaidAtPlace(d, 0, 11, CROWDED_KEYS, 7, 9);
  }

  lemma CrowdedGaps(d: seq<int>)
    requires |d| == 11 && SortedSlots(d) && LaidEvenly(d, 0, 11, CROWDED_KEYS)
    ensures d[3] == d[7] == d[10] == E
  {
    hide LaidEvenly, SortedSlots;
    assert Places(0, 11, 8) == [0, 1, 2, 4, 5, 6, 8, 9];
    LaidGap(d, 0, 11, CROWDED_KEYS, 3);
    LaidGap(d, 0, 11, CROWDED_KEYS, 7);
    LaidGap(d, 0, 11, CROWDED_KEYS, 10);
  }

  lemma CrowdedFit(segments: seq<Segment>)
    requires FitOf(segments, CROWDED_KEYS, 0, 11, 1)
    ensures StartAt(segments, [12, 79, 148])
  {
    hide PinnedStarts, FitOf, LaidPoints, SegmentCap;
    CrowdedPoints();
    CrowdedStarts(LaidPoints(CROWDED_KEYS, 0, 11));
    SmallCap(8);
    FitStartsAt(segments, CROWDED_KEYS, 0, 11, 1, [0, 4, 7]);
  }

  lemma CrowdedPoints()
    ensures LaidPoints(CROWDED_KEYS, 0, 11)
      == [Point(12, 0), Point(13, 1), Point(40, 2), Point(45, 4), Point(79, 5), Point(84, 6), Point(99, 8), Point(148, 9)]
  {
  }

  lemma CrowdedStarts(pts: seq<Point>)
    requires pts == [Point(12, 0), Point(13, 1), Point(40, 2), Point(45, 4), Point(79, 5), Point(84, 6), Point(99, 8), Point(148, 9)]
    ensures PinnedStarts(pts, 0, 1, 4096) == [0, 4, 7]
  {
    hide PinnedStarts, NoSlopeReaches;
    Clash(pts, 0, 4, 1, 4, 3);
    RunIs(pts, 0, 4, 1, 4096, 0.1);
    Clash(pts, 4, 7, 1, 7, 6);
    RunIs(pts, 4, 7, 1, 4096, 0.15);
    RunIs(pts, 7, 8, 1, 4096, 0.0);
    NoStartsLeft(pts, 1, 4096);
  }

  /** Few keys are never split by the cap. */
  lemma SmallCap(n: nat)
    requires n <= 4096
    ensures SegmentCap(n) == 4096
  {
  }

  lemma NoStartsLeft(pts: seq<Point>, eps: int, maxKeys: nat)
    ensures PinnedStarts(pts, |pts|, eps, maxKeys) == []
  {
  }

  // Inserting 137 fills the last slot, and splits the second segment where it lands.

  lemma TailPlace(a: Shape) returns (b: Shape)
    requires a.data == [12, 13, E, E, 45, 79, 84, E, 99, E, E] && StartAt(a.segments, [12, 79, 148]) && a.changes == Zeros(3)
    ensures InsertsAt(a.data, a.segments, 137, 1, 1, 11, 10, 1, 1)
    ensures b == Shape(ShiftIn(a.data, 11, 10, 137), a.segments, Bump(a.changes, 1, 1))
    ensures b.data == [12, 13, E, E, 45, 79, 84, E, 99, E, 137] && b.changes == [0, 1, 0]
  {
    b := Shape(ShiftIn(a.data, 11, 10, 137), a.segments, Bump(a.changes, 1, 1));
    assert a.segments[1].startKey == 79 && a.segments[2].startKey == 148;
  }

  lemma TailWindow(b: Shape)
    requires b.data == [12, 13, E, E, 45, 79, 84, E, 99, E, 137] && StartAt(b.segments, [12, 79, 148])
    ensures RealKeys(b.data[5..11]) == [79, 84, 99, 137]
    ensures Narrowest(b.data, b.segments, 1, 0, 1, 1, 5, 11) && !LastIsFull(b.data, b.segments, 1)
  {
    WindowOfOne(1, 3);
    assert b.segments[1].startKey == 79 && b.segments[2].startKey == 148;
    assert IsRegion(b.data, b.segments, 1, 1, 5, 11);
    assert b.data[5..11] == [79, 84, E, 99, E, 137];
    TailKeys();
    assert !TooDense(4, 6, 0, 3);
  }

  lemma TailKeys()
    ensures RealKeys([79, 84, E, 99, E, 137]) == [79, 84, 99, 137]
  {
    hide RealKeys;
    var a := [79];
    var b := a + [84];
    var c := b + [E];
    var d := c + [99];
    var e := d + [E];
    RealKeysOfOne(79);
    RealKeysPush(a, 84);
    RealKeysPush(b, E);
    RealKeysPush(c, 99);
    RealKeysPush(d, E);
    RealKeysPush(e, 137);
    assert e + [137] == [79, 84, E, 99, E, 137];
  }

  lemma StartsCount(segments: seq<Segment>, keys: seq<int>)
    requires StartAt(segments, keys)
    ensures |segments| == |keys|
  {
  }

  lemma TailFit(local: seq<Segment>)
    requires FitOf(local, [79, 84, 99, 137], 5, 11, 1)
    ensures StartAt(local, [79, 137])
  {
    hide PinnedStarts, FitOf, LaidPoints, SegmentCap;
    TailPoints();
    TailStarts(LaidPoints([79, 84, 99, 137], 5, 11));
    SmallCap(4);
    FitStartsAt(local, [79, 84, 99, 137], 5, 11, 1, [0, 3]);
  }

  lemma TailPoints()
    ensures LaidPoints([79, 84, 99, 137], 5, 11) == [Point(79, 5), Point(84, 6), Point(99, 8), Point(137, 9)]
  {
  }

  lemma TailStarts(pts: seq<Point>)
    requires pts == [Point(79, 5), Point(84, 6), Point(99, 8), Point(137, 9)]
    ensures PinnedStarts(pts, 0, 1, 4096) == [0, 3]
  {
    hide PinnedStarts, NoSlopeReaches;
    Clash(pts, 0, 3, 1, 3, 2);
    RunIs(pts, 0, 3, 1, 4096, 0.15);
    RunIs(pts, 3, 4, 1, 4096, 0.0);
    NoStartsLeft(pts, 1, 4096);
  }

  lemma TailRelaid(b: Shape, z: Shape, local: seq<Segment>)
    requires b.data == [12, 13, E, E, 45, 79, 84, E, 99, E, 137] && RealKeys(b.data[5..11]) == [79, 84, 99, 137]
    requires StartAt(b.segments, [12, 79, 148]) && b.changes == [0, 1, 0] && SortedSlots(z.data)
    requires RelaidBy(b.data, b.segments, 1, 1, 5, 11, 1, z.data, z.segments, local)
    requires z.changes == Splice(b.changes, 1, 1, Zeros(|local|))
    ensures z.data == [12, 13, E, E, 45, 79, 84, E, 99, 137, E]
    ensures StartAt(z.segments, [12, 79, 137, 148]) && z.changes == Zeros(4)
  {
    TailFit(local);
    TailSlots(b.data, z.data);
    hide RealKeys, LaidEvenly, FitOf, SameOutside;
    assert b.segments[0].startKey == 12 && b.segments[2].startKey == 148 && local[0].startKey == 79 && local[1].startKey == 137;
    assert z.segments == [b.segments[0], local[0], local[1], b.segments[2]];
  }

  lemma TailSlots(data: seq<int>, d: seq<int>)
    requires data == [12, 13, E, E, 45, 79, 84, E, 99, E, 137] && SameOutside(data, d, 5, 11)
    requires SortedSlots(d) && LaidEvenly(d, 5, 11, [79, 84, 99, 137])
    ensures d == [12, 13, E, E, 45, 79, 84, E, 99, 137, E]
  {
    hide LaidEvenly, SortedSlots, SameOutside;
    HeadStays(data, d);
    TailPlaces(d);
    TailGaps(d);
  }

  lemma HeadStays(data: seq<int>, d: seq<int>)
    requires |data| == 11 && SameOutside(data, d, 5, 11)
    ensures |d| == 11 && d[0] == data[0] && d[1] == data[1] && d[2] == data[2] && d[3] == data[3] && d[4] == data[4]
  {
    forall p | 0 <= p < 5 ensures d[p] == data[p] { OutsideAt(data, d, 5, 11, p); }
  }

  lemma TailPlaces(d: seq<int>)
    requires |d| == 11 && LaidEvenly(d, 5, 11, [79, 84, 99, 137])
    ensures d[5] == 79 && d[6] == 84 && d[8] == 99 && d[9] == 137
  {
    hide LaidEvenly;
    LaidAtPlace(d, 5, 11, [79, 84, 99, 137], 0, 5);
    LaidAtPlace(d, 5, 11, [79, 84, 99, 137], 1, 6);
    LaidAtPlace(d, 5, 11, [79, 84, 99, 137], 2, 8);
    LaidAtPlace(d, 5, 11, [79, 84, 99, 137], 3, 9);
  }

  lemma TailGaps(d: seq<int>)
    requires |d| == 11 && SortedSlots(d) && LaidEvenly(d, 5, 11, [79, 84, 99, 137])
    ensures d[7] == d[10] == E
  {
    hide LaidEvenly, SortedSlots;
    assert Places(5, 6, 4) == [5, 6, 8, 9];
    LaidGap(d, 5, 11, [79, 84, 99, 137], 7);
    LaidGap(d, 5, 11, [79, 84, 99, 137], 10);
  }

  lemma TailInsert(a: Shape, z: Shape)
    requires a.data == [12, 13, E, E, 45, 79, 84, E, 99, E, E] && StartAt(a.segments, [12, 79, 148]) && a.changes == Zeros(3)
    requires InsertedAs(a, 137, 0.75, 1, z) && SortedSlots(z.data)
    ensures z.data == [12, 13, E, E, 45, 79, 84, E, 99, 137, E]
    ensures StartAt(z.segments, [12, 79, 137, 148]) && z.changes == Zeros(4)
  {
    hide InsertsAt, InsertedAs, RefreshesTo, RefreshStep, Narrowest, LastIsFull, RelaidBy, RealKeys, StartAt, WindowLo, WindowHi,
      SortedSlots, ShiftIn;
    var b := TailPlace(a);
    PlacedLeaves(a, 137, 1, 11, 10, 1, 1, 0.75, 1, z, b);
    var r := OneDue(b, 1, 0.75, 1, z);
    TailWindow(b);
    StartsCount(b.segments, [12, 79, 148]);
    NarrowestDecides(r, b, 1, 0.75, 1, z, 0, 1, 1, 5, 11);
    TailRelaid(b, z, r.local);
  }

  // Inserting 111 then pushes 137 into the last slot, is counted against two segments, and the refresh
  // of the higher one merges all four.

  const MERGED_KEYS: seq<int> := [12, 13, 45, 79, 84, 99, 111, 137]

  lemma MergePlace(a: Shape) returns (b: Shape)
    requires a.data == [12, 13, E, E, 45, 79, 84, E, 99, 137, E]
    requires StartAt(a.segments, [12, 79, 137, 148]) && a.changes == Zeros(4)
    ensures InsertsAt(a.data, a.segments, 111, 1, 1, 9, 10, 1, 2)
    ensures b == Shape(ShiftIn(a.data, 9, 10, 111), a.segments, Bump(a.changes, 1, 2))
    ensures b.data == [12, 13, E, E, 45, 79, 84, E, 99, 111, 137] && b.changes == [0, 1, 1, 0]
  {
    b := Shape(ShiftIn(a.data, 9, 10, 111), a.segments, Bump(a.changes, 1, 2));
    assert a.segments[1].startKey == 79 && a.segments[2].startKey == 137 && a.segments[3].startKey == 148;
  }

  lemma MergeWindow(b: Shape)
    requires b.data == [12, 13, E, E, 45, 79, 84, E, 99, 111, 137] && StartAt(b.segments, [12, 79, 137, 148])
    ensures RealKeys(b.data[0..11]) == MERGED_KEYS
    ensures Narrowest(b.data, b.segments, 2, 2, 0, 3, 0, 11) && !LastIsFull(b.data, b.segments, 2)
  {
    hide Measured;
    MergeKeys(b.data);
    MergeLevels(b);
    assert Crowded(b.data, b.segments, 2, 0) && Crowded(b.data, b.segments, 2, 1);
  }

  lemma MergeLevels(b: Shape)
    requires b.data == [12, 13, E, E, 45, 79, 84, E, 99, 111, 137] && StartAt(b.segments, [12, 79, 137, 148])
    requires RealKeys(b.data[0..11]) == MERGED_KEYS
    ensures Measured(b.data, b.segments, 2, 0, 2, 2, 10, 11, true)
    ensures Measured(b.data, b.segments, 2, 1, 2, 3, 10, 11, true)
    ensures Measured(b.data, b.segments, 2, 2, 0, 3, 0, 11, false)
  {
    hide RealKeys, TooDense;
    assert b.segments[2].startKey == 137 && b.segments[3].startKey == 148;
    assert Pow2(0) == 1 && Pow2(1) == 2 && Pow2(2) == 4;
    assert WindowLo(2, 0) == 2 && WindowHi(2, 0, 4) == 2 && WindowLo(2, 1) == 2 && WindowHi(2, 1, 4) == 3;
    assert WindowLo(2, 2) == 0 && WindowHi(2, 2, 4) == 3;
    assert KeysIn(b.data, 10, 11) == 1 by { assert b.data[10..11] == [137]; RealKeysOfOne(137); }
    MergeLimits();
  }

  /** Of four segments, one may be nine tenths full, two 85 parts in a hundred, all four eight tenths. */
  lemma MergeLimits()
    ensures TooDense(1, 1, 0, 4) && TooDense(1, 1, 1, 4) && !TooDense(8, 11, 2, 4)
  {
    assert Height(4) == 2 by { assert HeightFrom(1, 4) == HeightFrom(2, 4); }
  }

  lemma MergeKeys(data: seq<int>)
    requires data == [12, 13, E, E, 45, 79, 84, E, 99, 111, 137]
    ensures RealKeys(data[0..11]) == MERGED_KEYS
  {
    hide RealKeys;
    var a := [12];
    var b := a + [13];
    var c := b + [E, E];
    var d := c + [45];
    var e := d + [79];
    var f := e + [84];
    var g := f + [E];
    var h := g + [99];
    var i := h + [111];
    RealKeysOfOne(12);
    RealKeysPush(a, 13);
    GapsAddNothing(b, [E, E]);
    RealKeysPush(c, 45);
    RealKeysPush(d, 79);
    RealKeysPush(e, 84);
    RealKeysPush(f, E);
    RealKeysPush(g, 99);
    RealKeysPush(h, 111);
    RealKeysPush(i, 137);
    assert data[0..11] == i + [137];
  }

  lemma MergeCount()
    ensures FitCount(MERGED_KEYS, 0, 11, 1) == 1
  {
    hide PinnedStarts, LaidPoints, SegmentCap;
    MergePoints();
    MergeStarts(LaidPoints(MERGED_KEYS, 0, 11));
    SmallCap(8);
  }

  lemma MergePoints()
    ensures LaidPoints(MERGED_KEYS, 0, 11)
      == [Point(12, 0), Point(13, 1), Point(45, 2), Point(79, 4), Point(84, 5), Point(99, 6), Point(111, 8), Point(137, 9)]
  {
  }

  lemma MergeStarts(pts: seq<Point>)
    requires pts == [Point(12, 0), Point(13, 1), Point(45, 2), Point(79, 4), Point(84, 5), Point(99, 6), Point(111, 8), Point(137, 9)]
    ensures PinnedStarts(pts, 0, 1, 4096) == [0]
  {
    hide PinnedStarts, NoSlopeReaches;
    RunIs(pts, 0, 8, 1, 4096, 0.072);
    NoStartsLeft(pts, 1, 4096);
  }

  /** The refresh of segment si leaves a list that index si - 1, next in the countdown, is not on. */
  ghost predicate Outruns(b: Shape, si: nat, density: real, eps: nat)
    requires 0.0 < density
  {
    && si < |b.changes| && b.changes[si] >= Threshold(eps) && !CountdownStays(b.data, b.segments, si, eps)
    && forall r, z :: RefreshStep(r, b, si, density, eps, z) ==> r.Window? && si - 1 >= |z.changes|
  }

  lemma MergeOutruns(b: Shape)
    requires b.data == [12, 13, E, E, 45, 79, 84, E, 99, 111, 137] && StartAt(b.segments, [12, 79, 137, 148])
    requires b.changes == [0, 1, 1, 0]
    ensures Outruns(b, 2, 0.75, 1)
  {
    hide StartAt, Narrowest, LastIsFull, RealKeys, FitCount, RefreshStep, WindowLo, WindowHi, LaidEvenly, FitOf, RelaidBy;
    MergeWindow(b);
    MergeCount();
    StartsCount(b.segments, [12, 79, 137, 148]);
    NarrowerStartLater();
    assert !CountdownStays(b.data, b.segments, 2, 1);
    forall r, z | RefreshStep(r, b, 2, 0.75, 1, z) ensures r.Window? && 1 >= |z.changes| {
      NarrowestDecides(r, b, 2, 0.75, 1, z, 2, 0, 3, 0, 11);
      NextIndexInRange(r, b, 2, 0.75, 1, z);
    }
  }

  lemma NarrowerStartLater()
    ensures WindowLo(2, 0) == 2 && WindowLo(2, 1) == 2
  {
    assert Pow2(0) == 1 && Pow2(1) == 2;
  }

  /** Laying out eight keys with eps 1, removing two and inserting one leaves an array in which the next
      insert counts its shift against segments 1 and 2, and refreshing segment 2 leaves a single
      segment: the countdown's next index, 1, is past the end of the list. */
  method CountdownOutruns() returns (a: GappedArray<int>)
    ensures fresh(a) && a.Valid() && a.density == 0.75 && a.eps == 1
    ensures InsertsAt(a.data, a.segments, 111, a.eps, 1, 9, 10, 1, 2)
    ensures Outruns(Shape(ShiftIn(a.data, 9, 10, 111), a.segments, Bump(a.segmentChanges, 1, 2)), 2, a.density, a.eps)
  {
    hide SortedSlots, SegmentsKept, StartAt, Entries, MapOf, InsertedAs, Outruns, ShiftIn, InsertsAt;
    a := CrowdedArray();
    ghost var before := a.Now();
    a.ValidParts();
    a.CoreParts();
    a.Insert(137, 0);
    a.ValidParts();
    a.CoreParts();
    TailInsert(before, a.Now());
    ghost var b := MergePlace(a.Now());
    MergeOutruns(b);
  }

  /** Eight keys laid out, and two of them removed. */
  method CrowdedArray() returns (a: GappedArray<int>)
    ensures fresh(a) && a.Valid() && a.density == 0.75 && a.eps == 1
    ensures a.data == [12, 13, E, E, 45, 79, 84, E, 99, E, E] && StartAt(a.segments, [12, 79, 148])
    ensures a.segmentChanges == Zeros(3)
  {
    hide LaidOut, SortedSlots, SegmentsKept, StartAt, Anchored, AllFitted, Entries, Zip;
    a := new GappedArray<int>.Build(CROWDED_KEYS, [0, 0, 0, 0, 0, 0, 0, 0], 0.75, 1, 0);
    CrowdedLayout(a.data, a.segments);
    StartsCount(a.segments, [12, 79, 148]);
    var removed := a.Remove(148);
    removed := a.Remove(40);
  }
}
