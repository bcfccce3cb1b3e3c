/** What a refresh does, as a relation between the slots, segments and counts before and after it
    (cpp/gapped_array.h: local_rebalance, refresh_segments): which window of segments is re-laid, what
    that makes of it, and how the countdown over the due segments goes on from there. */
module Refreshes {
  import opened Geometry
  import opened Segments
  import opened PinnedModel
  import opened Slots
  import opened SlotSearch
  import opened EvenLayout
  import opened Drift
  import opened SlotShift
  import opened Regions
  import opened Relays

  /** The part of an array a refresh works on. */
  datatype Shape = Shape(data: seq<int>, segments: seq<Segment>, changes: seq<nat>)

  // ---- Windows ----

  /** The window around segment si at a level: which segments, which slots, and whether its
      density is at or over the limit. */
  ghost predicate Measured(data: seq<int>, segments: seq<Segment>, si: nat, level: nat,
                           lo: int, hi: int, begin: int, end: int, dense: bool)
  {
    && lo == WindowLo(si, level) && hi == WindowHi(si, level, |segments|)
    && 0 <= lo <= si <= hi < |segments| && 0 <= begin <= end <= |data| && IsRegion(data, segments, lo, hi, begin, end)
    && dense == TooDense(KeysIn(data, begin, end), end - begin, level, |segments|)
  }

  lemma MeasuredOnce(data: seq<int>, segments: seq<Segment>, si: nat, level: nat,
                     lo: int, hi: int, begin: int, end: int, dense: bool,
                     lo': int, hi': int, begin': int, end': int, dense': bool)
    requires Measured(data, segments, si, level, lo, hi, begin, end, dense)
    requires Measured(data, segments, si, level, lo', hi', begin', end', dense')
    ensures lo == lo' && hi == hi' && begin == begin' && end == end' && dense == dense'
  {
    hide TooDense, KeysIn, WindowLo, WindowHi;
  }

  /** The window at this level is at or over its density limit. */
  ghost predicate Crowded(data: seq<int>, segments: seq<Segment>, si: nat, level: nat) {
    exists lo, hi, begin, end :: Measured(data, segments, si, level, lo, hi, begin, end, true)
  }

  ghost predicate CrowdedBelow(data: seq<int>, segments: seq<Segment>, si: nat, level: nat) {
    forall l :: 0 <= l < level ==> Crowded(data, segments, si, l)
  }

  lemma NothingNarrower(data: seq<int>, segments: seq<Segment>, si: nat)
    ensures CrowdedBelow(data, segments, si, 0)
  {
  }

  lemma OneMoreCrowded(data: seq<int>, segments: seq<Segment>, si: nat, level: nat, lo: int, hi: int, begin: int, end: int)
    requires Measured(data, segments, si, level, lo, hi, begin, end, true) && CrowdedBelow(data, segments, si, level)
    ensures CrowdedBelow(data, segments, si, level + 1)
  {
    hide Measured;
  }

  lemma NotYetWhole(data: seq<int>, segments: seq<Segment>, si: nat, level: nat, lo: int, hi: int, begin: int, end: int)
    requires Measured(data, segments, si, level, lo, hi, begin, end, true) && !(lo == 0 && hi + 1 == |segments|)
    ensures level < |segments|
  {
    WindowContains(si, level, |segments|);
    Pow2Grows(level);
  }

  /** The narrowest window around segment si that is under its density limit. */
  ghost predicate Narrowest(data: seq<int>, segments: seq<Segment>, si: nat, level: nat, lo: int, hi: int, begin: int, end: int) {
    Measured(data, segments, si, level, lo, hi, begin, end, false) && CrowdedBelow(data, segments, si, level)
  }

  lemma NarrowestOnce(data: seq<int>, segments: seq<Segment>, si: nat, level: nat, lo: int, hi: int, begin: int, end: int,
                      level': nat, lo': int, hi': int, begin': int, end': int)
    requires Narrowest(data, segments, si, level, lo, hi, begin, end)
    requires Narrowest(data, segments, si, level', lo', hi', begin', end')
    ensures level == level' && lo == lo' && hi == hi' && begin == begin' && end == end'
  {
    hide Measured;
    if level < level' {
      assert Crowded(data, segments, si, level);
      var a, b, c, d :| Measured(data, segments, si, level, a, b, c, d, true);
      MeasuredOnce(data, segments, si, level, lo, hi, begin, end, false, a, b, c, d, true);
    } else if level' < level {
      assert Crowded(data, segments, si, level');
      var a, b, c, d :| Measured(data, segments, si, level', a, b, c, d, true);
      MeasuredOnce(data, segments, si, level', lo', hi', begin', end', false, a, b, c, d, true);
    } else {
      MeasuredOnce(data, segments, si, level, lo, hi, begin, end, false, lo', hi', begin', end', false);
    }
  }

  // ---- One refresh ----

  /** How many slots a grown last region should have: the target density, and a free slot. */
  function Wanted(keys: nat, density: real): nat
    requires 0.0 < density
  {
    var w := CeilReal(keys as real / density);
    if w < keys + 1 then keys + 1 else w
  }

  /** A grown last region leaves a free slot and is no denser than the target. */
  lemma WantedHasRoom(keys: nat, density: real)
    requires 0.0 < density
    ensures keys < Wanted(keys, density)
    ensures keys as real <= density * Wanted(keys, density) as real
  {
    var q := keys as real / density;
    CeilAtLeast(q);
    MulMono(q, Wanted(keys, density) as real, density);
    assert q * density == keys as real;
  }

  /** Slots added at the end, up to n. */
  function Grown(data: seq<int>, n: nat): (r: seq<int>)
    ensures |data| <= |r| && r[..|data|] == data && |r| >= n
  {
    if n > |data| then data + Repeat(EMPTY_SLOT, n - |data|) else data
  }

  /** What a refresh did: rebuilt everything, or replaced segments lo..hi by fresh ones over slots
      [begin, end), chosen at a window level. */
  datatype Refresh = Full | Window(lo: nat, hi: nat, local: seq<Segment>, begin: nat, end: nat, level: nat)

  /** The last segment's region is filled: it gets more slots instead of a wider window. */
  ghost predicate LastIsFull(data: seq<int>, segments: seq<Segment>, si: nat) {
    si + 1 == |segments| && Crowded(data, segments, si, 0)
  }

  /** The last region given the slots it should have, and re-laid there. */
  ghost predicate GrownAndRelaid(data: seq<int>, segments: seq<Segment>, begin: nat, density: real, eps: nat,
                                 data': seq<int>, segments': seq<Segment>, local: seq<Segment>)
    requires 0.0 < density && segments != []
  {
    var si := |segments| - 1;
    begin <= |data| && IsRegion(data, segments, si, si, begin, |data|) &&
    (var grown := Grown(data, begin + Wanted(KeysIn(data, begin, |data|), density));
     RelaidBy(grown, segments, si, si, begin, |grown|, eps, data', segments', local))
  }

  /** Every window around segment si is crowded, the whole array included. */
  ghost predicate WholeCrowded(data: seq<int>, segments: seq<Segment>, si: nat) {
    exists level: nat :: WindowLo(si, level) == 0 && WindowHi(si, level, |segments|) + 1 == |segments|
      && CrowdedBelow(data, segments, si, level + 1)
  }

  /** What refreshing segment si makes of the array. */
  ghost predicate Refreshed(r: Refresh, data: seq<int>, segments: seq<Segment>, si: nat, density: real, eps: nat,
                            data': seq<int>, segments': seq<Segment>)
    requires 0.0 < density && si < |segments|
  {
    match r
    case Full =>
      !LastIsFull(data, segments, si) && WholeCrowded(data, segments, si) && LaidOut(data', segments', RealKeys(data), density, eps)
    case Window(lo, hi, local, begin, end, level) =>
      if LastIsFull(data, segments, si) then
        lo == hi == si && level == 0 && GrownAndRelaid(data, segments, begin, density, eps, data', segments', local) && end == |data'|
      else
        Narrowest(data, segments, si, level, lo, hi, begin, end)
        && RelaidBy(data, segments, lo, hi, begin, end, eps, data', segments', local)
  }

  ghost predicate CountsAfter(r: Refresh, si: nat, before: seq<nat>, after: seq<nat>)
    requires r.Window?
  {
    r.lo <= si <= r.hi < |before| && after == Splice(before, r.lo, r.hi, Zeros(|r.local|))
  }

  ghost predicate HasRoom(r: Refresh, keys: nat, total: nat, density: real)
    requires r.Window? && r.begin <= r.end && 0.0 < density
  {
    !TooDense(keys, r.end - r.begin, r.level, total) || (r.hi + 1 == total && r.end - r.begin >= Wanted(keys, density))
  }

  // ---- The countdown ----

  /** One refresh, counts included. */
  ghost predicate RefreshStep(r: Refresh, a: Shape, si: nat, density: real, eps: nat, b: Shape)
    requires 0.0 < density
  {
    && si < |a.segments| && Refreshed(r, a.data, a.segments, si, density, eps, b.data, b.segments)
    && (if r.Full? then b.changes == Zeros(|b.segments|) else CountsAfter(r, si, a.changes, b.changes))
  }

  lemma StepCounts(r: Refresh, a: Shape, si: nat, density: real, eps: nat, b: Shape)
    requires 0.0 < density && RefreshStep(r, a, si, density, eps, b) && r.Window?
    ensures CountsAfter(r, si, a.changes, b.changes)
  {
  }

  /** The countdown over segments si - 1 to first, highest first, from a to z. Where the index has
      fallen off the end of the counts there is nothing to refresh. */
  ghost predicate RefreshesTo(a: Shape, first: nat, si: nat, density: real, eps: nat, z: Shape)
    requires 0.0 < density
    decreases si, 0
  {
    if si <= first then z == a
    else if si - 1 >= |a.changes| || a.changes[si - 1] < Threshold(eps) then RefreshesTo(a, first, si - 1, density, eps, z)
    else
      var i: nat := si - 1;
      exists r, b :: RefreshStep(r, a, i, density, eps, b) && RestOf(r, b, first, i, density, eps, z)
  }

  /** A full rebuild ends the countdown. */
  ghost predicate RestOf(r: Refresh, b: Shape, first: nat, si: nat, density: real, eps: nat, z: Shape)
    requires 0.0 < density
    decreases si, 1
  {
    if r.Full? then z == b else RefreshesTo(b, first, si, density, eps, z)
  }

  /** What is left of the countdown at b, index si, is the rest of the countdown from a. */
  ghost predicate ContinuesFrom(a: Shape, first: nat, from: nat, density: real, eps: nat, b: Shape, si: nat)
    requires 0.0 < density
  {
    forall z :: RefreshesTo(b, first, si, density, eps, z) ==> RefreshesTo(a, first, from, density, eps, z)
  }

  lemma NothingDue(a: Shape, first: nat, from: nat, density: real, eps: nat, b: Shape, si: nat)
    requires 0.0 < density && first <= si && ContinuesFrom(a, first, from, density, eps, b, si + 1)
    requires si >= |b.changes| || b.changes[si] < Threshold(eps)
    ensures ContinuesFrom(a, first, from, density, eps, b, si)
  {
  }

  /** A refresh takes the countdown one index further, or ends it. */
  lemma StepDue(a: Shape, first: nat, from: nat, density: real, eps: nat, b: Shape, si: nat, r: Refresh, c: Shape)
    requires 0.0 < density && first <= si && ContinuesFrom(a, first, from, density, eps, b, si + 1)
    requires si < |b.changes| && b.changes[si] >= Threshold(eps) && RefreshStep(r, b, si, density, eps, c)
    ensures if r.Full? then RefreshesTo(a, first, from, density, eps, c) else ContinuesFrom(a, first, from, density, eps, c, si)
  {
    hide RefreshStep;
    if r.Full? {
      assert RestOf(r, c, first, si, density, eps, c);
      assert RefreshesTo(b, first, si + 1, density, eps, c);
    } else {
      forall z | RefreshesTo(c, first, si, density, eps, z) ensures RefreshesTo(a, first, from, density, eps, z) {
        assert RestOf(r, c, first, si, density, eps, z);
        assert RefreshesTo(b, first, si + 1, density, eps, z);
      }
    }
  }

  lemma CountdownOver(a: Shape, first: nat, from: nat, density: real, eps: nat, b: Shape)
    requires 0.0 < density && ContinuesFrom(a, first, from, density, eps, b, first)
    ensures RefreshesTo(a, first, from, density, eps, b)
  {
    assert RefreshesTo(b, first, first, density, eps, b);
  }

  /** After segment si is refreshed the countdown goes on to si - 1. That index is on the list exactly
      when this holds before the refresh: the last region is filled, or the narrowest window with room
      starts at most as many segments before si as there are segments after it and segments its keys
      are split into. */
  ghost predicate CountdownStays(data: seq<int>, segments: seq<Segment>, si: nat, eps: nat) {
    LastIsFull(data, segments, si) ||
    forall level: nat, lo: nat, hi: nat, begin: nat, end: nat :: Narrowest(data, segments, si, level, lo, hi, begin, end) ==>
      si - lo <= FitCount(RealKeys(data[begin..end]), begin, end, eps) + (|segments| - 1 - hi)
  }

  lemma NextIndexInRange(r: Refresh, a: Shape, si: nat, density: real, eps: nat, b: Shape)
    requires 0.0 < density && |a.changes| == |a.segments| && RefreshStep(r, a, si, density, eps, b) && r.Window?
    ensures si - 1 < |b.changes| <==> CountdownStays(a.data, a.segments, si, eps)
  {
    if !LastIsFull(a.data, a.segments, si) {
      var Window(lo, hi, local, begin, end, level) := r;
      FitHasCount(local, RealKeys(a.data[begin..end]), begin, end, eps);
      hide FitCount, RealKeys, FitOf, LaidEvenly, Narrowest, LastIsFull;
      forall level': nat, lo': nat, hi': nat, begin': nat, end': nat | Narrowest(a.data, a.segments, si, level', lo', hi', begin', end')
        ensures lo' == lo && hi' == hi && begin' == begin && end' == end
      {
        NarrowestOnce(a.data, a.segments, si, level, lo, hi, begin, end, level', lo', hi', begin', end');
      }
    }
  }

  /** Counts outside the indices still to visit are below the threshold. */
  ghost predicate CalmOutside(changes: seq<nat>, first: nat, si: nat, eps: nat) {
    forall s :: 0 <= s < |changes| && (s < first || si <= s) ==> changes[s] < Threshold(eps)
  }

  lemma RefreshCalms(before: seq<nat>, after: seq<nat>, r: Refresh, first: nat, si: nat, eps: nat)
    requires r.Window? && CountsAfter(r, si, before, after) && CalmOutside(before, first, si + 1, eps) && first <= si
    ensures CalmOutside(after, first, si, eps)
  {
    forall s | 0 <= s < |after| && (s < first || si <= s) ensures after[s] < Threshold(eps) {
      if s < r.lo {
        assert after[s] == before[s];
      } else if s >= r.lo + |r.local| {
        assert after[s] == before[s - |r.local| - r.lo + r.hi + 1];
      }
    }
  }

  lemma SpliceCalm(before: seq<nat>, after: seq<nat>, r: Refresh, si: nat, eps: nat)
    requires r.Window? && CountsAfter(r, si, before, after)
    requires forall s :: 0 <= s < |before| ==> before[s] < Threshold(eps)
    ensures forall s :: 0 <= s < |after| ==> after[s] < Threshold(eps)
  {
    forall s | 0 <= s < |after| ensures after[s] < Threshold(eps) {
      if s < r.lo {
        assert after[s] == before[s];
      } else if s >= r.lo + |r.local| {
        assert after[s] == before[s - |r.local| - r.lo + r.hi + 1];
      }
    }
  }

  lemma BumpCalm(changes: seq<nat>, first: nat, last: nat, eps: nat)
    requires forall s :: 0 <= s < |changes| ==> changes[s] < Threshold(eps)
    ensures var b := Bump(changes, first, last);
      forall s :: 0 <= s < |b| && (s < first || last < s) ==> b[s] < Threshold(eps)
  {
  }

  // ---- Where an insert goes ----

  /** The gap nearest to the insertion point, the right one first. */
  ghost predicate IsNearestGap(data: seq<int>, ip: nat, gap: nat) {
    && gap < |data| && data[gap] == EMPTY_SLOT
    && NoGapWithin(data, ip, if gap >= ip then gap - ip else ip - 1 - gap)
    && (gap < ip && 2 * ip - 1 - gap < |data| ==> IsReal(data[2 * ip - 1 - gap]))
  }

  function MaxGapScan(eps: nat): nat {
    if eps * 8 < 1 then 1 else eps * 8
  }

  /** The segments a shift is counted against, read off the slot the gap was in. */
  ghost predicate Touches(data: seq<int>, segments: seq<Segment>, owner: nat, ip: nat, gap: nat, first: nat, last: nat)
    requires gap < |data| && owner < |segments|
  {
    && (if gap + 1 < ip && data[gap] < segments[owner].startKey then Owns(segments, first, data[gap]) else first == owner)
    && (if ip < gap && owner + 1 < |segments| && data[gap] >= segments[owner + 1].startKey
        then Owns(segments, last, data[gap]) else last == owner)
  }

  /** An insert of an absent key finds this segment, this place, a gap within reach, and these
      segments to count the shift against. */
  ghost predicate InsertsAt(data: seq<int>, segments: seq<Segment>, key: int, eps: nat,
                            owner: nat, ip: nat, gap: nat, first: nat, last: nat) {
    && Owns(segments, owner, key) && IsLowerBound(data, ip, key) && (ip < |data| ==> data[ip] != key)
    && IsNearestGap(data, ip, gap) && gap <= ip + MaxGapScan(eps) && ip <= gap + MaxGapScan(eps) + 1
    && |ShiftIn(data, ip, gap, key)| == |data| && Touches(ShiftIn(data, ip, gap, key), segments, owner, ip, gap, first, last)
  }

  lemma NearestGapOnce(data: seq<int>, ip: nat, gap: nat, gap': nat)
    requires IsNearestGap(data, ip, gap) && IsNearestGap(data, ip, gap')
    ensures gap == gap'
  {
  }

  lemma InsertsAtOnce(data: seq<int>, segments: seq<Segment>, key: int, eps: nat, owner: nat, ip: nat, gap: nat, first: nat, last: nat,
                      owner': nat, ip': nat, gap': nat, first': nat, last': nat)
    requires InsertsAt(data, segments, key, eps, owner, ip, gap, first, last)
    requires InsertsAt(data, segments, key, eps, owner', ip', gap', first', last')
    ensures owner == owner' && ip == ip' && gap == gap' && first == first' && last == last'
  {
    hide ShiftIn, NoGapWithin;
    assert ip == ip' by { hide Owns, IsNearestGap, Touches; }
    NearestGapOnce(data, ip, gap, gap');
  }

  /** What inserting an absent key leaves when a gap is within reach: the key shifted in, the shift
      counted, and the due segments refreshed. */
  ghost predicate InsertedAs(a: Shape, key: int, density: real, eps: nat, z: Shape)
    requires 0.0 < density
  {
    forall owner, ip, gap, first, last: nat :: InsertsAt(a.data, a.segments, key, eps, owner, ip, gap, first, last)
      ==> Leaves(a, key, ip, gap, first, last, density, eps, z)
  }

  ghost predicate Leaves(a: Shape, key: int, ip: nat, gap: nat, first: nat, last: nat, density: real, eps: nat, z: Shape)
    requires 0.0 < density && ip <= |a.data| && gap < |a.data|
  {
    RefreshesTo(Shape(ShiftIn(a.data, ip, gap, key), a.segments, Bump(a.changes, first, last)), first, last + 1, density, eps, z)
  }

  lemma LeavesIs(a: Shape, key: int, ip: nat, gap: nat, first: nat, last: nat, density: real, eps: nat, b: Shape, z: Shape)
    requires 0.0 < density && ip <= |a.data| && gap < |a.data|
    requires b == Shape(ShiftIn(a.data, ip, gap, key), a.segments, Bump(a.changes, first, last))
    requires RefreshesTo(b, first, last + 1, density, eps, z)
    ensures Leaves(a, key, ip, gap, first, last, density, eps, z)
  {
    hide RefreshesTo;
  }

  /** What an insert leaves, given where it goes. */
  lemma PlacedLeaves(a: Shape, key: int, owner: nat, ip: nat, gap: nat, first: nat, last: nat, density: real, eps: nat, z: Shape, b: Shape)
    requires 0.0 < density && InsertedAs(a, key, density, eps, z) && ip <= |a.data| && gap < |a.data|
    requires InsertsAt(a.data, a.segments, key, eps, owner, ip, gap, first, last)
    requires b == Shape(ShiftIn(a.data, ip, gap, key), a.segments, Bump(a.changes, first, last))
    ensures RefreshesTo(b, first, last + 1, density, eps, z)
  {
    hide InsertsAt, RefreshesTo;
    assert Leaves(a, key, ip, gap, first, last, density, eps, z);
  }

  lemma NothingOwns(a: Shape, key: int, density: real, eps: nat, z: Shape)
    requires 0.0 < density && a.segments == []
    ensures InsertedAs(a, key, density, eps, z)
  {
  }

  lemma PresentIsNotPlaced(a: Shape, key: int, ip: nat, density: real, eps: nat, z: Shape)
    requires 0.0 < density && IsLowerBound(a.data, ip, key) && ip < |a.data| && a.data[ip] == key
    ensures InsertedAs(a, key, density, eps, z)
  {
    hide ShiftIn, IsNearestGap, Touches, Owns, Leaves;
  }

  lemma NoGapIsNotPlaced(a: Shape, key: int, ip: nat, density: real, eps: nat, z: Shape)
    requires 0.0 < density && IsLowerBound(a.data, ip, key) && NoGapWithin(a.data, ip, MaxGapScan(eps) + 1)
    ensures InsertedAs(a, key, density, eps, z)
  {
    hide ShiftIn, Touches, Owns, Leaves;
  }

  lemma PlacedOnce(a: Shape, key: int, owner: nat, ip: nat, gap: nat, first: nat, last: nat, density: real, eps: nat, z: Shape)
    requires 0.0 < density && ip <= |a.data| && gap < |a.data| && |ShiftIn(a.data, ip, gap, key)| == |a.data|
    requires Owns(a.segments, owner, key) && IsLowerBound(a.data, ip, key) && (ip < |a.data| ==> a.data[ip] != key)
    requires IsNearestGap(a.data, ip, gap) && gap <= ip + MaxGapScan(eps) && ip <= gap + MaxGapScan(eps) + 1
    requires Touches(ShiftIn(a.data, ip, gap, key), a.segments, owner, ip, gap, first, last)
    requires Leaves(a, key, ip, gap, first, last, density, eps, z)
    ensures InsertedAs(a, key, density, eps, z)
  {
    hide Leaves, Owns, IsLowerBound, IsNearestGap, ShiftIn, Touches, MaxGapScan;
    assert InsertsAt(a.data, a.segments, key, eps, owner, ip, gap, first, last);
    forall owner', ip', gap', first', last': nat | InsertsAt(a.data, a.segments, key, eps, owner', ip', gap', first', last')
      ensures ip == ip' && gap == gap' && first == first' && last == last'
    {
      InsertsAtOnce(a.data, a.segments, key, eps, owner, ip, gap, first, last, owner', ip', gap', first', last');
    }
  }

  // ---- The three outcomes of a refresh ----

  /** Whether the segment's own region is crowded decides the first case. */
  lemma LastFullness(data: seq<int>, segments: seq<Segment>, si: nat, begin: nat, end: nat, dense: bool)
    requires si < |segments| && begin <= end <= |data| && IsRegion(data, segments, si, si, begin, end)
    requires dense == TooDense(KeysIn(data, begin, end), end - begin, 0, |segments|)
    ensures LastIsFull(data, segments, si) <==> si + 1 == |segments| && dense
  {
    WindowOfOne(si, |segments|);
    assert Measured(data, segments, si, 0, si, si, begin, end, dense);
    hide Measured;
    if Crowded(data, segments, si, 0) {
      var a, b, c, d :| Measured(data, segments, si, 0, a, b, c, d, true);
      MeasuredOnce(data, segments, si, 0, si, si, begin, end, dense, a, b, c, d, true);
    }
  }

  lemma GrownStep(a: Shape, b: Shape, begin: nat, local: seq<Segment>, density: real, eps: nat) returns (r: Refresh)
    requires 0.0 < density && a.segments != [] && |a.changes| == |a.segments|
    requires var si := |a.segments| - 1;
      && LastIsFull(a.data, a.segments, si)
      && GrownAndRelaid(a.data, a.segments, begin, density, eps, b.data, b.segments, local)
      && b.changes == Splice(a.changes, si, si, Zeros(|local|))
    ensures r == Window(|a.segments| - 1, |a.segments| - 1, local, begin, |b.data|, 0)
    ensures RefreshStep(r, a, |a.segments| - 1, density, eps, b)
  {
    hide LastIsFull, GrownAndRelaid;
    r := Window(|a.segments| - 1, |a.segments| - 1, local, begin, |b.data|, 0);
  }

  lemma WindowStep(a: Shape, si: nat, b: Shape, level: nat, lo: nat, hi: nat, begin: nat, end: nat, local: seq<Segment>,
                   density: real, eps: nat) returns (r: Refresh)
    requires 0.0 < density && si < |a.segments| == |a.changes| && !LastIsFull(a.data, a.segments, si)
    requires Narrowest(a.data, a.segments, si, level, lo, hi, begin, end)
    requires RelaidBy(a.data, a.segments, lo, hi, begin, end, eps, b.data, b.segments, local)
    requires b.changes == Splice(a.changes, lo, hi, Zeros(|local|))
    ensures r == Window(lo, hi, local, begin, end, level) && RefreshStep(r, a, si, density, eps, b)
  {
    r := Window(lo, hi, local, begin, end, level);
    assert lo <= si <= hi < |a.changes|;
    hide LastIsFull, Narrowest, RelaidBy;
  }

  lemma FullStep(a: Shape, si: nat, b: Shape, level: nat, lo: int, hi: int, begin: int, end: int, density: real, eps: nat)
    requires 0.0 < density && si < |a.segments| && !LastIsFull(a.data, a.segments, si)
    requires Measured(a.data, a.segments, si, level, lo, hi, begin, end, true) && lo == 0 && hi + 1 == |a.segments|
    requires CrowdedBelow(a.data, a.segments, si, level + 1)
    requires LaidOut(b.data, b.segments, RealKeys(a.data), density, eps) && b.changes == Zeros(|b.segments|)
    ensures RefreshStep(Full, a, si, density, eps, b)
  {
    assert WindowLo(si, level) == 0 && WindowHi(si, level, |a.segments|) + 1 == |a.segments|;
    assert WholeCrowded(a.data, a.segments, si) by { hide WindowLo, WindowHi, CrowdedBelow; }
    hide LastIsFull, Measured, LaidOut, CrowdedBelow, WholeCrowded;
  }

  // ---- What a refresh must have done ----

  /** When only one segment is due, the countdown is one refresh. */
  lemma OneDue(a: Shape, si: nat, density: real, eps: nat, z: Shape) returns (r: Refresh)
    requires 0.0 < density && RefreshesTo(a, si, si + 1, density, eps, z)
    requires si < |a.changes| && a.changes[si] >= Threshold(eps)
    ensures RefreshStep(r, a, si, density, eps, z)
  {
    hide RefreshStep;
    var r0, b :| RefreshStep(r0, a, si, density, eps, b) && RestOf(r0, b, si, si, density, eps, z);
    assert !r0.Full? ==> RefreshesTo(b, si, si, density, eps, z);
    r := r0;
  }

  /** The narrowest window with room, short of a wider one over everything, is the one re-laid. */
  lemma NarrowestDecides(r: Refresh, a: Shape, si: nat, density: real, eps: nat, b: Shape,
                         level: nat, lo: nat, hi: nat, begin: nat, end: nat)
    requires 0.0 < density && RefreshStep(r, a, si, density, eps, b) && !LastIsFull(a.data, a.segments, si)
    requires Narrowest(a.data, a.segments, si, level, lo, hi, begin, end)
    requires forall l: nat :: l < level ==> !(WindowLo(si, l) == 0 && WindowHi(si, l, |a.segments|) + 1 == |a.segments|)
    ensures r.Window? && r.lo == lo && r.hi == hi && r.begin == begin && r.end == end
    ensures RelaidBy(a.data, a.segments, lo, hi, begin, end, eps, b.data, b.segments, r.local)
    ensures b.changes == Splice(a.changes, lo, hi, Zeros(|r.local|))
  {
    hide Measured, RelaidBy, LaidOut, LastIsFull, WindowLo, WindowHi;
    if r.Full? {
      var l: nat :| WindowLo(si, l) == 0 && WindowHi(si, l, |a.segments|) + 1 == |a.segments| && CrowdedBelow(a.data, a.segments, si, l + 1);
      assert Crowded(a.data, a.segments, si, level);
      var x, y, u, v :| Measured(a.data, a.segments, si, level, x, y, u, v, true);
      MeasuredOnce(a.data, a.segments, si, level, lo, hi, begin, end, false, x, y, u, v, true);
    } else {
      NarrowestOnce(a.data, a.segments, si, level, lo, hi, begin, end, r.level, r.lo, r.hi, r.begin, r.end);
    }
  }
}
