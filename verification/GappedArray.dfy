/** The gapped array (cpp/gapped_array.h): a sorted array with holes, indexed by a pinned
    segmented model that only says where searches start. As a value it is a map; inside,
    every key a segment was fit on stays within eps plus the segment's change count of where
    the segment's line puts it. */
module GappedArray {
  import opened Geometry
  import opened FitLines
  import opened Segments
  import opened PinnedModel
  import opened Slots
  import opened SlotSearch
  import opened EvenLayout
  import opened Drift
  import opened Coverage
  import opened SlotShift
  import opened Regions
  import opened Relays
  import opened Refreshes

  class GappedArray<V> {
    const density: real
    const eps: nat
    const emptyValue: V // what a slot without a key holds

    var data: seq<int>
    var vals: seq<V>               // parallel to data
    var segments: seq<Segment>
    var segmentChanges: seq<nat>   // parallel to segments
    var count: nat
    var rebalanceCount: nat        // full rebuilds

    ghost var fitted: seq<set<int>> // which keys each segment was fit on, re-inserted ones dropped

    /** The parts in step with one another, except for the threshold: keys stay near the line they were
        fit to, and every other key has been counted. */
    ghost predicate Core()
      reads this
    {
      && 0.0 < density
      && |vals| == |data| && |segmentChanges| == |segments|
      && SortedSlots(data) && count == |Entries(data, vals)|
      && (segments == [] <==> data == []) && SegmentsKept(data, segments, segmentChanges, fitted, eps)
    }

    /** The part of the array a refresh works on. */
    ghost function Now(): Shape
      reads this
    {
      Shape(data, segments, segmentChanges)
    }

    /** Every segment's anchor is in the array, and is a key the segment was fit on. Only a remove can
        undo this. */
    ghost predicate AnchorsHeld()
      reads this
    {
      Anchored(data, segments, fitted)
    }

    /** Between operations no segment has reached its refresh threshold. */
    ghost predicate Valid()
      reads this
    {
      Core() && forall s :: 0 <= s < |segmentChanges| ==> segmentChanges[s] < Threshold(eps)
    }

    ghost function Es(): seq<(int, V)>
      reads this
      requires Core()
    {
      Entries(data, vals)
    }

    lemma CoreParts()
      requires Core()
      ensures 0.0 < density && |vals| == |data| && |segmentChanges| == |segments| == |fitted|
      ensures SortedSlots(data) && count == |Entries(data, vals)| && (count > 0 ==> data != [] && Entries(data, vals) != [])
      ensures (segments == [] <==> data == []) && SegmentsKept(data, segments, segmentChanges, fitted, eps)
      ensures Es() == Entries(data, vals) && AnchorsHeld() == Anchored(data, segments, fitted)
      ensures Now() == Shape(data, segments, segmentChanges)
    {
    }

    lemma ValidParts()
      requires Valid()
      ensures Core() && Model() == MapOf(Es())
      ensures forall s :: 0 <= s < |segmentChanges| ==> segmentChanges[s] < Threshold(eps)
    {
    }

    lemma EmptyHasNoKey(key: int)
      requires Core() && data == []
      ensures key !in Model()
    {
    }

    lemma CoreHolds()
      requires 0.0 < density && |vals| == |data| && |segmentChanges| == |segments|
      requires SortedSlots(data) && count == |Entries(data, vals)|
      requires (segments == [] <==> data == []) && SegmentsKept(data, segments, segmentChanges, fitted, eps)
      ensures Core() && Es() == Entries(data, vals) && AnchorsHeld() == Anchored(data, segments, fitted)
      ensures Now() == Shape(data, segments, segmentChanges)
    {
    }

    /** The map this array is. */
    ghost function Model(): map<int, V>
      reads this
      requires Core()
    {
      MapOf(Es())
    }

    /** Lays out a sorted unique key list with its values. */
    constructor Build(sortedKeys: seq<int>, values: seq<V>, targetDensity: real, eps: nat, emptyValue: V)
      requires 0.0 < targetDensity && |values| == |sortedKeys|
      requires StrictKeys(sortedKeys)
      ensures Valid() && Es() == Zip(sortedKeys, values)
      ensures this.density == targetDensity && this.eps == eps
      ensures LaidOut(data, segments, sortedKeys, targetDensity, eps) && segmentChanges == Zeros(|segments|)
      ensures AnchorsHeld() && AllFitted(data, segments, fitted, 0, |data|)
    {
      this.density, this.eps, this.emptyValue := targetDensity, eps, emptyValue;
      data, vals, segments, segmentChanges, count, rebalanceCount := [], [], [], [], 0, 0;
      fitted := [];
      new;
      Layout(sortedKeys, values);
    }

    /** A fresh layout at the target density, refit from scratch. */
    method Layout(keys: seq<int>, values: seq<V>)
      requires 0.0 < density && |values| == |keys|
      requires StrictKeys(keys)
      modifies this
      ensures Valid() && Es() == Zip(keys, values) && rebalanceCount == old(rebalanceCount)
      ensures |data| >= |keys| && (keys != [] ==> segments != [])
      ensures LaidOut(data, segments, keys, density, eps) && segmentChanges == Zeros(|segments|)
      ensures AnchorsHeld() && AllFitted(data, segments, fitted, 0, |data|)
    {
      data, vals, segments, fitted := Spread(keys, values, density, eps, emptyValue);
      LayoutParts(data, segments, keys, density, eps, fitted);
      hide Entries, SortedSlots, LaidOut, Fresh, AllFitted, SegmentsKept;
      count := |keys|;
      segmentChanges := Zeros(|segments|);
    }

    // ---- Lookups ----

    /** The first real key >= target, starting from the model's prediction. */
    method LowerBoundIndex(target: int) returns (i: nat)
      requires Core() && target < EMPTY_SLOT
      ensures IsLowerBound(data, i, target)
    {
      if segments == [] || data == [] { return |data|; }
      var s := FindSegmentIndex(segments, target);
      i := Locate(data, eps, PredictFrom(segments, s, target, |data|), target);
    }

    /** The search may just as well start anywhere else. */
    method LowerBoundFrom(start: int, target: int) returns (i: nat)
      requires Core() && target < EMPTY_SLOT
      ensures IsLowerBound(data, i, target)
    {
      i := Locate(data, eps, start, target);
    }

    method Search(key: int) returns (found: bool, idx: nat)
      requires Core() && key < EMPTY_SLOT
      ensures found <==> key in Model()
      ensures found ==> idx < |data| && data[idx] == key && IsLowerBound(data, idx, key)
    {
      idx := LowerBoundIndex(key);
      found := idx != |data| && data[idx] == key;
      LowerBoundSplits(data, vals, idx, key);
      MapKeys(Es(), key);
    }

    method Get(key: int) returns (found: bool, value: V)
      requires Core() && key < EMPTY_SLOT
      ensures found <==> key in Model()
      ensures found ==> value == Model()[key]
    {
      var idx;
      found, idx := Search(key);
      value := emptyValue;
      if found {
        value := vals[idx];
        SlotMeansEntry(data, vals, idx);
      }
    }

    /** All entries with keys in [lo, hi], in key order. */
    method RangeScan(lo: int, hi: int) returns (results: seq<(int, V)>)
      requires Core() && lo < EMPTY_SLOT
      ensures results == RangeOf(Es(), lo, hi)
      ensures MapOf(results) == Restrict(Model(), lo, hi) && SortedEntries(results)
    {
      var idx := LowerBoundIndex(lo);
      NothingBelow(data, vals, idx, lo, hi);
      results := ScanFrom(data, vals, idx, lo, hi);
      RangeIsRestriction(Es(), lo, hi);
      EntriesSorted(data, vals);
      RangeSorted(Es(), lo, hi);
    }

    /** The number of keys. */
    method Size() returns (n: nat)
      requires Core()
      ensures n == |Model()|
    {
      EntriesSorted(data, vals);
      MapOfSorted(Es());
      n := count;
    }

    // ---- Removal ----

    /** Turns the key's slot back into a gap; nothing else moves and the model is untouched. */
    method Remove(key: int) returns (removed: bool)
      requires Valid() && key < EMPTY_SLOT
      modifies this`data, this`vals, this`count
      ensures Valid()
      ensures removed == (key in old(Model()))
      ensures Model() == old(Model()) - {key}
      ensures |data| == |old(data)|
      ensures forall p :: 0 <= p < |data| ==> data[p] == if old(data[p]) == key then EMPTY_SLOT else old(data[p])
    {
      var idx;
      removed, idx := Search(key);
      OnlySlotOf(data, vals, idx, key, removed);
      if !removed {
        return;
      }
      RemoveSlot(data, vals, idx, emptyValue);
      EmptyKeepsSegments(data, idx, segments, segmentChanges, fitted, eps);
      data := data[idx := EMPTY_SLOT];
      vals := vals[idx := emptyValue];
      count := count - 1;
    }

    // ---- Rebalancing ----

    /** The full rebuild: a fresh layout of whatever is stored. */
    method Rebalance()
      requires Core()
      modifies this
      ensures Valid() && Es() == old(Es())
      ensures rebalanceCount == old(rebalanceCount) + 1
      ensures count > 0 ==> segments != []
      ensures LaidOut(data, segments, RealKeys(old(data)), density, eps) && segmentChanges == Zeros(|segments|)
      ensures AnchorsHeld() && AllFitted(data, segments, fitted, 0, |data|)
    {
      var keys, values := CollectAll(data, vals, emptyValue);
      EntriesKeys(data, vals, keys, values);
      Layout(keys, values);
      rebalanceCount := rebalanceCount + 1;
    }

    /** The full rebuild that also makes room for a new key. */
    method RebalanceWith(newKey: int, value: V)
      requires Core() && newKey < EMPTY_SLOT && newKey !in Model()
      modifies this
      ensures Valid() && Model() == old(Model())[newKey := value]
      ensures rebalanceCount == old(rebalanceCount) + 1
      ensures AnchorsHeld() && AllFitted(data, segments, fitted, 0, |data|)
    {
      var keys, values := CollectAll(data, vals, emptyValue);
      var allKeys, allValues := InsertSorted(keys, values, newKey, value);
      Layout(allKeys, allValues);
      rebalanceCount := rebalanceCount + 1;
    }

    method Region(lo: nat, hi: nat) returns (begin: nat, end: nat)
      requires Core() && lo <= hi < |segments|
      ensures begin <= end <= |data| && IsRegion(data, segments, lo, hi, begin, end)
    {
      if lo == 0 { begin := 0; } else { begin := LowerBoundIndex(segments[lo].startKey); }
      if hi + 1 == |segments| { end := |data|; } else { end := LowerBoundIndex(segments[hi + 1].startKey); }
      if lo != 0 && hi + 1 != |segments| {
        LowerBoundsOrdered(data, begin, segments[lo].startKey, end, segments[hi + 1].startKey);
      }
    }

    /** Re-lays the keys of a region evenly and replaces its segments with a fresh fit. */
    method Relay(lo: nat, hi: nat, begin: nat, end: nat) returns (local: seq<Segment>)
      requires Core() && lo <= hi < |segments| && count > 0
      requires IsRegion(data, segments, lo, hi, begin, end)
      modifies this`data, this`vals, this`segments, this`segmentChanges, this`fitted
      ensures Core() && Es() == old(Es()) && segments != []
      ensures RelaidBy(old(data), old(segments), lo, hi, begin, end, eps, data, segments, local)
      ensures segmentChanges == Splice(old(segmentChanges), lo, hi, Zeros(|local|)) && |data| == |old(data)|
      ensures RealKeys(data[begin..end]) == RealKeys(old(data)[begin..end])
      ensures AllFitted(data, segments, fitted, begin, end) && (old(AnchorsHeld()) ==> AnchorsHeld())
    {
      ghost var data0 := data;
      hide *;
      CoreParts();
      RegionInside(data, segments, lo, hi, begin, end);
      ghost var localFitted;
      data, vals, local, localFitted := RelayRegion(data, vals, segments, lo, hi, begin, end, eps, emptyValue);
      SpliceKeepsAll(data0, data, begin, end, segments, segmentChanges, fitted, lo, hi, local, localFitted, eps);
      segments := Splice(segments, lo, hi, local);
      segmentChanges := Splice(segmentChanges, lo, hi, Zeros(|local|));
      fitted := Splice(fitted, lo, hi, localFitted);
      CoreHolds();
    }

    /** Grows the last region at the end when appends have filled it. */
    method GrowTo(newSize: nat)
      requires Core() && newSize >= |data| && data != []
      modifies this`data, this`vals
      ensures Core() && Es() == old(Es()) && |data| == newSize && data == Grown(old(data), newSize)
      ensures old(AnchorsHeld()) ==> AnchorsHeld()
    {
      var more := newSize - |data|;
      GrowEntries(data, vals, more, emptyValue);
      GrowKeepsSegments(data, more, segments, segmentChanges, fitted, eps);
      data := data + Repeat(EMPTY_SLOT, more);
      vals := vals + Repeat(emptyValue, more);
    }

    /** Decides whether a window is over the density limit of its level. */
    method IsTooDense(keys: nat, slots: nat, level: nat) returns (dense: bool)
      ensures dense == TooDense(keys, slots, level, |segments|)
    {
      if keys == 0 { return false; }
      var height, width := 0, 1;
      while width < |segments|
        invariant width == Pow2(height) && HeightFrom(height, |segments|) == Height(|segments|)
        decreases |segments| - width
      {
        height, width := height + 1, width * 2;
      }
      var t := if height == 0 then 0.0 else MinReal(1.0, level as real / height as real);
      var limit := SEGMENT_DENSITY_LIMIT - (SEGMENT_DENSITY_LIMIT - ARRAY_DENSITY_LIMIT) * t;
      dense := keys as real >= limit * slots as real;
    }

    /** The aligned window around segment si at one level, and whether it is crowded. */
    method Measure(si: nat, level: nat) returns (lo: nat, hi: nat, begin: nat, end: nat, dense: bool)
      requires Core() && si < |segments|
      ensures Measured(data, segments, si, level, lo, hi, begin, end, dense)
    {
      WindowContains(si, level, |segments|);
      hide TooDense, KeysIn, IsRegion, WindowLo, WindowHi, SortedSlots, SegmentsKept, Entries;
      lo, hi := WindowLo(si, level), WindowHi(si, level, |segments|);
      begin, end := Region(lo, hi);
      var keys := CountKeys(data, begin, end);
      dense := IsTooDense(keys, end - begin, level);
    }

    /** The narrowest window around segment si that is under its density limit, widening by
        doubling aligned windows; `whole` when even the whole array is over its limit. */
    method ChooseWindow(si: nat) returns (lo: nat, hi: nat, begin: nat, end: nat, whole: bool, level: nat)
      requires Core() && si < |segments|
      ensures Measured(data, segments, si, level, lo, hi, begin, end, whole)
      ensures CrowdedBelow(data, segments, si, if whole then level + 1 else level)
      ensures whole ==> lo == 0 && hi + 1 == |segments|
    {
      NothingNarrower(data, segments, si);
      hide *;
      level := 0;
      lo, hi, begin, end, whole := Measure(si, 0);
      while whole
        invariant Measured(data, segments, si, level, lo, hi, begin, end, whole)
        invariant CrowdedBelow(data, segments, si, level)
        decreases |segments| + 1 - level
      {
        OneMoreCrowded(data, segments, si, level, lo, hi, begin, end);
        if lo == 0 && hi + 1 == |segments| {
          return;
        }
        NotYetWhole(data, segments, si, level, lo, hi, begin, end);
        level := level + 1;
        lo, hi, begin, end, whole := Measure(si, level);
      }
    }

    /** The last region, filled by appends, gets more slots at the end before it is re-laid. */
    method GrowAndRelay(keys: nat, begin: nat) returns (local: seq<Segment>)
      requires Core() && count > 0 && segments != [] && begin <= |data|
      requires IsRegion(data, segments, |segments| - 1, |segments| - 1, begin, |data|)
      requires keys == KeysIn(data, begin, |data|) && keys > 0
      modifies this`data, this`vals, this`segments, this`segmentChanges, this`fitted
      ensures Core() && segments != [] && Es() == old(Es()) && begin <= |data|
      ensures GrownAndRelaid(old(data), old(segments), begin, density, eps, data, segments, local)
      ensures segmentChanges == Splice(old(segmentChanges), |old(segments)| - 1, |old(segments)| - 1, Zeros(|local|))
      ensures KeysIn(data, begin, |data|) == keys && |data| - begin >= Wanted(keys, density)
      ensures AllFitted(data, segments, fitted, begin, |data|) && (old(AnchorsHeld()) ==> AnchorsHeld())
    {
      hide *;
      CoreParts();
      var wanted := Wanted(keys, density);
      ghost var data0, segments0 := data, segments;
      if begin + wanted > |data| {
        RegionNotEmpty(data, begin);
        GrowTo(begin + wanted);
        GrownRegion(data0, begin + wanted, segments, |segments| - 1, begin);
        GrownKeys(data0, begin + wanted, begin);
      } else {
        NotGrown(data, begin + wanted);
      }
      CoreParts();
      local := Relay(|segments| - 1, |segments| - 1, begin, |data|);
      GrownIsRelaid(data0, segments0, begin, density, eps, data, segments, local);
    }

    /** Refreshes segment si. Only the layout changes: the entries stay, and so do the anchors. Unless
        the whole array had to be rebuilt, the counts of one window of segments around si become zero
        and all others stay, the relaid window has room to spare, and its keys are all fitted. What
        exactly is re-laid, and whether the countdown's next index is still on the list, can be told
        from the array before. */
    method LocalRebalance(si: nat) returns (ghost r: Refresh)
      requires Core() && count > 0 && si < |segments|
      modifies this
      ensures Core() && segments != [] && Es() == old(Es()) && (old(AnchorsHeld()) ==> AnchorsHeld())
      ensures RefreshStep(r, old(Now()), si, density, eps, Now())
      ensures r.Full? ==> rebalanceCount == old(rebalanceCount) + 1 && Valid()
      ensures r.Window? ==> rebalanceCount == old(rebalanceCount)
      ensures r.Window? ==> (si - 1 < |segmentChanges| <==> CountdownStays(old(data), old(segments), si, eps))
      ensures r.Window? ==> r.begin <= r.end <= |data| && HasRoom(r, KeysIn(data, r.begin, r.end), |old(segments)|, density)
      ensures r.Window? ==> AllFitted(data, segments, fitted, r.begin, r.end)
    {
      ghost var a := Now();
      hide Entries, SortedSlots, SegmentsKept, TooDense, KeysIn, CrowdedBelow, AllFitted, Anchored, RelaidBy, LaidOut, GrownAndRelaid,
        LastIsFull, WindowLo, WindowHi, IsRegion, Measured, CountdownStays, RefreshStep;
      var begin, end := Region(si, si);
      var keys := CountKeys(data, begin, end);
      var dense := IsTooDense(keys, end - begin, 0);
      DenseHasKeys(keys, end - begin, 0, |segments|);
      LastFullness(data, segments, si, begin, end, dense);
      if si + 1 == |segments| && dense {
        RegionToEnd(data, segments, si, begin, end);
        var local := GrowAndRelay(keys, begin);
        r := GrownStep(a, Now(), begin, local, density, eps);
      } else {
        r := RelayWindow(si);
      }
      if r.Window? { NextIndexInRange(r, a, si, density, eps, Now()); }
    }

    /** The refresh of a segment that is not the last one filled. */
    method RelayWindow(si: nat) returns (ghost r: Refresh)
      requires Core() && count > 0 && si < |segments| && !LastIsFull(data, segments, si)
      modifies this
      ensures Core() && segments != [] && Es() == old(Es()) && (old(AnchorsHeld()) ==> AnchorsHeld())
      ensures RefreshStep(r, old(Now()), si, density, eps, Now())
      ensures r.Full? ==> rebalanceCount == old(rebalanceCount) + 1 && Valid()
      ensures r.Window? ==> rebalanceCount == old(rebalanceCount)
      ensures r.Window? ==> r.begin <= r.end <= |data| && HasRoom(r, KeysIn(data, r.begin, r.end), |old(segments)|, density)
      ensures r.Window? ==> AllFitted(data, segments, fitted, r.begin, r.end)
    {
      ghost var a := Now();
      hide Entries, SortedSlots, SegmentsKept, TooDense, CrowdedBelow, RealKeys, AllFitted, Anchored, RelaidBy, LaidOut, LastIsFull,
        WindowLo, WindowHi, IsRegion, RefreshStep;
      var lo, hi, begin, end, whole, level := ChooseWindow(si);
      if whole {
        Rebalance();
        FullStep(a, si, Now(), level, lo, hi, begin, end, density, eps);
        r := Full;
        return;
      }
      var local := Relay(lo, hi, begin, end);
      r := WindowStep(a, si, Now(), level, lo, hi, begin, end, local, density, eps);
    }

    /** The countdown over [first, last]: from the highest index down, each segment that is due is
        refreshed. A widened refresh can merge segments, so the index is checked against the current
        list before its count is read. */
    method RefreshSegments(first: nat, last: nat)
      requires Core() && count > 0 && first <= last < |segments|
      requires forall s :: 0 <= s < |segmentChanges| && (s < first || last < s) ==> segmentChanges[s] < Threshold(eps)
      modifies this
      ensures Valid() && segments != [] && Es() == old(Es()) && (old(AnchorsHeld()) ==> AnchorsHeld())
      ensures RefreshesTo(old(Now()), first, last + 1, density, eps, Now())
    {
      ghost var a := Now();
      var si := last + 1;
      hide RefreshStep, RefreshesTo, Anchored, Entries, SortedSlots, SegmentsKept;
      while si > first
        invariant first <= si && Core() && segments != [] && Es() == old(Es()) && (old(AnchorsHeld()) ==> AnchorsHeld())
        invariant CalmOutside(segmentChanges, first, si, eps)
        invariant ContinuesFrom(a, first, last + 1, density, eps, Now(), si)
        decreases si
      {
        si := si - 1;
        if si >= |segmentChanges| || segmentChanges[si] < Threshold(eps) {
          NothingDue(a, first, last + 1, density, eps, Now(), si);
          continue;
        }
        ghost var b := Now();
        var fullRebuilds := rebalanceCount;
        ghost var r := LocalRebalance(si);
        if rebalanceCount != fullRebuilds { // a full rebuild refreshed everything
          StepDue(a, first, last + 1, density, eps, b, si, r, Now());
          return;
        }
        StepCounts(r, b, si, density, eps, Now());
        RefreshCalms(b.changes, segmentChanges, r, first, si, eps);
        StepDue(a, first, last + 1, density, eps, b, si, r, Now());
      }
      CountdownOver(a, first, last + 1, density, eps, Now());
    }

    // ---- Inserts ----

    method MoveSlot(from: nat, to: nat)
      requires from < |data| && to < |data| && |vals| == |data|
      modifies this`data, this`vals
      ensures data == old(data)[to := old(data)[from]] && vals == old(vals)[to := old(vals)[from]]
    {
      data := data[to := data[from]];
      vals := vals[to := vals[from]];
    }

    method PlaceSlot(idx: nat, key: int, value: V)
      requires idx < |data| && |vals| == |data|
      modifies this`data, this`vals
      ensures data == old(data)[idx := key] && vals == old(vals)[idx := value]
    {
      data := data[idx := key];
      vals := vals[idx := value];
    }

    /** Shifts the slots between the insertion point and the gap over by one and puts the key in. */
    method ShiftToGap(ip: nat, gap: nat, key: int, value: V)
      requires |vals| == |data| && ip <= |data| && gap < |data|
      modifies this`data, this`vals
      ensures data == ShiftIn(old(data), ip, gap, key) && vals == ShiftIn(old(vals), ip, gap, value)
    {
      ghost var d, w := data, vals;
      hide ShiftIn, LeftShifted, RightShifted;
      if gap < ip {
        var idx := gap;
        LeftStart(d, gap);
        LeftStart(w, gap);
        while idx < ip - 1
          invariant gap <= idx <= ip - 1 && |data| == |vals| == |d|
          invariant data == LeftShifted(d, gap, idx) && vals == LeftShifted(w, gap, idx)
        {
          LeftStep(d, gap, idx);
          LeftStep(w, gap, idx);
          MoveSlot(idx + 1, idx);
          idx := idx + 1;
        }
        LeftEnd(d, ip, gap, key);
        LeftEnd(w, ip, gap, value);
        PlaceSlot(ip - 1, key, value);
      } else {
        var idx := gap;
        RightStart(d, gap);
        RightStart(w, gap);
        while idx > ip
          invariant ip <= idx <= gap && |data| == |vals| == |d|
          invariant data == RightShifted(d, gap, idx) && vals == RightShifted(w, gap, idx)
        {
          RightStep(d, gap, idx);
          RightStep(w, gap, idx);
          MoveSlot(idx - 1, idx);
          idx := idx - 1;
        }
        RightEnd(d, ip, gap, key);
        RightEnd(w, ip, gap, value);
        PlaceSlot(ip, key, value);
      }
    }

    /** Counts one change against each segment in [first, last]. */
    method CountChanges(first: nat, last: nat)
      requires first <= last < |segmentChanges|
      modifies this`segmentChanges
      ensures segmentChanges == Bump(old(segmentChanges), first, last)
    {
      for si := first to last + 1
        invariant |segmentChanges| == |old(segmentChanges)|
        invariant forall s :: 0 <= s < |segmentChanges| ==>
          segmentChanges[s] == if first <= s < si then old(segmentChanges)[s] + 1 else old(segmentChanges)[s]
      {
        segmentChanges := segmentChanges[si := segmentChanges[si] + 1];
      }
    }

    /** Replaces the value of a key that is already there. */
    method Overwrite(ip: nat, value: V)
      requires Valid() && ip < |data| && IsReal(data[ip])
      modifies this`vals
      ensures Valid() && Model() == old(Model())[data[ip] := value] && (old(AnchorsHeld()) ==> AnchorsHeld())
    {
      OverwriteUpdates(data, vals, ip, value);
      vals := vals[ip := value];
    }

    /** The segments a shift is counted against: the owner of the new key, and the owners of all keys
        that had to move for it. */
    method TouchedSegments(owner: nat, ip: nat, gap: nat) returns (first: nat, last: nat)
      requires SortedStarts(segments) && gap < |data| && owner < |segments|
      ensures Touches(data, segments, owner, ip, gap, first, last)
    {
      first, last := owner, owner;
      if gap > ip && last + 1 < |segments| && data[gap] >= segments[last + 1].startKey {
        last := FindSegmentIndex(segments, data[gap]); // slot gap now holds the rightmost moved key
      }
      if gap < ip - 1 && data[gap] < segments[first].startKey {
        first := FindSegmentIndex(segments, data[gap]); // slot gap now holds the leftmost moved key
      }
    }

    /** The ordinary insert: shift toward the gap, count the shift, refresh what is due. */
    method InsertAtGap(owner: nat, ip: nat, gap: nat, key: int, value: V) returns (ghost first: nat, ghost last: nat)
      requires Valid() && key < EMPTY_SLOT && IsLowerBound(data, ip, key) && (ip < |data| ==> data[ip] != key)
      requires IsNearestGap(data, ip, gap) && Owns(segments, owner, key)
      modifies this
      ensures Valid() && Model() == old(Model())[key := value] && (old(AnchorsHeld()) ==> AnchorsHeld())
      ensures |ShiftIn(old(data), ip, gap, key)| == |old(data)|
      ensures Touches(ShiftIn(old(data), ip, gap, key), old(segments), owner, ip, gap, first, last)
      ensures Leaves(old(Now()), key, ip, gap, first, last, density, eps, Now())
    {
      hide *;
      ValidParts();
      CoreParts();
      PlaceParts(data, segments, segmentChanges, fitted, eps, ip, gap, key, owner);
      ghost var a, data0, changes0, fitted0 := Now(), data, segmentChanges, fitted;
      ShiftUpdates(data, vals, ip, gap, key, value);
      ShiftToGap(ip, gap, key, value);
      count := count + 1;
      fitted := DropKey(fitted, key);
      var from, to := TouchedSegments(owner, ip, gap);
      first, last := from, to;
      InsertKeepsSegments(data0, ip, gap, key, segments, changes0, fitted0, eps, owner, first, last);
      CountChanges(from, to);
      BumpCalm(changes0, first, last, eps);
      CoreHolds();
      ghost var b := Now();
      RefreshSegments(from, to);
      ValidParts();
      LeavesIs(a, key, ip, gap, first, last, density, eps, b, Now());
    }

    /** Inserts a key, or replaces the value of one already present. When a gap is within reach, what
        becomes of the slots, the segments and the counts is settled by what they were. */
    method Insert(key: int, value: V)
      requires Valid() && key < EMPTY_SLOT
      modifies this
      ensures Valid() && Model() == old(Model())[key := value] && (old(AnchorsHeld()) ==> AnchorsHeld())
      ensures InsertedAs(old(Now()), key, density, eps, Now())
    {
      hide *;
      ValidParts();
      CoreParts();
      ghost var a := Now();
      if segments == [] {
        EmptyHasNoKey(key);
        RebalanceWith(key, value); // nothing to route against yet
        NothingOwns(a, key, density, eps, Now());
        return;
      }
      var maxGapScan := MaxGapScan(eps);
      var owner, ip := FindPlace(key);
      if ip < |data| && data[ip] == key {
        Overwrite(ip, value);
        PresentIsNotPlaced(a, key, ip, density, eps, Now());
        return;
      }
      var gap := FindNearestGap(data, ip, maxGapScan);
      ghost var place, near := ip, gap;
      if gap < 0 {
        NoGapHasKey(data, vals, ip, maxGapScan + 1);
        MakeRoom(owner);
        ValidParts();
        owner, ip := FindPlace(key);
        gap := FindNearestGap(data, ip, maxGapScan);
      }
      if gap < 0 {
        RebalanceWith(key, value);
        NoGapIsNotPlaced(a, key, place, density, eps, Now());
        return;
      }
      GapIsNearest(data, ip, gap);
      ghost var first, last := InsertAtGap(owner, ip, gap, key, value);
      if near < 0 {
        NoGapIsNotPlaced(a, key, place, density, eps, Now());
      } else {
        PlacedOnce(a, key, owner, ip, gap, first, last, density, eps, Now());
      }
    }

    /** The segment a key routes to, and the first slot holding a key at least as large. */
    method FindPlace(key: int) returns (owner: nat, ip: nat)
      requires Core() && segments != [] && key < EMPTY_SLOT
      ensures Owns(segments, owner, key) && ip <= |data| && IsLowerBound(data, ip, key)
      ensures ip < |data| && data[ip] == key <==> key in Model()
    {
      owner := FindSegmentIndex(segments, key);
      ip := Locate(data, eps, PredictFrom(segments, owner, key, |data|), key);
      LowerBoundSplits(data, vals, ip, key);
      MapKeys(Es(), key);
    }

    /** Refreshes one segment between operations: nothing but the layout changes. */
    method MakeRoom(si: nat)
      requires Valid() && count > 0 && si < |segments|
      modifies this
      ensures Valid() && segments != [] && Es() == old(Es()) && (old(AnchorsHeld()) ==> AnchorsHeld())
    {
      ghost var before := segmentChanges;
      hide Entries, SortedSlots, SegmentsKept, Anchored, Refreshed;
      ghost var r := LocalRebalance(si);
      if r.Window? {
        SpliceCalm(before, segmentChanges, r, si, eps);
      }
    }

    // ---- What the drift bound promises about predictions ----

    /** Between operations, all but fewer than Threshold(eps) of the keys a segment owns lie less than
        2 * eps slots from its line. */
    lemma LinesStayClose(s: nat)
      requires Valid() && s < |segments|
      ensures |FarKeys(data, segments, s, Reach(eps))| < Threshold(eps)
    {
      FewFarKeys(data, segments, segmentChanges, fitted, eps, s);
    }

    /** The same for the clamped, rounded predictions lookups start from, as long as every anchor is
        held: in every run without removes, and after every full rebuild. */
    lemma PredictionsStayClose(s: nat)
      requires Valid() && AnchorsHeld() && eps >= 1 && s < |segments|
      ensures |FarPredictions(data, segments, s, 2 * eps)| < eps
    {
      FewFarPredictions(data, segments, segmentChanges, fitted, eps, s);
    }

    /** Whatever was removed, a fitted key's prediction is less than 2 * eps slots off exactly when the
        next segment's stored anchor position does not cut it off further left. */
    lemma PredictionCloseExactly(s: nat, p: nat)
      requires Valid() && eps >= 1 && s < |segments| && p < |data| && IsReal(data[p]) && data[p] in fitted[s]
      ensures p - 2 * eps < PredictFrom(segments, s, data[p], |data|) < p + 2 * eps
        <==> (s + 1 < |segments| ==> p - 2 * eps < Round(MaxReal(AnchorPosition(segments[s + 1]), 0.0)))
    {
      WithinTwiceEps(data, segments, segmentChanges, fitted, eps, s, p);
      assert RoutesTo(segments, s, data[p]);
      ClampedExactly(segments, s, data[p], |data|, p, 2 * eps - 1);
    }
  }

  lemma DenseHasKeys(keys: nat, slots: nat, level: nat, total: nat)
    ensures TooDense(keys, slots, level, total) ==> keys > 0
  {
  }

  /** A real slot is an entry of the map. */
  lemma SlotMeansEntry<V>(data: seq<int>, vals: seq<V>, idx: nat)
    requires |data| == |vals| && SortedSlots(data) && idx < |data| && IsReal(data[idx])
    ensures var m := MapOf(Entries(data, vals)); data[idx] in m && m[data[idx]] == vals[idx]
  {
    EntriesSorted(data, vals);
    MapOfSorted(Entries(data, vals));
    EntryIffSlot(data, vals, (data[idx], vals[idx]));
    var i :| 0 <= i < |Entries(data, vals)| && Entries(data, vals)[i] == (data[idx], vals[idx]);
  }

  lemma {:induction false} NoneInRange<V>(es: seq<(int, V)>, lo: int, hi: int)
    requires forall i :: 0 <= i < |es| ==> !(lo <= es[i].0 <= hi)
    ensures RangeOf(es, lo, hi) == []
  {
    if es != [] { NoneInRange(es[..|es| - 1], lo, hi); }
  }

  /** Before the lower bound of lo nothing is in range. */
  lemma NothingBelow<V>(data: seq<int>, vals: seq<V>, idx: nat, lo: int, hi: int)
    requires |data| == |vals| && SortedSlots(data) && IsLowerBound(data, idx, lo)
    ensures RangeOf(Entries(data[..idx], vals[..idx]), lo, hi) == []
    ensures forall j :: idx <= j < |data| && IsReal(data[j]) ==> lo <= data[j]
  {
    var es := Entries(data[..idx], vals[..idx]);
    forall i | 0 <= i < |es| ensures es[i].0 < lo {
      EntryIffSlot(data[..idx], vals[..idx], es[i]);
    }
    NoneInRange(es, lo, hi);
    forall j | idx <= j < |data| && IsReal(data[j]) ensures lo <= data[j] { LowerBoundAfter(data, idx, lo, j); }
  }

  lemma PrefixNext<V>(data: seq<int>, vals: seq<V>, idx: nat, lo: int, hi: int)
    requires |data| == |vals| && idx < |data|
    ensures RangeOf(Entries(data[..idx + 1], vals[..idx + 1]), lo, hi)
         == RangeOf(Entries(data[..idx], vals[..idx]), lo, hi)
          + (if IsReal(data[idx]) && lo <= data[idx] <= hi then [(data[idx], vals[idx])] else [])
  {
    assert data[..idx + 1][..idx] == data[..idx] && vals[..idx + 1][..idx] == vals[..idx];
    var es := Entries(data[..idx], vals[..idx]);
    if IsReal(data[idx]) {
      assert (es + [(data[idx], vals[idx])])[..|es|] == es;
    } else {
      assert es + [] == es;
    }
  }

  lemma {:induction false} RangeOfAppend<V>(a: seq<(int, V)>, b: seq<(int, V)>, lo: int, hi: int)
    ensures RangeOf(a + b, lo, hi) == RangeOf(a, lo, hi) + RangeOf(b, lo, hi)
  {
    if b == [] {
      assert a + b == a;
    } else {
      var n := |b| - 1;
      RangeOfAppend(a, b[..n], lo, hi);
      assert (a + b)[..|a + b| - 1] == a + b[..n];
    }
  }

  /** From the first key above hi on nothing is in range. */
  lemma NothingAbove<V>(data: seq<int>, vals: seq<V>, idx: nat, lo: int, hi: int)
    requires |data| == |vals| && SortedSlots(data) && idx < |data| && IsReal(data[idx]) && hi < data[idx]
    ensures RangeOf(Entries(data[..idx], vals[..idx]), lo, hi) == RangeOf(Entries(data, vals), lo, hi)
  {
    EntriesSplit(data, vals, idx);
    var tail := Entries(data[idx..], vals[idx..]);
    forall i | 0 <= i < |tail| ensures hi < tail[i].0 {
      EntryIffSlot(data[idx..], vals[idx..], tail[i]);
      var j :| 0 <= j < |data[idx..]| && IsReal(data[idx..][j]) && tail[i] == (data[idx..][j], vals[idx..][j]);
      assert data[idx..][j] == data[idx + j];
    }
    NoneInRange(tail, lo, hi);
    RangeOfAppend(Entries(data[..idx], vals[..idx]), tail, lo, hi);
  }

  /** The scan from the lower bound: skips gaps, stops at the first key above hi. */
  method ScanFrom<V>(data: seq<int>, vals: seq<V>, start: nat, lo: int, hi: int) returns (results: seq<(int, V)>)
    requires |data| == |vals| && SortedSlots(data) && start <= |data|
    requires RangeOf(Entries(data[..start], vals[..start]), lo, hi) == []
    requires forall j :: start <= j < |data| && IsReal(data[j]) ==> lo <= data[j]
    ensures results == RangeOf(Entries(data, vals), lo, hi)
  {
    results := [];
    var idx := start;
    assert data[..|data|] == data && vals[..|data|] == vals;
    hide Entries, RangeOf;
    while idx < |data|
      invariant start <= idx <= |data|
      invariant results == RangeOf(Entries(data[..idx], vals[..idx]), lo, hi)
    {
      PrefixNext(data, vals, idx, lo, hi);
      if data[idx] != EMPTY_SLOT {
        if data[idx] > hi {
          NothingAbove(data, vals, idx, lo, hi);
          return;
        }
        results := results + [(data[idx], vals[idx])];
      }
      idx := idx + 1;
    }
  }

  /** Removing a slot's key, seen as entries and as a map. */
  lemma RemoveSlot<V>(data: seq<int>, vals: seq<V>, idx: nat, v: V)
    requires |data| == |vals| && SortedSlots(data) && idx < |data| && IsReal(data[idx])
    ensures SortedSlots(data[idx := EMPTY_SLOT])
    ensures |Entries(data[idx := EMPTY_SLOT], vals[idx := v])| == |Entries(data, vals)| - 1
    ensures MapOf(Entries(data[idx := EMPTY_SLOT], vals[idx := v])) == MapOf(Entries(data, vals)) - {data[idx]}
  {
    EmptySorted(data, idx);
    EntriesSorted(data, vals);
    hide Entries, MapOf, SortedSlots;
    EmptyEntries(data, vals, idx, v);
    DeleteIsRemoval(Entries(data[..idx], vals[..idx]), Entries(data[idx + 1..], vals[idx + 1..]), data[idx], vals[idx]);
  }

  /** A key sits in at most one slot, and in none if it is absent. */
  lemma OnlySlotOf<V>(data: seq<int>, vals: seq<V>, idx: nat, key: int, found: bool)
    requires |data| == |vals| && SortedSlots(data) && key < EMPTY_SLOT && found == (key in MapOf(Entries(data, vals)))
    requires found ==> idx < |data| && data[idx] == key
    ensures forall p :: 0 <= p < |data| ==> (data[p] == key <==> found && p == idx)
  {
    forall p | 0 <= p < |data| && data[p] == key ensures found { SlotMeansEntry(data, vals, p); }
  }

  lemma EmptySorted(data: seq<int>, idx: nat)
    requires SortedSlots(data) && idx < |data|
    ensures SortedSlots(data[idx := EMPTY_SLOT])
  {
  }

  /** A segment keeps what it has when a key is removed. */
  lemma EmptyKeepsSegments(data: seq<int>, idx: nat, segments: seq<Segment>, changes: seq<nat>, fitted: seq<set<int>>, eps: nat)
    requires SegmentsKept(data, segments, changes, fitted, eps) && idx < |data|
    ensures SegmentsKept(data[idx := EMPTY_SLOT], segments, changes, fitted, eps)
  {
    var data' := data[idx := EMPTY_SLOT];
    assert DriftOk(data', segments, changes, fitted, eps) by {
      forall s, p | 0 <= s < |segments| && 0 <= p < |data'| && IsReal(data'[p]) && data'[p] in fitted[s]
        ensures NearAt(data', segments, changes, eps, s, p)
      {
        assert NearAt(data, segments, changes, eps, s, p);
      }
    }
    hide DriftOk, Routed, SortedStarts, StartsAreKeys, RisingLines, Covered;
    FewerKeysCovered(data, data', segments, changes, fitted);
  }

  /** And when slots are added at the end. */
  lemma GrowKeepsSegments(data: seq<int>, more: nat, segments: seq<Segment>, changes: seq<nat>, fitted: seq<set<int>>, eps: nat)
    requires SegmentsKept(data, segments, changes, fitted, eps)
    ensures SegmentsKept(data + Repeat(EMPTY_SLOT, more), segments, changes, fitted, eps)
    ensures Anchored(data, segments, fitted) ==> Anchored(data + Repeat(EMPTY_SLOT, more), segments, fitted)
  {
    var data' := data + Repeat(EMPTY_SLOT, more);
    GrowKeepsDrift(data, more, segments, changes, fitted, eps);
    hide DriftOk, Routed, SortedStarts, StartsAreKeys, RisingLines, Covered, Anchored;
    FewerKeysCovered(data, data', segments, changes, fitted);
    if Anchored(data, segments, fitted) { MoreSlotsAnchored(data, data', segments, fitted); }
  }

  /** And when a key is shifted in, counted against the segments it touches. */
  lemma InsertKeepsSegments(data: seq<int>, ip: nat, gap: nat, key: int, segments: seq<Segment>, changes: seq<nat>,
                            fitted: seq<set<int>>, eps: nat, owner: nat, first: nat, last: nat)
    requires SortedSlots(data) && SegmentsKept(data, segments, changes, fitted, eps)
    requires IsLowerBound(data, ip, key) && key < EMPTY_SLOT && (ip < |data| ==> data[ip] != key)
    requires IsNearestGap(data, ip, gap) && Owns(segments, owner, key)
    requires |ShiftIn(data, ip, gap, key)| == |data| && Touches(ShiftIn(data, ip, gap, key), segments, owner, ip, gap, first, last)
    ensures first <= owner <= last < |segments| == |changes|
    ensures SegmentsKept(ShiftIn(data, ip, gap, key), segments, Bump(changes, first, last), DropKey(fitted, key), eps)
    ensures Anchored(data, segments, fitted) ==> Anchored(ShiftIn(data, ip, gap, key), segments, DropKey(fitted, key))
  {
    var data' := ShiftIn(data, ip, gap, key);
    ShiftIsTouching(data, ip, gap, key, segments, owner, first, last);
    ShiftAddsKey(data, ip, gap, key);
    assert |changes| == |segments|;
    hide DriftOk, Routed, SortedStarts, StartsAreKeys, RisingLines, Covered, Anchored, SortedSlots, ShiftIn, IsLowerBound, IsNearestGap,
      Touches, Owns, ShiftedByOne;
    ShiftKeepsDrift(data, data', key, segments, changes, fitted, eps, first, last);
    InsertKeepsCover(data, data', key, segments, changes, fitted, owner, first, last);
    if Anchored(data, segments, fitted) { InsertKeepsAnchors(data, data', key, segments, fitted); }
  }

  lemma PlaceParts(data: seq<int>, segments: seq<Segment>, changes: seq<nat>, fitted: seq<set<int>>, eps: nat,
                   ip: nat, gap: nat, key: int, owner: nat)
    requires SegmentsKept(data, segments, changes, fitted, eps) && IsLowerBound(data, ip, key) && IsNearestGap(data, ip, gap)
    requires Owns(segments, owner, key)
    ensures SortedStarts(segments) && ip <= |data| && gap < |data| && data[gap] == EMPTY_SLOT && owner < |segments|
  {
  }

  lemma ShiftIsTouching(data: seq<int>, ip: nat, gap: nat, key: int, segments: seq<Segment>, owner: nat, first: nat, last: nat)
    requires SortedSlots(data) && SortedStarts(segments)
    requires IsLowerBound(data, ip, key) && key < EMPTY_SLOT && (ip < |data| ==> data[ip] != key)
    requires IsNearestGap(data, ip, gap) && Owns(segments, owner, key)
    requires |ShiftIn(data, ip, gap, key)| == |data| && Touches(ShiftIn(data, ip, gap, key), segments, owner, ip, gap, first, last)
    ensures first <= owner <= last < |segments|
    ensures ShiftedByOne(data, ShiftIn(data, ip, gap, key), key, segments, first, last)
  {
    ShiftedSlot(data, ip, gap, key, gap);
    assert forall p :: (gap < p < ip || ip <= p < gap) ==> IsReal(data[p]);
    hide SortedSlots, SortedStarts, IsLowerBound, NoGapWithin, ShiftIn, Owns, ShiftedByOne;
    ShiftIsCounted(data, ip, gap, key, segments, owner, first, last);
  }

  /** A shift adds one key and loses none. */
  lemma ShiftAddsKey(data: seq<int>, ip: nat, gap: nat, key: int)
    requires SortedSlots(data) && IsLowerBound(data, ip, key) && key < EMPTY_SLOT && (ip < |data| ==> data[ip] != key)
    requires gap < |data| && data[gap] == EMPTY_SLOT
    ensures var data' := ShiftIn(data, ip, gap, key);
      && |data'| == |data| && key !in data
      && (forall p :: 0 <= p < |data'| && IsReal(data'[p]) ==> data'[p] == key || data'[p] in data)
      && (forall k :: k in data && IsReal(k) ==> k in data')
  {
    var data' := ShiftIn(data, ip, gap, key);
    forall p | 0 <= p < |data| ensures data'[p] == key || data'[p] in data { ShiftedSlot(data, ip, gap, key, p); }
    forall k | k in data && IsReal(k) ensures k in data' {
      var q :| 0 <= q < |data| && data[q] == k;
      var p := if gap < q < ip then q - 1 else if ip <= q < gap then q + 1 else q;
      ShiftedSlot(data, ip, gap, key, p);
      assert data'[p] == k;
    }
    forall q | 0 <= q < |data| ensures data[q] != key {
      if q >= ip && IsReal(data[q]) { LowerBoundAfter(data, ip, key, q); }
    }
  }

  lemma GapIsNearest(data: seq<int>, ip: nat, gap: nat)
    requires gap < |data| && data[gap] == EMPTY_SLOT && NoGapWithin(data, ip, if gap >= ip then gap - ip else ip - 1 - gap)
    requires gap < ip && 2 * ip - 1 - gap < |data| ==> IsReal(data[2 * ip - 1 - gap])
    ensures IsNearestGap(data, ip, gap)
  {
  }

  lemma GrowEntries<V>(data: seq<int>, vals: seq<V>, more: nat, v: V)
    requires |data| == |vals| && SortedSlots(data)
    ensures Entries(data + Repeat(EMPTY_SLOT, more), vals + Repeat(v, more)) == Entries(data, vals)
    ensures SortedSlots(data + Repeat(EMPTY_SLOT, more))
  {
    var gaps, blanks := Repeat(EMPTY_SLOT, more), Repeat(v, more);
    GrowSorted(data, gaps);
    hide Entries, SortedSlots, Repeat;
    EntriesOfGaps(gaps, blanks);
    EntriesAppend(data, vals, gaps, blanks);
  }

  lemma GrowSorted(data: seq<int>, gaps: seq<int>)
    requires SortedSlots(data) && forall i :: 0 <= i < |gaps| ==> gaps[i] == EMPTY_SLOT
    ensures SortedSlots(data + gaps)
  {
  }

  lemma RegionInside(data: seq<int>, segments: seq<Segment>, lo: nat, hi: nat, begin: nat, end: nat)
    requires lo <= hi < |segments| && IsRegion(data, segments, lo, hi, begin, end)
    ensures begin <= end <= |data|
  {
  }

  lemma RegionNotEmpty(data: seq<int>, begin: nat)
    requires begin <= |data| && KeysIn(data, begin, |data|) > 0
    ensures begin < |data|
  {
  }

  lemma RegionToEnd(data: seq<int>, segments: seq<Segment>, si: nat, begin: nat, end: nat)
    requires si + 1 == |segments| && IsRegion(data, segments, si, si, begin, end)
    ensures end == |data|
  {
  }

  lemma NotGrown(data: seq<int>, n: nat)
    requires n <= |data|
    ensures Grown(data, n) == data
  {
  }

  /** The last region of a grown array reaches the new end. */
  lemma GrownRegion(data: seq<int>, n: nat, segments: seq<Segment>, si: nat, begin: nat)
    requires si + 1 == |segments| && IsRegion(data, segments, si, si, begin, |data|) && begin < |data|
    ensures var grown := Grown(data, n); IsRegion(grown, segments, si, si, begin, |grown|)
  {
    var grown := Grown(data, n);
    forall p | 0 <= p < |data| ensures grown[p] == data[p] { assert grown[..|data|][p] == data[p]; }
  }

  /** Slots added at the end hold no keys. */
  lemma GrownKeys(data: seq<int>, n: nat, begin: nat)
    requires begin <= |data|
    ensures var grown := Grown(data, n);
      RealKeys(grown[begin..|grown|]) == RealKeys(data[begin..|data|]) && KeysIn(grown, begin, |grown|) == KeysIn(data, begin, |data|)
  {
    var grown := Grown(data, n);
    if n > |data| {
      var gaps := Repeat(EMPTY_SLOT, n - |data|);
      assert grown[begin..|grown|] == data[begin..|data|] + gaps;
      GapsAddNothing(data[begin..|data|], gaps);
    }
  }

  lemma GrownIsRelaid(data: seq<int>, segments: seq<Segment>, begin: nat, density: real, eps: nat,
                      data': seq<int>, segments': seq<Segment>, local: seq<Segment>)
    requires 0.0 < density && segments != [] && begin <= |data|
    requires IsRegion(data, segments, |segments| - 1, |segments| - 1, begin, |data|)
    requires var grown := Grown(data, begin + Wanted(KeysIn(data, begin, |data|), density));
      RelaidBy(grown, segments, |segments| - 1, |segments| - 1, begin, |grown|, eps, data', segments', local)
      && RealKeys(data'[begin..|grown|]) == RealKeys(grown[begin..|grown|])
    ensures GrownAndRelaid(data, segments, begin, density, eps, data', segments', local)
    ensures |data'| - begin >= Wanted(KeysIn(data, begin, |data|), density)
    ensures KeysIn(data', begin, |data'|) == KeysIn(data, begin, |data|)
  {
    hide RealKeys, IsRegion, LaidEvenly, FitOf, Wanted, Grown;
    GrownKeys(data, begin + Wanted(KeysIn(data, begin, |data|), density), begin);
  }

  lemma {:induction false} GapsAddNothing(data: seq<int>, gaps: seq<int>)
    requires forall i :: 0 <= i < |gaps| ==> gaps[i] == EMPTY_SLOT
    ensures RealKeys(data + gaps) == RealKeys(data)
  {
    if gaps == [] {
      assert data + gaps == data;
    } else {
      GapsAddNothing(data, gaps[..|gaps| - 1]);
      assert (data + gaps)[..|data + gaps| - 1] == data + gaps[..|gaps| - 1];
    }
  }

  // ---- The two shift loops ----

  /** Slots gap + 1..idx have moved one to the left; slot idx still holds its old content too. */
  ghost function LeftShifted<T>(s: seq<T>, gap: nat, idx: nat): seq<T>
    requires gap <= idx < |s|
  {
    s[..gap] + s[gap + 1..idx + 1] + s[idx..]
  }

  lemma LeftStart<T>(s: seq<T>, gap: nat)
    requires gap < |s|
    ensures LeftShifted(s, gap, gap) == s
  {
  }

  lemma LeftStep<T>(s: seq<T>, gap: nat, idx: nat)
    requires gap <= idx && idx + 1 < |s|
    ensures |LeftShifted(s, gap, idx)| == |s|
    ensures LeftShifted(s, gap, idx)[idx := LeftShifted(s, gap, idx)[idx + 1]] == LeftShifted(s, gap, idx + 1)
  {
  }

  lemma LeftEnd<T>(s: seq<T>, ip: nat, gap: nat, x: T)
    requires gap < ip <= |s|
    ensures |LeftShifted(s, gap, ip - 1)| == |s|
    ensures LeftShifted(s, gap, ip - 1)[ip - 1 := x] == ShiftIn(s, ip, gap, x)
  {
  }

  /** Slots idx..gap - 1 have moved one to the right; slot idx still holds its old content too. */
  ghost function RightShifted<T>(s: seq<T>, gap: nat, idx: nat): seq<T>
    requires idx <= gap < |s|
  {
    s[..idx + 1] + s[idx..gap] + s[gap + 1..]
  }

  lemma RightStart<T>(s: seq<T>, gap: nat)
    requires gap < |s|
    ensures RightShifted(s, gap, gap) == s
  {
  }

  lemma RightStep<T>(s: seq<T>, gap: nat, idx: nat)
    requires 0 < idx <= gap < |s|
    ensures |RightShifted(s, gap, idx)| == |s|
    ensures RightShifted(s, gap, idx)[idx := RightShifted(s, gap, idx)[idx - 1]] == RightShifted(s, gap, idx - 1)
  {
  }

  lemma RightEnd<T>(s: seq<T>, ip: nat, gap: nat, x: T)
    requires ip <= gap < |s|
    ensures |RightShifted(s, gap, ip)| == |s|
    ensures RightShifted(s, gap, ip)[ip := x] == ShiftIn(s, ip, gap, x)
  {
  }

  lemma OverwriteUpdates<V>(data: seq<int>, vals: seq<V>, ip: nat, value: V)
    requires |data| == |vals| && SortedSlots(data) && ip < |data| && IsReal(data[ip])
    ensures |Entries(data, vals[ip := value])| == |Entries(data, vals)|
    ensures MapOf(Entries(data, vals[ip := value])) == MapOf(Entries(data, vals))[data[ip] := value]
  {
    hide Entries, MapOf, SortedSlots, SortedEntries, HasKey;
    OverwriteEntries(data, vals, ip, value);
    EntriesSorted(data, vals);
    var a, b := Entries(data[..ip], vals[..ip]), Entries(data[ip + 1..], vals[ip + 1..]);
    NotAgain(a, b, data[ip], vals[ip]);
    InsertIsUpdate(a, b, data[ip], value);
    InsertIsUpdate(a, b, data[ip], vals[ip]);
  }

  lemma NotAgain<V>(a: seq<(int, V)>, b: seq<(int, V)>, k: int, v: V)
    requires SortedEntries(a + [(k, v)] + b)
    ensures !HasKey(b, k)
  {
    var all := a + [(k, v)] + b;
    forall i | 0 <= i < |b| ensures b[i].0 != k { assert all[|a| + 1 + i] == b[i] && all[|a|] == (k, v); }
  }

  /** A shift at the lower bound of an absent key, as entries and as a map. */
  lemma ShiftUpdates<V>(data: seq<int>, vals: seq<V>, ip: nat, gap: nat, key: int, value: V)
    requires |data| == |vals| && SortedSlots(data) && key < EMPTY_SLOT
    requires IsLowerBound(data, ip, key) && (ip < |data| ==> data[ip] != key)
    requires gap < |data| && data[gap] == EMPTY_SLOT
    ensures SortedSlots(ShiftIn(data, ip, gap, key))
    ensures |ShiftIn(data, ip, gap, key)| == |ShiftIn(vals, ip, gap, value)| == |data|
    ensures var es := Entries(ShiftIn(data, ip, gap, key), ShiftIn(vals, ip, gap, value));
      |es| == |Entries(data, vals)| + 1 && MapOf(es) == MapOf(Entries(data, vals))[key := value]
  {
    ShiftSorted(data, ip, gap, key);
    ShiftedSlot(data, ip, gap, key, gap);
    ShiftedSlot(vals, ip, gap, value, gap);
    hide Entries, MapOf, SortedSlots, ShiftIn;
    ShiftEntries(data, vals, ip, gap, key, value);
    EntriesSplit(data, vals, ip);
    LowerBoundSplits(data, vals, ip, key);
    InsertIsUpdate(Entries(data[..ip], vals[..ip]), Entries(data[ip..], vals[ip..]), key, value);
  }

  /** With no gap next to the insertion point of a nonempty array, there is a key. */
  lemma NoGapHasKey<V>(data: seq<int>, vals: seq<V>, ip: nat, d: nat)
    requires |data| == |vals| && data != [] && ip <= |data| && d >= 1 && NoGapWithin(data, ip, d)
    ensures |Entries(data, vals)| > 0
  {
    var p := if ip < |data| then ip else ip - 1;
    assert IsReal(data[p]);
    EntryIffSlot(data, vals, (data[p], vals[p]));
  }
}
