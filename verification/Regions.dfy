/** The slots a window of segments covers, how full they may get, and which window a refresh
    of one segment widens to (cpp/gapped_array.h: region, too_dense, local_rebalance). */
module Regions {
  import opened Geometry
  import opened Segments
  import opened PinnedModel
  import opened Slots
  import opened SlotSearch
  import opened EvenLayout
  import opened Drift

  /** The slots of segments lo..hi. They begin where a key as large as lo's start first occurs, at slot 0
      for the first segment, and end where segment hi + 1 begins, at the array's end for the last one. */
  ghost predicate IsRegion(data: seq<int>, segments: seq<Segment>, lo: nat, hi: nat, begin: nat, end: nat)
    requires lo <= hi < |segments|
  {
    && begin <= end <= |data|
    && (if lo == 0 then begin == 0 else IsLowerBound(data, begin, segments[lo].startKey))
    && (if hi + 1 == |segments| then end == |data| else IsLowerBound(data, end, segments[hi + 1].startKey))
  }

  /** A region holds exactly the keys its segments own. */
  lemma RegionHoldsItsKeys(data: seq<int>, segments: seq<Segment>, lo: nat, hi: nat, begin: nat, end: nat)
    requires lo <= hi < |segments| && SortedSlots(data) && IsRegion(data, segments, lo, hi, begin, end)
    ensures forall p :: 0 <= p < |data| && IsReal(data[p]) ==>
      (begin <= p < end <==> KeyInRegion(segments, lo, hi, data[p]))
  {
  }

  lemma LowerBoundsOrdered(data: seq<int>, a: nat, x: int, b: nat, y: int)
    requires IsLowerBound(data, a, x) && IsLowerBound(data, b, y) && x <= y
    ensures a <= b
  {
  }

  const SEGMENT_DENSITY_LIMIT := 0.9
  const ARRAY_DENSITY_LIMIT := 0.8

  /** The first level, from h up, whose windows are as wide as the whole list. */
  function HeightFrom(h: nat, total: nat): nat
    decreases if Pow2(h) < total then total - Pow2(h) else 0
  {
    if Pow2(h) >= total then h else HeightFrom(h + 1, total)
  }

  function Height(total: nat): nat {
    HeightFrom(0, total)
  }

  lemma {:induction false} HeightIsLeast(h: nat, total: nat)
    requires h == 0 || Pow2(h - 1) < total
    ensures Pow2(HeightFrom(h, total)) >= total
    ensures HeightFrom(h, total) > 0 ==> Pow2(HeightFrom(h, total) - 1) < total
    decreases if Pow2(h) < total then total - Pow2(h) else 0
  {
    if Pow2(h) < total { HeightIsLeast(h + 1, total); }
  }

  /** The density limit at a level: from the segment limit down to the whole array's. */
  function DensityLimit(level: nat, total: nat): real {
    var height := Height(total);
    var t := if height == 0 then 0.0 else MinReal(1.0, level as real / height as real);
    SEGMENT_DENSITY_LIMIT - (SEGMENT_DENSITY_LIMIT - ARRAY_DENSITY_LIMIT) * t
  }

  predicate TooDense(keys: nat, slots: nat, level: nat, total: nat) {
    keys > 0 && keys as real >= DensityLimit(level, total) * slots as real
  }

  function WindowLo(si: nat, level: nat): int {
    si / Pow2(level) * Pow2(level)
  }

  function WindowHi(si: nat, level: nat, total: nat): int {
    (if WindowLo(si, level) + Pow2(level) < total then WindowLo(si, level) + Pow2(level) else total) - 1
  }

  /** Widened windows contain the segment, and a wide enough one is the whole array. */
  lemma WindowContains(si: nat, level: nat, total: nat)
    requires si < total
    ensures 0 <= WindowLo(si, level) <= si <= WindowHi(si, level, total) < total
    ensures Pow2(level) >= total ==> WindowLo(si, level) == 0 && WindowHi(si, level, total) + 1 == total
  {
    AlignedDown(si, Pow2(level));
    if Pow2(level) >= total { SmallQuotient(si, Pow2(level)); }
  }

  /** At level 0 the window is the segment alone. */
  lemma WindowOfOne(si: nat, total: nat)
    requires si < total
    ensures WindowLo(si, 0) == si == WindowHi(si, 0, total)
  {
    assert Pow2(0) == 1;
  }

  lemma AlignedDown(a: nat, w: nat)
    requires w >= 1
    ensures 0 <= a / w * w <= a < a / w * w + w
  {
    var q, r := a / w, a % w;
    assert a == q * w + r && 0 <= r < w;
    NatProduct(q, w);
  }

  lemma NatProduct(a: nat, b: nat)
    ensures a * b >= 0
  {
  }

  lemma SmallQuotient(a: nat, w: nat)
    requires a < w
    ensures a / w == 0
  {
  }

  lemma {:induction false} Pow2Grows(level: nat)
    ensures Pow2(level) > level
  {
    if level > 0 { Pow2Grows(level - 1); }
  }

  /** How many keys a segment may take when n keys are fit: the pieces are kept about even. */
  const MAX_SEGMENT_KEYS: nat := 4096

  function SegmentCap(n: nat): nat {
    var pieces := (n + MAX_SEGMENT_KEYS - 1) / MAX_SEGMENT_KEYS;
    if pieces <= 1 then MAX_SEGMENT_KEYS else (n + pieces - 1) / pieces
  }

  /** The equalised cap still respects the limit on keys per segment. */
  lemma SegmentCapWithinLimit(n: nat)
    ensures 1 <= SegmentCap(n) <= MAX_SEGMENT_KEYS
  {
    var pieces := (n + MAX_SEGMENT_KEYS - 1) / MAX_SEGMENT_KEYS;
    if pieces > 1 {
      assert n <= pieces * MAX_SEGMENT_KEYS;
      QuotientAtMost(n + pieces - 1, pieces, MAX_SEGMENT_KEYS);
    }
  }

  lemma QuotientAtMost(a: nat, b: nat, m: nat)
    requires b > 0 && a < (m + 1) * b
    ensures a / b <= m
  {
    var q := a / b;
    assert a == q * b + a % b;
    if q > m { MulOrder(m + 1, q, b); }
  }

  function CeilReal(x: real): int {
    -((-x).Floor)
  }

  lemma CeilAtLeast(x: real)
    ensures x <= CeilReal(x) as real < x + 1.0
  {
  }

  // ---- Sortedness through entries ----

  lemma {:induction false} SlotsFromEntries<V>(data: seq<int>, vals: seq<V>)
    requires |data| == |vals| && SortedEntries(Entries(data, vals))
    requires forall i :: 0 <= i < |data| ==> data[i] <= EMPTY_SLOT
    ensures SortedSlots(data)
  {
    if data != [] {
      var n := |data| - 1;
      var init := Entries(data[..n], vals[..n]);
      var es := Entries(data, vals);
      forall i, j | 0 <= i < j < |init| ensures init[i].0 < init[j].0 { assert es[i] == init[i] && es[j] == init[j]; }
      SlotsFromEntries(data[..n], vals[..n]);
      forall i | 0 <= i < n && IsReal(data[i]) && IsReal(data[n]) ensures data[i] < data[n] {
        assert data[..n][i] == data[i] && vals[..n][i] == vals[i];
        EntryIffSlot(data[..n], vals[..n], (data[i], vals[i]));
        var k :| 0 <= k < |init| && init[k] == (data[i], vals[i]);
        assert es[k] == init[k] && es[|init|] == (data[n], vals[n]);
      }
    }
  }

  /** Rewriting a stretch with the same entries leaves the whole array's entries alone. */
  lemma StretchKeepsEntries<V>(data: seq<int>, vals: seq<V>, data': seq<int>, vals': seq<V>, begin: nat, end: nat)
    requires |data| == |vals| && begin <= end <= |data|
    requires SameOutside(data, data', begin, end) && SameOutside(vals, vals', begin, end)
    requires Entries(data'[begin..end], vals'[begin..end]) == Entries(data[begin..end], vals[begin..end])
    ensures |data'| == |vals'| && Entries(data', vals') == Entries(data, vals)
  {
    ThreeParts(data, vals, begin, end);
    ThreeParts(data', vals', begin, end);
  }

  lemma ThreeParts<V>(data: seq<int>, vals: seq<V>, begin: nat, end: nat)
    requires |data| == |vals| && begin <= end <= |data|
    ensures Entries(data, vals) == Entries(data[..begin], vals[..begin]) + Entries(data[begin..end], vals[begin..end])
                                 + Entries(data[end..], vals[end..])
  {
    EntriesSplit(data, vals, end);
    EntriesSplit(data[..end], vals[..end], begin);
    assert data[..end][..begin] == data[..begin] && vals[..end][..begin] == vals[..begin];
    assert data[..end][begin..] == data[begin..end] && vals[..end][begin..] == vals[begin..end];
  }

  /** Reads the keys and values out of a stretch and empties it. */
  method Extract<V>(data: seq<int>, vals: seq<V>, begin: nat, end: nat, emptyValue: V)
    returns (keys: seq<int>, values: seq<V>, data': seq<int>, vals': seq<V>)
    requires |data| == |vals| && begin <= end <= |data|
    ensures |keys| == |values| <= end - begin && Zip(keys, values) == Entries(data[begin..end], vals[begin..end])
    ensures forall i :: 0 <= i < |keys| ==> IsReal(keys[i])
    ensures |data'| == |vals'|
    ensures SameOutside(data, data', begin, end) && SameOutside(vals, vals', begin, end)
    ensures AllGaps(data', begin, end)
  {
    keys, values, data', vals' := [], [], data, vals;
    EntriesOfGaps(data[begin..begin], vals[begin..begin]);
    for idx := begin to end
      invariant |keys| == |values| <= idx - begin && Zip(keys, values) == Entries(data[begin..idx], vals[begin..idx])
      invariant forall i :: 0 <= i < |keys| ==> IsReal(keys[i])
      invariant |data'| == |data| && |vals'| == |vals|
      invariant SameOutside(data, data', begin, end) && SameOutside(vals, vals', begin, end)
      invariant AllGaps(data', begin, idx)
      invariant forall p :: idx <= p < |data| ==> data'[p] == data[p] && vals'[p] == vals[p]
    {
      hide Entries, Zip, SameOutside;
      NextEntry(data, vals, begin, idx);
      if data'[idx] != EMPTY_SLOT {
        ZipPush(keys, values, data'[idx], vals'[idx]);
        keys, values := keys + [data'[idx]], values + [vals'[idx]];
      }
      UpdateInside(data, data', begin, end, idx, EMPTY_SLOT);
      UpdateInside(vals, vals', begin, end, idx, emptyValue);
      data' := data'[idx := EMPTY_SLOT];
      vals' := vals'[idx := emptyValue];
    }
  }

  lemma ZipPush<V>(keys: seq<int>, values: seq<V>, k: int, v: V)
    requires |keys| == |values|
    ensures Zip(keys + [k], values + [v]) == Zip(keys, values) + [(k, v)]
  {
  }

  lemma NextEntry<V>(data: seq<int>, vals: seq<V>, begin: nat, idx: nat)
    requires |data| == |vals| && begin <= idx < |data|
    ensures Entries(data[begin..idx + 1], vals[begin..idx + 1])
         == Entries(data[begin..idx], vals[begin..idx]) + (if IsReal(data[idx]) then [(data[idx], vals[idx])] else [])
  {
    assert data[begin..idx + 1][..idx - begin] == data[begin..idx];
    assert vals[begin..idx + 1][..idx - begin] == vals[begin..idx];
  }
}
