/** Laying keys out evenly over a stretch of slots and fitting them there, as a full layout does with
    the whole array and a refresh with one region (cpp/gapped_array.h: layout, relay). Where every
    key goes, and into how many segments they are split, can be read off the keys and the stretch. */
module Relays {
  import opened Geometry
  import opened FitLines
  import opened Segments
  import opened PinnedModel
  import opened Slots
  import opened SlotSearch
  import opened EvenLayout
  import opened Drift
  import opened Coverage
  import opened Regions

  // ---- The keys of a stretch ----

  /** The keys in these slots, in order. */
  ghost function RealKeys(data: seq<int>): (r: seq<int>)
    ensures |r| <= |data|
  {
    if data == [] then []
    else
      var n := |data| - 1;
      RealKeys(data[..n]) + (if IsReal(data[n]) then [data[n]] else [])
  }

  lemma {:induction false} RealKeysOfEntries<V>(data: seq<int>, vals: seq<V>)
    requires |data| == |vals|
    ensures |RealKeys(data)| == |Entries(data, vals)|
    ensures forall i :: 0 <= i < |RealKeys(data)| ==> RealKeys(data)[i] == Entries(data, vals)[i].0
  {
    if data != [] { RealKeysOfEntries(data[..|data| - 1], vals[..|data| - 1]); }
  }

  lemma EntriesKeys<V>(data: seq<int>, vals: seq<V>, keys: seq<int>, values: seq<V>)
    requires |data| == |vals| && |keys| == |values| && Entries(data, vals) == Zip(keys, values)
    ensures keys == RealKeys(data)
  {
    RealKeysOfEntries(data, vals);
    forall i | 0 <= i < |keys| ensures keys[i] == RealKeys(data)[i] { assert Zip(keys, values)[i].0 == keys[i]; }
  }

  /** How many keys a stretch holds. */
  ghost function KeysIn(data: seq<int>, begin: nat, end: nat): nat
    requires begin <= end <= |data|
  {
    |RealKeys(data[begin..end])|
  }

  lemma NextKey(data: seq<int>, begin: nat, idx: nat)
    requires begin <= idx < |data|
    ensures RealKeys(data[begin..idx + 1]) == RealKeys(data[begin..idx]) + (if IsReal(data[idx]) then [data[idx]] else [])
  {
    assert data[begin..idx + 1][..idx - begin] == data[begin..idx];
  }

  method CountKeys(data: seq<int>, begin: nat, end: nat) returns (n: nat)
    requires begin <= end <= |data|
    ensures n == KeysIn(data, begin, end)
  {
    n := 0;
    for idx := begin to end
      invariant n == KeysIn(data, begin, idx)
    {
      NextKey(data, begin, idx);
      if data[idx] != EMPTY_SLOT { n := n + 1; }
    }
  }

  ghost predicate StrictKeys(keys: seq<int>) {
    && (forall i :: 0 <= i < |keys| ==> keys[i] < EMPTY_SLOT)
    && (forall i, j :: 0 <= i < j < |keys| ==> keys[i] < keys[j])
  }

  // ---- Even layouts and their fit ----

  /** The slots of n keys laid evenly over a stretch. */
  function Places(begin: nat, slots: nat, n: nat): (r: seq<int>)
    ensures |r| == n
  {
    seq(n, i requires 0 <= i < n => Place(begin, slots, n, i))
  }

  /** The stretch holds exactly these keys, each at its place. */
  ghost predicate LaidEvenly(data: seq<int>, begin: nat, end: nat, keys: seq<int>)
    requires begin <= end <= |data|
  {
    && |keys| <= end - begin
    && (forall i :: 0 <= i < |keys| ==> PlacedAt(data, begin, end, keys, i))
    && (forall p :: begin <= p < end && IsReal(data[p]) ==> data[p] in keys)
  }

  ghost predicate PlacedAt(data: seq<int>, begin: nat, end: nat, keys: seq<int>, i: nat)
    requires begin <= end <= |data| && i < |keys|
  {
    var p := Place(begin, end - begin, |keys|, i);
    begin <= p < end && data[p] == keys[i]
  }

  /** What a fit of these keys over the stretch is given. */
  ghost function LaidPoints(keys: seq<int>, begin: nat, end: nat): seq<Point>
    requires begin <= end
  {
    Points(keys, Places(begin, end - begin, |keys|))
  }

  /** How many segments the keys are split into when they are laid evenly over the stretch. */
  ghost function FitCount(keys: seq<int>, begin: nat, end: nat, eps: nat): nat
    requires begin <= end
  {
    |PinnedStarts(LaidPoints(keys, begin, end), 0, eps, SegmentCap(|keys|))|
  }

  /** The pinned model of the keys laid evenly over the stretch. */
  ghost predicate FitOf(local: seq<Segment>, keys: seq<int>, begin: nat, end: nat, eps: nat)
    requires begin <= end
  {
    var pts, cap := LaidPoints(keys, begin, end), SegmentCap(|keys|);
    IsPinnedModel(local, pts, eps, cap, PinnedStarts(pts, 0, eps, cap))
  }

  lemma FitHasCount(local: seq<Segment>, keys: seq<int>, begin: nat, end: nat, eps: nat)
    requires begin <= end && FitOf(local, keys, begin, end, eps)
    ensures |local| == FitCount(keys, begin, end, eps)
  {
  }

  lemma StrictKeysRightward(keys: seq<int>, positions: seq<int>)
    requires StrictKeys(keys) && |positions| == |keys|
    ensures Rightward(Points(keys, positions)) && forall i :: 0 <= i < |keys| ==> IsReal(keys[i])
  {
  }

  lemma PlacesClimb(begin: nat, slots: nat, n: nat)
    requires n <= slots
    ensures Climbing(Places(begin, slots, n))
  {
    forall i, j | 0 <= i < j < n ensures Places(begin, slots, n)[i] <= Places(begin, slots, n)[j] {
      PlacesIncrease(begin, slots, n, i, j);
    }
  }

  /** Every segment start is a storable key, so it can be searched for. */
  ghost predicate StartsAreKeys(segments: seq<Segment>) {
    forall s :: 0 <= s < |segments| ==> segments[s].startKey < EMPTY_SLOT
  }

  /** All there is to know about a fresh fit of keys that were just laid out. */
  ghost predicate Fresh(data: seq<int>, keys: seq<int>, begin: nat, end: nat, eps: nat, local: seq<Segment>, localFitted: seq<set<int>>)
    requires begin <= end <= |data|
  {
    && FitOf(local, keys, begin, end, eps)
    && SortedStarts(local) && StartsAreKeys(local) && RisingLines(local) && (local == [] <==> keys == [])
    && Routed(local, localFitted) && DriftOk(data, local, Zeros(|local|), localFitted, eps)
    && AllFitted(data, local, localFitted, begin, end) && Anchored(data, local, localFitted)
    && (forall k :: k in keys ==> InSome(localFitted, k))
    && (forall s, k :: 0 <= s < |localFitted| && k in localFitted[s] ==> k in keys)
    && (forall s :: 0 <= s < |local| ==> local[s].startKey in keys)
  }

  /** Fits the pinned model to keys laid out evenly. */
  method FitKeys(data: seq<int>, keys: seq<int>, positions: seq<int>, begin: nat, end: nat, eps: nat)
    returns (local: seq<Segment>, ghost localFitted: seq<set<int>>)
    requires StrictKeys(keys) && SortedSlots(data) && begin <= end <= |data| && LaidEvenly(data, begin, end, keys)
    requires positions == Places(begin, end - begin, |keys|)
    ensures Fresh(data, keys, begin, end, eps, local, localFitted)
  {
    StrictKeysRightward(keys, positions);
    PlacesClimb(begin, end - begin, |keys|);
    ghost var starts;
    local, starts := BuildSegmentedModel(keys, positions, eps, SegmentCap(|keys|));
    StartsAreDetermined(local, Points(keys, positions), eps, SegmentCap(|keys|), starts);
    localFitted := FittedKeys(keys, starts);
    FreshFacts(data, keys, positions, begin, end, eps, local, starts);
  }

  lemma FreshFacts(data: seq<int>, keys: seq<int>, positions: seq<int>, begin: nat, end: nat, eps: nat,
                   local: seq<Segment>, starts: seq<nat>)
    requires StrictKeys(keys) && SortedSlots(data) && begin <= end <= |data| && LaidEvenly(data, begin, end, keys)
    requires positions == Places(begin, end - begin, |keys|) && Rightward(Points(keys, positions)) && RisingLines(local)
    requires IsPinnedModel(local, Points(keys, positions), eps, SegmentCap(|keys|), starts)
    requires starts == PinnedStarts(Points(keys, positions), 0, eps, SegmentCap(|keys|))
    ensures IsSplit(starts, |keys|) && Fresh(data, keys, begin, end, eps, local, FittedKeys(keys, starts))
  {
    hide *;
    PinnedIsFitOf(local, keys, positions, begin, end, eps, starts);
    LaidIsLaidAt(data, keys, positions, begin, end);
    RunStarts(local, keys, positions, eps, SegmentCap(|keys|), starts);
    FreshFit(data, keys, positions, local, starts, eps, SegmentCap(|keys|));
    FreshFitCovers(data, keys, local, starts, begin, end);
    FreshAnchors(data, keys, local, starts);
    FittedAreKeys(keys, starts);
    StartsAmongKeys(local, keys);
    FreshFrom(data, keys, begin, end, eps, local, FittedKeys(keys, starts));
  }

  lemma PinnedIsFitOf(local: seq<Segment>, keys: seq<int>, positions: seq<int>, begin: nat, end: nat, eps: nat, starts: seq<nat>)
    requires begin <= end && positions == Places(begin, end - begin, |keys|)
    requires IsPinnedModel(local, Points(keys, positions), eps, SegmentCap(|keys|), starts)
    requires starts == PinnedStarts(Points(keys, positions), 0, eps, SegmentCap(|keys|))
    ensures FitOf(local, keys, begin, end, eps)
  {
  }

  lemma StartsAmongKeys(local: seq<Segment>, keys: seq<int>)
    requires StrictKeys(keys) && forall s :: 0 <= s < |local| ==> local[s].startKey in keys
    ensures StartsAreKeys(local)
  {
  }

  lemma FreshFrom(data: seq<int>, keys: seq<int>, begin: nat, end: nat, eps: nat, local: seq<Segment>, localFitted: seq<set<int>>)
    requires begin <= end <= |data| && FitOf(local, keys, begin, end, eps)
    requires SortedStarts(local) && StartsAreKeys(local) && RisingLines(local) && (local == [] <==> keys == [])
    requires Routed(local, localFitted) && DriftOk(data, local, Zeros(|local|), localFitted, eps)
    requires AllFitted(data, local, localFitted, begin, end) && Anchored(data, local, localFitted)
    requires forall k :: k in keys ==> InSome(localFitted, k)
    requires forall s, k :: 0 <= s < |localFitted| && k in localFitted[s] ==> k in keys
    requires forall s :: 0 <= s < |local| ==> local[s].startKey in keys
    ensures Fresh(data, keys, begin, end, eps, local, localFitted)
  {
    hide FitOf, SortedStarts, StartsAreKeys, RisingLines, Routed, DriftOk, AllFitted, Anchored, InSome;
  }

  lemma LaidIsLaidAt(data: seq<int>, keys: seq<int>, positions: seq<int>, begin: nat, end: nat)
    requires StrictKeys(keys) && begin <= end <= |data| && LaidEvenly(data, begin, end, keys)
    requires positions == Places(begin, end - begin, |keys|)
    ensures LaidAt(data, keys, positions)
    ensures forall i :: 0 <= i < |keys| ==> IsReal(keys[i]) && keys[i] in data
    ensures forall p :: begin <= p < end && IsReal(data[p]) ==> data[p] in keys
  {
    forall i | 0 <= i < |keys| ensures 0 <= positions[i] < |data| && data[positions[i]] == keys[i] {
      assert PlacedAt(data, begin, end, keys, i);
    }
  }

  lemma RunStarts(local: seq<Segment>, keys: seq<int>, positions: seq<int>, eps: nat, maxKeys: nat, starts: seq<nat>)
    requires |positions| == |keys| && IsPinnedModel(local, Points(keys, positions), eps, maxKeys, starts)
    ensures IsSplit(starts, |keys|) && |local| == |starts|
    ensures forall s :: 0 <= s < |local| ==> local[s].startKey == keys[starts[s]]
  {
    forall s | 0 <= s < |local| ensures local[s].startKey == keys[starts[s]] {
      assert PinnedAt(local, Points(keys, positions), eps, maxKeys, starts, |keys|, s);
    }
  }

  lemma FittedAreKeys(keys: seq<int>, starts: seq<nat>)
    requires IsSplit(starts, |keys|)
    ensures forall s, k :: 0 <= s < |FittedKeys(keys, starts)| && k in FittedKeys(keys, starts)[s] ==> k in keys
  {
  }

  // ---- A relaid region ----

  /** The region's keys laid evenly over its slots, its segments replaced by a fit of them, and
      nothing else touched. */
  ghost predicate RelaidBy(data: seq<int>, segments: seq<Segment>, lo: nat, hi: nat, begin: nat, end: nat, eps: nat,
                           data': seq<int>, segments': seq<Segment>, local: seq<Segment>)
    requires lo <= hi < |segments| && begin <= end <= |data|
  {
    var keys := RealKeys(data[begin..end]);
    && SameOutside(data, data', begin, end) && LaidEvenly(data', begin, end, keys)
    && FitOf(local, keys, begin, end, eps) && segments' == Splice(segments, lo, hi, local)
  }
  // ---- Full layouts ----

  /** How many slots a full layout of n keys gets. */
  function Capacity(n: nat, density: real): nat
    requires 0.0 < density
  {
    if n == 0 then 0 else var c := CeilReal(n as real / density); if c < n then n else c
  }

  /** A full layout of these keys at the target density. */
  ghost predicate LaidOut(data: seq<int>, segments: seq<Segment>, keys: seq<int>, density: real, eps: nat)
    requires 0.0 < density
  {
    |data| == Capacity(|keys|, density) && LaidEvenly(data, 0, |data|, keys) && FitOf(segments, keys, 0, |data|, eps)
  }

  /** A stretch that spells out real keys holds only those keys and gaps. */
  lemma StretchHoldsKeys<V>(data: seq<int>, vals: seq<V>, keys: seq<int>, values: seq<V>, p: nat)
    requires |data| == |vals| && |keys| == |values| && p < |data| && IsReal(data[p])
    requires Entries(data, vals) == Zip(keys, values)
    ensures data[p] in keys
  {
    EntryIffSlot(data, vals, (data[p], vals[p]));
    var i :| 0 <= i < |keys| && Zip(keys, values)[i] == (data[p], vals[p]);
    assert keys[i] == data[p];
  }

  /** A whole array that spells out sorted keys is sorted. */
  lemma WholeSorted<V>(data: seq<int>, vals: seq<V>, keys: seq<int>, values: seq<V>)
    requires |data| == |vals| && |keys| == |values| && StrictKeys(keys)
    requires Entries(data, vals) == Zip(keys, values)
    ensures SortedSlots(data)
  {
    forall p | 0 <= p < |data| ensures data[p] <= EMPTY_SLOT {
      if IsReal(data[p]) { StretchHoldsKeys(data, vals, keys, values, p); }
    }
    SlotsFromEntries(data, vals);
  }

  lemma RelaidHolds<V>(data: seq<int>, vals: seq<V>, begin: nat, end: nat, keys: seq<int>, values: seq<V>)
    requires |data| == |vals| && begin <= end <= |data| && |keys| == |values|
    requires Entries(data[begin..end], vals[begin..end]) == Zip(keys, values)
    ensures forall p :: begin <= p < end && IsReal(data[p]) ==> data[p] in keys
  {
    hide Entries, Zip;
    forall p | begin <= p < end && IsReal(data[p]) ensures data[p] in keys {
      assert data[begin..end][p - begin] == data[p];
      StretchHoldsKeys(data[begin..end], vals[begin..end], keys, values, p - begin);
    }
  }

  /** Slots, values and model for a full layout. */
  method Spread<V>(keys: seq<int>, values: seq<V>, density: real, eps: nat, emptyValue: V)
    returns (data: seq<int>, vals: seq<V>, segments: seq<Segment>, ghost fitted: seq<set<int>>)
    requires 0.0 < density && |values| == |keys| && StrictKeys(keys)
    ensures |vals| == |data| && SortedSlots(data) && Entries(data, vals) == Zip(keys, values)
    ensures LaidOut(data, segments, keys, density, eps) && Fresh(data, keys, 0, |data|, eps, segments, fitted)
  {
    hide Entries, Zip, SortedSlots, StrictKeys, LaidEvenly, FitOf, Fresh;
    var n := |keys|;
    var capacity: int := if n == 0 then 0 else CeilReal(n as real / density);
    if capacity < n { capacity := n; }
    var blank, blankVals := Repeat(EMPTY_SLOT, capacity), Repeat(emptyValue, capacity);
    StrictKeysRightward(keys, Zeros(n));
    var positions;
    data, vals, positions := PlaceEvenly(blank, blankVals, 0, capacity, keys, values);
    assert capacity == Capacity(n, density);
    assert data[0..capacity] == data && vals[0..capacity] == vals;
    WholeSorted(data, vals, keys, values);
    PlacedEvenly(data, vals, 0, capacity, keys, values, positions);
    segments, fitted := FitKeys(data, keys, positions, 0, capacity, eps);
  }

  /** What the placing loop leaves behind. */
  lemma PlacedEvenly<V>(data: seq<int>, vals: seq<V>, begin: nat, end: nat, keys: seq<int>, values: seq<V>, positions: seq<int>)
    requires |data| == |vals| && begin <= end <= |data| && |keys| == |values| == |positions| && |keys| <= end - begin
    requires Entries(data[begin..end], vals[begin..end]) == Zip(keys, values)
    requires forall i :: 0 <= i < |keys| ==> positions[i] == Place(begin, end - begin, |keys|, i)
    requires forall i :: 0 <= i < |keys| ==> begin <= positions[i] < end && data[positions[i]] == keys[i]
    ensures LaidEvenly(data, begin, end, keys) && positions == Places(begin, end - begin, |keys|)
  {
    hide Entries, Zip, Place;
    RelaidHolds(data, vals, begin, end, keys, values);
    forall i | 0 <= i < |keys| ensures PlacedAt(data, begin, end, keys, i) {
      assert positions[i] == Place(begin, end - begin, |keys|, i);
    }
  }

  lemma ZipStrict<V>(data: seq<int>, vals: seq<V>, keys: seq<int>, values: seq<V>)
    requires |data| == |vals| && |keys| == |values| && (forall i :: 0 <= i < |data| ==> data[i] <= EMPTY_SLOT)
    requires Zip(keys, values) == Entries(data, vals) && SortedEntries(Entries(data, vals))
    ensures StrictKeys(keys)
  {
    var z := Zip(keys, values);
    forall i | 0 <= i < |keys| ensures keys[i] < EMPTY_SLOT {
      EntryIffSlot(data, vals, z[i]);
    }
    forall i, j | 0 <= i < j < |keys| ensures keys[i] < keys[j] { assert z[i].0 < z[j].0; }
  }

  /** All keys and values of an array, in key order. */
  method CollectAll<V>(data: seq<int>, vals: seq<V>, emptyValue: V) returns (keys: seq<int>, values: seq<V>)
    requires |data| == |vals| && SortedSlots(data)
    ensures |keys| == |values| && StrictKeys(keys) && Zip(keys, values) == Entries(data, vals)
  {
    var d, w;
    keys, values, d, w := Extract(data, vals, 0, |data|, emptyValue);
    assert data[0..|data|] == data && vals[0..|data|] == vals;
    EntriesSorted(data, vals);
    ZipStrict(data, vals, keys, values);
  }

  /** A sorted key list with one new key in its place. */
  method InsertSorted<V>(keys: seq<int>, values: seq<V>, newKey: int, value: V)
    returns (allKeys: seq<int>, allValues: seq<V>)
    requires |keys| == |values| && StrictKeys(keys) && newKey < EMPTY_SLOT
    requires newKey !in MapOf(Zip(keys, values))
    ensures |allKeys| == |allValues| && StrictKeys(allKeys)
    ensures MapOf(Zip(allKeys, allValues)) == MapOf(Zip(keys, values))[newKey := value]
  {
    hide MapOf, Zip;
    var pos := 0;
    while pos < |keys| && keys[pos] < newKey
      invariant 0 <= pos <= |keys|
      invariant forall i :: 0 <= i < pos ==> keys[i] < newKey
    {
      pos := pos + 1;
    }
    NotAmong(keys, values, newKey);
    allKeys := keys[..pos] + [newKey] + keys[pos..];
    allValues := values[..pos] + [value] + values[pos..];
    ZipInsert(keys, values, pos, newKey, value);
  }

  lemma NotAmong<V>(keys: seq<int>, values: seq<V>, newKey: int)
    requires |keys| == |values| && newKey !in MapOf(Zip(keys, values))
    ensures newKey !in keys
  {
    MapKeys(Zip(keys, values), newKey);
    forall i | 0 <= i < |keys| ensures keys[i] != newKey { assert Zip(keys, values)[i].0 == keys[i]; }
  }

  lemma ZipInsert<V>(keys: seq<int>, values: seq<V>, pos: nat, newKey: int, value: V)
    requires |keys| == |values| && pos <= |keys| && newKey !in keys
    ensures MapOf(Zip(keys[..pos] + [newKey] + keys[pos..], values[..pos] + [value] + values[pos..]))
         == MapOf(Zip(keys, values))[newKey := value]
  {
    var a, b := Zip(keys[..pos], values[..pos]), Zip(keys[pos..], values[pos..]);
    assert Zip(keys, values) == a + b;
    assert Zip(keys[..pos] + [newKey] + keys[pos..], values[..pos] + [value] + values[pos..]) == a + [(newKey, value)] + b;
    forall i | 0 <= i < |b| ensures b[i].0 != newKey { assert b[i].0 == keys[pos + i]; }
    InsertIsUpdate(a, b, newKey, value);
  }

  // ---- Relaying a region ----

  lemma SubSorted(data: seq<int>, begin: nat, end: nat)
    requires SortedSlots(data) && begin <= end <= |data|
    ensures SortedSlots(data[begin..end])
  {
  }

  /** A region's keys are sorted and are the ones its segments own; the whole array's are not empty. */
  lemma RegionKeys<V>(data: seq<int>, vals: seq<V>, segments: seq<Segment>, lo: nat, hi: nat, begin: nat, end: nat,
                      keys: seq<int>, values: seq<V>)
    requires |data| == |vals| && SortedSlots(data) && lo <= hi < |segments|
    requires IsRegion(data, segments, lo, hi, begin, end)
    requires |keys| == |values| && Zip(keys, values) == Entries(data[begin..end], vals[begin..end])
    ensures StrictKeys(keys)
    ensures forall k :: k in keys ==> KeyInRegion(segments, lo, hi, k)
    ensures lo == 0 && hi + 1 == |segments| ==> Entries(data, vals) == Zip(keys, values)
  {
    var d, w := data[begin..end], vals[begin..end];
    assert SortedSlots(d) by { SubSorted(data, begin, end); }
    EntriesSorted(d, w);
    ZipStrict(d, w, keys, values);
    RegionHoldsItsKeys(data, segments, lo, hi, begin, end);
    forall i | 0 <= i < |keys| ensures KeyInRegion(segments, lo, hi, keys[i]) {
      assert Zip(keys, values)[i] == (keys[i], values[i]);
      EntryIffSlot(d, w, (keys[i], values[i]));
      var p :| 0 <= p < |d| && IsReal(d[p]) && (keys[i], values[i]) == (d[p], w[p]);
      assert data[begin + p] == d[p];
    }
    if lo == 0 && hi + 1 == |segments| { assert d == data && w == vals; }
  }

  lemma RelaidBounded(data: seq<int>, data': seq<int>, begin: nat, end: nat, keys: seq<int>)
    requires begin <= end <= |data| && SameOutside(data, data', begin, end) && SortedSlots(data)
    requires StrictKeys(keys) && forall p :: begin <= p < end && IsReal(data'[p]) ==> data'[p] in keys
    ensures forall p :: 0 <= p < |data'| ==> data'[p] <= EMPTY_SLOT
  {
    forall p | 0 <= p < |data'| ensures data'[p] <= EMPTY_SLOT {
      if p < begin || end <= p { OutsideAt(data, data', begin, end, p); }
    }
  }

  /** A relaid stretch: same entries, still sorted, holding only its own keys. */
  lemma RelaidStretch<V>(data: seq<int>, vals: seq<V>, data': seq<int>, vals': seq<V>, begin: nat, end: nat,
                         keys: seq<int>, values: seq<V>)
    requires |data| == |vals| && SortedSlots(data) && begin <= end <= |data|
    requires SameOutside(data, data', begin, end) && SameOutside(vals, vals', begin, end)
    requires |keys| == |values| && StrictKeys(keys)
    requires Zip(keys, values) == Entries(data[begin..end], vals[begin..end])
    requires Entries(data'[begin..end], vals'[begin..end]) == Zip(keys, values)
    ensures |data'| == |vals'| && SortedSlots(data') && Entries(data', vals') == Entries(data, vals)
    ensures forall p :: begin <= p < end && IsReal(data'[p]) ==> data'[p] in keys
  {
    StretchKeepsEntries(data, vals, data', vals', begin, end);
    EntriesSorted(data, vals);
    hide Entries, Zip;
    RelaidHolds(data', vals', begin, end, keys, values);
    RelaidBounded(data, data', begin, end, keys);
    SlotsFromEntries(data', vals');
  }

  lemma SameOutsideTrans<T>(a: seq<T>, b: seq<T>, c: seq<T>, begin: nat, end: nat)
    requires begin <= end <= |a| && SameOutside(a, b, begin, end) && SameOutside(b, c, begin, end)
    ensures SameOutside(a, c, begin, end)
  {
  }

  lemma ZipEmpty<V>(keys: seq<int>, values: seq<V>)
    requires |keys| == |values|
    ensures keys == [] <==> Zip(keys, values) == []
  {
  }

  /** The slots, values and local segments after re-laying a region. */
  method RelayRegion<V>(data: seq<int>, vals: seq<V>, segments: seq<Segment>, lo: nat, hi: nat, begin: nat, end: nat,
                        eps: nat, emptyValue: V)
    returns (data': seq<int>, vals': seq<V>, local: seq<Segment>, ghost localFitted: seq<set<int>>)
    requires |data| == |vals| && SortedSlots(data) && Entries(data, vals) != []
    requires lo <= hi < |segments| && IsRegion(data, segments, lo, hi, begin, end)
    ensures |data'| == |vals'| && SortedSlots(data') && Entries(data', vals') == Entries(data, vals)
    ensures SameOutside(data, data', begin, end) && LaidEvenly(data', begin, end, RealKeys(data[begin..end]))
    ensures Fresh(data', RealKeys(data[begin..end]), begin, end, eps, local, localFitted)
    ensures RealKeys(data'[begin..end]) == RealKeys(data[begin..end])
    ensures forall k :: k in RealKeys(data[begin..end]) ==> KeyInRegion(segments, lo, hi, k)
    ensures lo > 0 || hi + 1 < |segments| || local != []
  {
    hide Entries, Zip, Rightward, SortedSlots, StrictKeys, LaidEvenly, FitOf, KeyInRegion;
    var keys, values, blank, blankVals := Extract(data, vals, begin, end, emptyValue);
    RegionKeys(data, vals, segments, lo, hi, begin, end, keys, values);
    ZipEmpty(keys, values);
    EntriesKeys(data[begin..end], vals[begin..end], keys, values);
    var positions;
    data', vals', positions := PlaceEvenly(blank, blankVals, begin, end, keys, values);
    SameOutsideTrans(data, blank, data', begin, end);
    SameOutsideTrans(vals, blankVals, vals', begin, end);
    RelaidStretch(data, vals, data', vals', begin, end, keys, values);
    PlacedEvenly(data', vals', begin, end, keys, values, positions);
    EntriesKeys(data'[begin..end], vals'[begin..end], keys, values);
    local, localFitted := FitKeys(data', keys, positions, begin, end, eps);
  }

  lemma SpliceNonempty<T>(s: seq<T>, lo: nat, hi: nat, local: seq<T>)
    requires lo <= hi < |s|
    ensures lo > 0 || hi + 1 < |s| || local != [] ==> Splice(s, lo, hi, local) != []
  {
  }

  lemma SpliceStarts(segments: seq<Segment>, lo: nat, hi: nat, local: seq<Segment>)
    requires lo <= hi < |segments| && StartsAreKeys(segments) && StartsAreKeys(local)
    ensures StartsAreKeys(Splice(segments, lo, hi, local))
  {
  }

  lemma {:induction false} RealKeysHold(data: seq<int>, k: int)
    ensures k in RealKeys(data) <==> k in data && IsReal(k)
  {
    if data != [] {
      var n := |data| - 1;
      RealKeysHold(data[..n], k);
      assert data == data[..n] + [data[n]];
    }
  }

  /** Relaying a region loses no key. */
  lemma KeysStay(data: seq<int>, data': seq<int>, begin: nat, end: nat, k: int)
    requires begin <= end <= |data| && SameOutside(data, data', begin, end)
    requires LaidEvenly(data', begin, end, RealKeys(data[begin..end])) && k in data && IsReal(k)
    ensures k in data'
  {
    hide RealKeys, Place;
    var p :| 0 <= p < |data| && data[p] == k;
    if begin <= p < end {
      assert data[begin..end][p - begin] == k;
      RealKeysHold(data[begin..end], k);
      var i :| 0 <= i < |RealKeys(data[begin..end])| && RealKeys(data[begin..end])[i] == k;
      assert PlacedAt(data', begin, end, RealKeys(data[begin..end]), i);
    } else {
      OutsideAt(data, data', begin, end, p);
    }
  }

  /** The region's slots are the only ones that hold its keys. */
  lemma RegionIsApart(data: seq<int>, segments: seq<Segment>, lo: nat, hi: nat, begin: nat, end: nat)
    requires lo <= hi < |segments| && SortedSlots(data) && IsRegion(data, segments, lo, hi, begin, end)
    ensures OutsideRegion(data, segments, lo, hi, begin, end)
  {
    RegionHoldsItsKeys(data, segments, lo, hi, begin, end);
    hide IsRegion, SortedSlots, KeyInRegion;
  }

  /** A fresh fit of keys that all belong to a region can stand in for its segments. */
  lemma FreshIsLocal(data: seq<int>, segments: seq<Segment>, lo: nat, hi: nat, keys: seq<int>, begin: nat, end: nat,
                     local: seq<Segment>, localFitted: seq<set<int>>, eps: nat)
    requires lo <= hi < |segments| && begin <= end <= |data| && Fresh(data, keys, begin, end, eps, local, localFitted)
    requires forall k :: k in keys ==> KeyInRegion(segments, lo, hi, k)
    ensures LocalFit(data, segments, lo, hi, local, localFitted, eps)
  {
    hide FitOf, SortedStarts, StartsAreKeys, RisingLines, AllFitted, Anchored, InSome, DriftOk, KeyInRegion;
  }

  lemma SpliceRises(segments: seq<Segment>, lo: nat, hi: nat, local: seq<Segment>)
    requires lo <= hi < |segments| && RisingLines(segments) && RisingLines(local)
    ensures RisingLines(Splice(segments, lo, hi, local))
  {
  }

  /** What an array keeps about its segments. */
  ghost predicate SegmentsKept(data: seq<int>, segments: seq<Segment>, changes: seq<nat>, fitted: seq<set<int>>, eps: nat) {
    && SortedStarts(segments) && StartsAreKeys(segments) && RisingLines(segments) && Routed(segments, fitted)
    && DriftOk(data, segments, changes, fitted, eps) && Covered(data, segments, changes, fitted)
  }

  /** Everything the array keeps about its segments, it keeps when a region is relaid. */
  lemma SpliceKeepsAll(data: seq<int>, data': seq<int>, begin: nat, end: nat, segments: seq<Segment>, changes: seq<nat>,
                       fitted: seq<set<int>>, lo: nat, hi: nat, local: seq<Segment>, localFitted: seq<set<int>>, eps: nat)
    requires lo <= hi < |segments| && SortedSlots(data) && IsRegion(data, segments, lo, hi, begin, end)
    requires SegmentsKept(data, segments, changes, fitted, eps)
    requires SameOutside(data, data', begin, end) && LaidEvenly(data', begin, end, RealKeys(data[begin..end]))
    requires Fresh(data', RealKeys(data[begin..end]), begin, end, eps, local, localFitted)
    requires forall k :: k in RealKeys(data[begin..end]) ==> KeyInRegion(segments, lo, hi, k)
    requires lo > 0 || hi + 1 < |segments| || local != []
    ensures RelaidBy(data, segments, lo, hi, begin, end, eps, data', Splice(segments, lo, hi, local), local)
    ensures Splice(segments, lo, hi, local) != [] && |data'| == |data|
    ensures |Splice(changes, lo, hi, Zeros(|local|))| == |Splice(segments, lo, hi, local)|
    ensures SegmentsKept(data', Splice(segments, lo, hi, local), Splice(changes, lo, hi, Zeros(|local|)),
                         Splice(fitted, lo, hi, localFitted), eps)
    ensures AllFitted(data', Splice(segments, lo, hi, local), Splice(fitted, lo, hi, localFitted), begin, end)
    ensures Anchored(data, segments, fitted) ==>
      Anchored(data', Splice(segments, lo, hi, local), Splice(fitted, lo, hi, localFitted))
  {
    var keys := RealKeys(data[begin..end]);
    RegionIsApart(data, segments, lo, hi, begin, end);
    FreshIsLocal(data', segments, lo, hi, keys, begin, end, local, localFitted, eps);
    FreshParts(data', keys, begin, end, eps, local, localFitted);
    assert |changes| == |segments| == |fitted| && |localFitted| == |local|;
    hide RealKeys, SortedSlots, IsRegion, SortedStarts, StartsAreKeys, RisingLines, Routed, DriftOk, Covered, KeyInRegion, Fresh,
      LaidEvenly, SameOutside, FitOf, AllFitted, Anchored, InSome, OutsideRegion, LocalFit, Splice;
    forall p | begin <= p < end && IsReal(data'[p])
      ensures KeyInRegion(segments, lo, hi, data'[p]) && InSome(localFitted, data'[p])
    {
      LaidHolds(data', begin, end, keys, p);
    }
    SpliceKeepsDrift(data, data', begin, end, segments, changes, fitted, lo, hi, local, localFitted, eps);
    SpliceNonempty(segments, lo, hi, local);
    SpliceStarts(segments, lo, hi, local);
    SpliceRises(segments, lo, hi, local);
    SpliceKeepsCover(data, data', begin, end, segments, changes, fitted, lo, hi, local, localFitted);
    if Anchored(data, segments, fitted) {
      forall k | k in data && IsReal(k) ensures k in data' { KeysStay(data, data', begin, end, k); }
      SpliceKeepsAnchors(data, data', begin, end, segments, fitted, lo, hi, local, localFitted);
    }
  }

  lemma LaidHolds(data: seq<int>, begin: nat, end: nat, keys: seq<int>, p: nat)
    requires begin <= end <= |data| && LaidEvenly(data, begin, end, keys) && begin <= p < end && IsReal(data[p])
    ensures data[p] in keys
  {
  }

  /** A fresh fit, part by part. */
  lemma FreshParts(data: seq<int>, keys: seq<int>, begin: nat, end: nat, eps: nat, local: seq<Segment>, localFitted: seq<set<int>>)
    requires begin <= end <= |data| && Fresh(data, keys, begin, end, eps, local, localFitted)
    ensures FitOf(local, keys, begin, end, eps)
    ensures SortedStarts(local) && StartsAreKeys(local) && RisingLines(local) && (local == [] <==> keys == [])
    ensures Routed(local, localFitted) && DriftOk(data, local, Zeros(|local|), localFitted, eps)
    ensures AllFitted(data, local, localFitted, begin, end) && Anchored(data, local, localFitted)
    ensures forall k :: k in keys ==> InSome(localFitted, k)
    ensures forall s :: 0 <= s < |local| ==> local[s].startKey in keys
  {
    hide FitOf, SortedStarts, StartsAreKeys, RisingLines, Routed, DriftOk, AllFitted, Anchored, InSome;
  }

  /** What a full layout gives the array. */
  lemma LayoutParts(data: seq<int>, segments: seq<Segment>, keys: seq<int>, density: real, eps: nat, fitted: seq<set<int>>)
    requires 0.0 < density && LaidOut(data, segments, keys, density, eps) && Fresh(data, keys, 0, |data|, eps, segments, fitted)
    ensures SegmentsKept(data, segments, Zeros(|segments|), fitted, eps) && (segments == [] <==> data == [])
    ensures |data| >= |keys| && (keys != [] ==> segments != [])
    ensures Anchored(data, segments, fitted) && AllFitted(data, segments, fitted, 0, |data|)
  {
    FreshParts(data, keys, 0, |data|, eps, segments, fitted);
    assert |data| == Capacity(|keys|, density);
    hide LaidOut, Fresh, FitOf, SortedStarts, StartsAreKeys, RisingLines, Routed, DriftOk, AllFitted, Anchored, InSome, Covered;
    FittedCovers(data, segments, fitted);
  }

  // ---- Reading a layout ----

  /** Where the segments of an even layout start. */
  lemma FitStartsAt(local: seq<Segment>, keys: seq<int>, begin: nat, end: nat, eps: nat, starts: seq<nat>)
    requires begin <= end && FitOf(local, keys, begin, end, eps)
    requires starts == PinnedStarts(LaidPoints(keys, begin, end), 0, eps, SegmentCap(|keys|))
    ensures |local| == |starts| && forall k :: 0 <= k < |starts| ==> starts[k] < |keys| && local[k].startKey == keys[starts[k]]
  {
    forall k | 0 <= k < |starts| ensures starts[k] < |keys| && local[k].startKey == keys[starts[k]] {
      FitAnchorAt(local, keys, begin, end, eps, starts, k);
    }
  }

  /** Each segment's line is anchored at its first key's slot. */
  lemma FitAnchorAt(local: seq<Segment>, keys: seq<int>, begin: nat, end: nat, eps: nat, starts: seq<nat>, k: nat)
    requires begin <= end && FitOf(local, keys, begin, end, eps)
    requires starts == PinnedStarts(LaidPoints(keys, begin, end), 0, eps, SegmentCap(|keys|)) && k < |starts|
    ensures |local| == |starts| && starts[k] < |keys| && local[k].startKey == keys[starts[k]]
    ensures AnchorPosition(local[k]) == Place(begin, end - begin, |keys|, starts[k]) as real
  {
    hide PinnedStarts, SegmentCap;
    var pts := LaidPoints(keys, begin, end);
    assert PinnedAt(local, pts, eps, SegmentCap(|keys|), starts, |pts|, k);
  }

  /** A slot that is no key's place is a gap. */
  lemma LaidGap(data: seq<int>, begin: nat, end: nat, keys: seq<int>, p: nat)
    requires begin <= p < end <= |data| && SortedSlots(data) && StrictKeys(keys) && LaidEvenly(data, begin, end, keys)
    requires p !in Places(begin, end - begin, |keys|)
    ensures data[p] == EMPTY_SLOT
  {
    hide Place;
    forall i | 0 <= i < |keys| ensures keys[i] != data[p] {
      assert PlacedAt(data, begin, end, keys, i);
      assert Places(begin, end - begin, |keys|)[i] == Place(begin, end - begin, |keys|, i);
    }
  }

  lemma LaidAtPlace(data: seq<int>, begin: nat, end: nat, keys: seq<int>, i: nat, p: nat)
    requires begin <= end <= |data| && LaidEvenly(data, begin, end, keys) && i < |keys|
    requires p == Place(begin, end - begin, |keys|, i)
    ensures begin <= p < end && data[p] == keys[i]
  {
    assert PlacedAt(data, begin, end, keys, i);
  }

  lemma RealKeysOfOne(k: int)
    ensures RealKeys([k]) == if IsReal(k) then [k] else []
  {
    assert [k][..0] == [];
  }

  lemma RealKeysPush(data: seq<int>, k: int)
    ensures RealKeys(data + [k]) == RealKeys(data) + (if IsReal(k) then [k] else [])
  {
    assert (data + [k])[..|data|] == data;
  }
}
