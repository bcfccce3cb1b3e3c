/** Which keys the drift bound speaks of (cpp/gapped_array.h). A segment's line is promised to stay
    close to the keys it was fit on; every other key the segment owns was inserted since the fit, and
    was counted as a change when it was. So a segment's count also bounds how many of its keys the
    promise leaves out. */
module Coverage {
  import opened Geometry
  import opened FitLines
  import opened Segments
  import opened PinnedModel
  import opened Slots
  import opened SlotSearch
  import opened EvenLayout
  import opened Drift

  /** The keys in the array that segment s owns and was not fit on. */
  ghost function Strays(data: seq<int>, segments: seq<Segment>, fitted: seq<set<int>>, s: nat): set<int>
    requires s < |fitted|
  {
    set p | 0 <= p < |data| && IsReal(data[p]) && Owns(segments, s, data[p]) && data[p] !in fitted[s] :: data[p]
  }

  /** No segment owns more keys it was not fit on than changes counted against it. */
  ghost predicate Covered(data: seq<int>, segments: seq<Segment>, changes: seq<nat>, fitted: seq<set<int>>) {
    && |changes| == |segments| == |fitted|
    && forall s :: 0 <= s < |segments| ==> CoveredAt(data, segments, changes, fitted, s)
  }

  ghost predicate CoveredAt(data: seq<int>, segments: seq<Segment>, changes: seq<nat>, fitted: seq<set<int>>, s: nat)
    requires s < |changes| == |fitted|
  {
    |Strays(data, segments, fitted, s)| <= changes[s]
  }

  /** Every key in a stretch is one its segment was fit on. */
  ghost predicate AllFitted(data: seq<int>, segments: seq<Segment>, fitted: seq<set<int>>, begin: nat, end: nat)
    requires begin <= end <= |data|
  {
    forall s, p :: 0 <= s < |fitted| && begin <= p < end && IsReal(data[p]) && Owns(segments, s, data[p]) ==> data[p] in fitted[s]
  }

  lemma Smaller<T>(a: set<T>, b: set<T>)
    requires a <= b
    ensures |a| <= |b|
  {
    assert b == a + (b - a);
  }

  lemma OneOwner(segments: seq<Segment>, r: nat, s: nat, key: int)
    requires Owns(segments, r, key) && Owns(segments, s, key)
    ensures r == s
  {
  }

  /** A stretch in which every key is fitted has no strays. */
  lemma FittedCovers(data: seq<int>, segments: seq<Segment>, fitted: seq<set<int>>)
    requires |segments| == |fitted| && AllFitted(data, segments, fitted, 0, |data|)
    ensures Covered(data, segments, Zeros(|segments|), fitted)
  {
    forall s | 0 <= s < |segments| ensures CoveredAt(data, segments, Zeros(|segments|), fitted, s) {
      assert Strays(data, segments, fitted, s) == {};
    }
  }

  // ---- Changes ----

  /** Inserting a key counts it against the segment that owns it. */
  lemma InsertKeepsCover(data: seq<int>, data': seq<int>, key: int, segments: seq<Segment>, changes: seq<nat>,
                         fitted: seq<set<int>>, owner: nat, first: nat, last: nat)
    requires Covered(data, segments, changes, fitted) && Owns(segments, owner, key) && first <= owner <= last
    requires forall p :: 0 <= p < |data'| && IsReal(data'[p]) ==> data'[p] == key || data'[p] in data
    ensures Covered(data', segments, Bump(changes, first, last), DropKey(fitted, key))
  {
    var changes', fitted' := Bump(changes, first, last), DropKey(fitted, key);
    forall s | 0 <= s < |segments| ensures CoveredAt(data', segments, changes', fitted', s) {
      assert CoveredAt(data, segments, changes, fitted, s);
      var extra := if s == owner then {key} else {};
      forall k | k in Strays(data', segments, fitted', s) ensures k in Strays(data, segments, fitted, s) + extra {
        if k == key { OneOwner(segments, s, owner, key); }
      }
      Smaller(Strays(data', segments, fitted', s), Strays(data, segments, fitted, s) + extra);
    }
  }

  /** Fewer keys, fewer strays. */
  lemma FewerKeysCovered(data: seq<int>, data': seq<int>, segments: seq<Segment>, changes: seq<nat>, fitted: seq<set<int>>)
    requires Covered(data, segments, changes, fitted)
    requires forall p :: 0 <= p < |data'| && IsReal(data'[p]) ==> data'[p] in data
    ensures Covered(data', segments, changes, fitted)
  {
    forall s | 0 <= s < |segments| ensures CoveredAt(data', segments, changes, fitted, s) {
      assert CoveredAt(data, segments, changes, fitted, s);
      Smaller(Strays(data', segments, fitted, s), Strays(data, segments, fitted, s));
    }
  }

  // ---- Refits ----

  lemma {:induction false} RunOf(starts: seq<nat>, n: nat, i: nat, k: nat) returns (j: nat)
    requires IsSplit(starts, n) && i < n && k < |starts| && starts[k] <= i
    ensures j < |starts| && starts[j] <= i < RunEnd(starts, j, n)
    decreases |starts| - k
  {
    if k + 1 < |starts| && starts[k + 1] <= i { j := RunOf(starts, n, i, k + 1); } else { j := k; }
  }

  /** A fresh fit covers every key it was given. */
  lemma FreshFitCovers(data: seq<int>, keys: seq<int>, segments: seq<Segment>, starts: seq<nat>, begin: nat, end: nat)
    requires IsSplit(starts, |keys|) && Routed(segments, FittedKeys(keys, starts)) && begin <= end <= |data|
    requires forall p :: begin <= p < end && IsReal(data[p]) ==> data[p] in keys
    ensures AllFitted(data, segments, FittedKeys(keys, starts), begin, end)
    ensures forall k :: k in keys ==> InSome(FittedKeys(keys, starts), k)
  {
    var fitted := FittedKeys(keys, starts);
    forall k | k in keys ensures InSome(fitted, k) {
      var i :| 0 <= i < |keys| && keys[i] == k;
      var j := RunOf(starts, |keys|, i, 0);
      assert k in fitted[j];
    }
    forall s, p | 0 <= s < |fitted| && begin <= p < end && IsReal(data[p]) && Owns(segments, s, data[p])
      ensures data[p] in fitted[s]
    {
      OwnerHasFitted(segments, fitted, s, data[p]);
    }
  }

  ghost predicate InSome(fitted: seq<set<int>>, k: int) {
    exists j :: 0 <= j < |fitted| && k in fitted[j]
  }

  lemma OwnerHasFitted(segments: seq<Segment>, fitted: seq<set<int>>, s: nat, k: int)
    requires Routed(segments, fitted) && Owns(segments, s, k) && InSome(fitted, k)
    ensures s < |fitted| && k in fitted[s]
  {
    var j :| 0 <= j < |fitted| && k in fitted[j];
    assert RoutesTo(segments, j, k);
    OneOwner(segments, s, j, k);
  }

  /** A key outside a region that a kept segment owns after the splice was that segment's before. */
  lemma KeptOwner(segments: seq<Segment>, lo: nat, hi: nat, local: seq<Segment>, s: nat, k: int)
    requires lo <= hi < |segments| && SortedStarts(segments) && SortedStarts(local)
    requires forall j :: 0 <= j < |local| ==> KeyInRegion(segments, lo, hi, local[j].startKey)
    requires Owns(Splice(segments, lo, hi, local), s, k) && (s < lo || lo + |local| <= s) && !KeyInRegion(segments, lo, hi, k)
    ensures Owns(segments, if s < lo then s else s - |local| - lo + hi + 1, k)
  {
    var all := Splice(segments, lo, hi, local);
    if s < lo {
      if hi + 1 < |segments| { assert all[lo + |local|] == segments[hi + 1]; }
      forall t | s < t < |segments| ensures k < segments[t].startKey {
        if t < lo { assert all[t] == segments[t]; } else if t > lo { assert segments[lo].startKey < segments[t].startKey; }
      }
    } else {
      var kept := s - |local| - lo + hi + 1;
      assert all[s] == segments[kept];
      forall t | kept < t < |segments| ensures k < segments[t].startKey {
        assert all[t + |local| + lo - hi - 1] == segments[t];
      }
      if s == 0 { assert kept == hi + 1; }
    }
  }

  /** A key that a local segment owns after the splice belongs to the region. */
  lemma LocalOwner(segments: seq<Segment>, lo: nat, hi: nat, local: seq<Segment>, s: nat, k: int)
    requires lo <= hi < |segments| && SortedStarts(segments)
    requires forall j :: 0 <= j < |local| ==> KeyInRegion(segments, lo, hi, local[j].startKey)
    requires Owns(Splice(segments, lo, hi, local), s, k) && lo <= s < lo + |local|
    ensures KeyInRegion(segments, lo, hi, k)
  {
    var all := Splice(segments, lo, hi, local);
    assert all[s] == local[s - lo];
    if hi + 1 < |segments| { assert all[lo + |local|] == segments[hi + 1]; }
  }

  /** The relaid keys belong to local segments, which were fit on them. */
  ghost predicate RelaidFitted(data: seq<int>, all: seq<Segment>, fitted: seq<set<int>>, begin: nat, end: nat, lo: nat, m: nat)
    requires begin <= end <= |data|
  {
    forall s, p :: 0 <= s < |fitted| && begin <= p < end && IsReal(data[p]) ==> RelaidAt(all, fitted, lo, m, s, data[p])
  }

  ghost predicate RelaidAt(all: seq<Segment>, fitted: seq<set<int>>, lo: nat, m: nat, s: nat, k: int)
    requires s < |fitted|
  {
    Owns(all, s, k) ==> lo <= s < lo + m && k in fitted[s]
  }

  /** Replacing a region's segments by a fit of its keys keeps every segment covered. */
  lemma SpliceKeepsCover(data: seq<int>, data': seq<int>, begin: nat, end: nat, segments: seq<Segment>, changes: seq<nat>,
                         fitted: seq<set<int>>, lo: nat, hi: nat, local: seq<Segment>, localFitted: seq<set<int>>)
    requires lo <= hi < |segments| && SortedStarts(segments) && Covered(data, segments, changes, fitted)
    requires begin <= end <= |data| && SameOutside(data, data', begin, end)
    requires OutsideRegion(data, segments, lo, hi, begin, end)
    requires forall p :: begin <= p < end && IsReal(data'[p]) ==> InSome(localFitted, data'[p])
    requires SortedStarts(local) && |localFitted| == |local|
    requires forall j :: 0 <= j < |local| ==> KeyInRegion(segments, lo, hi, local[j].startKey)
    requires Routed(Splice(segments, lo, hi, local), Splice(fitted, lo, hi, localFitted))
    ensures Covered(data', Splice(segments, lo, hi, local), Splice(changes, lo, hi, Zeros(|local|)), Splice(fitted, lo, hi, localFitted))
    ensures AllFitted(data', Splice(segments, lo, hi, local), Splice(fitted, lo, hi, localFitted), begin, end)
  {
    var all, changes', fitted' := Splice(segments, lo, hi, local), Splice(changes, lo, hi, Zeros(|local|)),
                                  Splice(fitted, lo, hi, localFitted);
    hide Routed, KeyInRegion, OutsideRegion, InSome, SortedStarts, Owns, SameOutside;
    SpliceMiddle(fitted, lo, hi, localFitted);
    RelaidAreFitted(data', begin, end, all, fitted', lo, localFitted);
    forall s | 0 <= s < |all| ensures CoveredAt(data', all, changes', fitted', s) {
      SplicedStrays(data, data', begin, end, segments, changes, fitted, lo, hi, local, localFitted, s);
    }
  }

  lemma RelaidAreFitted(data: seq<int>, begin: nat, end: nat, all: seq<Segment>, fitted: seq<set<int>>, lo: nat,
                        localFitted: seq<set<int>>)
    requires begin <= end <= |data| && Routed(all, fitted)
    requires lo + |localFitted| <= |fitted| && fitted[lo..lo + |localFitted|] == localFitted
    requires forall p :: begin <= p < end && IsReal(data[p]) ==> InSome(localFitted, data[p])
    ensures RelaidFitted(data, all, fitted, begin, end, lo, |localFitted|)
  {
    hide Routed, InSome, Owns;
    forall s, p | 0 <= s < |fitted| && begin <= p < end && IsReal(data[p])
      ensures RelaidAt(all, fitted, lo, |localFitted|, s, data[p])
    {
      if Owns(all, s, data[p]) { RelaidKeyOwner(all, fitted, lo, localFitted, s, data[p]); }
    }
  }

  lemma SpliceMiddle<T>(s: seq<T>, lo: nat, hi: nat, local: seq<T>)
    requires lo <= hi < |s|
    ensures lo + |local| <= |Splice(s, lo, hi, local)| && Splice(s, lo, hi, local)[lo..lo + |local|] == local
  {
  }

  /** The keys outside a stretch do not belong to the region. */
  ghost predicate OutsideRegion(data: seq<int>, segments: seq<Segment>, lo: nat, hi: nat, begin: nat, end: nat)
    requires lo <= hi < |segments|
  {
    forall p :: 0 <= p < |data| && IsReal(data[p]) && !(begin <= p < end) ==> !KeyInRegion(segments, lo, hi, data[p])
  }

  lemma RelaidKeyOwner(all: seq<Segment>, fitted: seq<set<int>>, lo: nat, localFitted: seq<set<int>>, s: nat, k: int)
    requires Routed(all, fitted) && lo + |localFitted| <= |fitted| && fitted[lo..lo + |localFitted|] == localFitted
    requires InSome(localFitted, k) && Owns(all, s, k)
    ensures lo <= s < lo + |localFitted| && k in fitted[s]
  {
    var j :| 0 <= j < |localFitted| && k in localFitted[j];
    assert fitted[lo..lo + |localFitted|][j] == fitted[lo + j];
    assert RoutesTo(all, lo + j, k);
    OneOwner(all, s, lo + j, k);
  }

  lemma SplicedStrays(data: seq<int>, data': seq<int>, begin: nat, end: nat, segments: seq<Segment>, changes: seq<nat>,
                      fitted: seq<set<int>>, lo: nat, hi: nat, local: seq<Segment>, localFitted: seq<set<int>>, s: nat)
    requires lo <= hi < |segments| && SortedStarts(segments) && Covered(data, segments, changes, fitted)
    requires begin <= end <= |data| && SameOutside(data, data', begin, end) && |localFitted| == |local| && SortedStarts(local)
    requires forall j :: 0 <= j < |local| ==> KeyInRegion(segments, lo, hi, local[j].startKey)
    requires OutsideRegion(data, segments, lo, hi, begin, end) && s < |Splice(segments, lo, hi, local)|
    requires RelaidFitted(data', Splice(segments, lo, hi, local), Splice(fitted, lo, hi, localFitted), begin, end, lo, |local|)
    ensures CoveredAt(data', Splice(segments, lo, hi, local), Splice(changes, lo, hi, Zeros(|local|)), Splice(fitted, lo, hi, localFitted), s)
  {
    var all, fitted' := Splice(segments, lo, hi, local), Splice(fitted, lo, hi, localFitted);
    var strays := Strays(data', all, fitted', s);
    if lo <= s < lo + |local| {
      forall p | 0 <= p < |data'| && IsReal(data'[p]) && Owns(all, s, data'[p]) ensures data'[p] in fitted'[s] {
        if begin <= p < end {
          assert RelaidAt(all, fitted', lo, |local|, s, data'[p]);
        } else {
          LocalOwner(segments, lo, hi, local, s, data'[p]);
          OutsideAtOr(data, data', begin, end, p);
        }
      }
      assert strays == {};
    } else {
      var kept := if s < lo then s else s - |local| - lo + hi + 1;
      assert fitted'[s] == fitted[kept];
      assert CoveredAt(data, segments, changes, fitted, kept);
      forall k | k in strays ensures k in Strays(data, segments, fitted, kept) {
        var p :| 0 <= p < |data'| && IsReal(data'[p]) && Owns(all, s, data'[p]) && data'[p] !in fitted'[s] && data'[p] == k;
        OutsideAtOr(data, data', begin, end, p);
        assert begin <= p < end ==> RelaidAt(all, fitted', lo, |local|, s, data'[p]);
        KeptOwner(segments, lo, hi, local, s, k);
      }
      Smaller(strays, Strays(data, segments, fitted, kept));
    }
  }

  lemma OutsideAtOr(data: seq<int>, data': seq<int>, begin: nat, end: nat, p: nat)
    requires begin <= end <= |data| && SameOutside(data, data', begin, end) && p < |data'|
    ensures begin <= p < end || data'[p] == data[p]
  {
    if p < begin || end <= p { OutsideAt(data, data', begin, end, p); }
  }

  // ---- What follows ----

  /** The keys segment s owns that are d slots or more from where its line puts them. */
  ghost function FarKeys(data: seq<int>, segments: seq<Segment>, s: nat, d: nat): set<int>
    requires s < |segments|
  {
    set p | 0 <= p < |data| && IsReal(data[p]) && Owns(segments, s, data[p])
        && !((p - d) as real < At(LineOf(segments[s]), data[p]) < (p + d) as real) :: data[p]
  }

  /** How close a line stays to the keys its segment was fit on: within 2 * eps, and within one slot
      if eps is 0. */
  function Reach(eps: nat): nat {
    if eps == 0 then 1 else 2 * eps
  }

  /** With every count below the threshold, fewer keys than that are further from their segment's
      line: none at all if eps is 0. */
  lemma FewFarKeys(data: seq<int>, segments: seq<Segment>, changes: seq<nat>, fitted: seq<set<int>>, eps: nat, s: nat)
    requires Covered(data, segments, changes, fitted) && DriftOk(data, segments, changes, fitted, eps)
    requires s < |segments| && changes[s] < Threshold(eps)
    ensures |FarKeys(data, segments, s, Reach(eps))| < Threshold(eps)
  {
    assert CoveredAt(data, segments, changes, fitted, s);
    var far, strays := FarKeys(data, segments, s, Reach(eps)), Strays(data, segments, fitted, s);
    forall k | k in far ensures k in strays {
      var p :| 0 <= p < |data| && IsReal(data[p]) && Owns(segments, s, data[p]) && data[p] == k
        && !((p - Reach(eps)) as real < At(LineOf(segments[s]), data[p]) < (p + Reach(eps)) as real);
      if k in fitted[s] { WithinTwiceEps(data, segments, changes, fitted, eps, s, p); }
    }
    Smaller(far, strays);
  }

  // ---- Anchors ----

  /** Every segment's anchor is in the array, and is a key the segment was fit on. */
  ghost predicate Anchored(data: seq<int>, segments: seq<Segment>, fitted: seq<set<int>>) {
    |fitted| == |segments| && forall s :: 0 <= s < |segments| ==> AnchorHeld(data, segments, fitted, s)
  }

  ghost predicate AnchorHeld(data: seq<int>, segments: seq<Segment>, fitted: seq<set<int>>, s: nat)
    requires s < |segments| == |fitted|
  {
    var k := segments[s].startKey;
    IsReal(k) && k in data && k in fitted[s]
  }

  lemma InsertKeepsAnchors(data: seq<int>, data': seq<int>, key: int, segments: seq<Segment>, fitted: seq<set<int>>)
    requires Anchored(data, segments, fitted) && key !in data
    requires forall k :: k in data && IsReal(k) ==> k in data'
    ensures Anchored(data', segments, DropKey(fitted, key))
  {
    forall s | 0 <= s < |segments| ensures AnchorHeld(data', segments, DropKey(fitted, key), s) {
      assert AnchorHeld(data, segments, fitted, s);
    }
  }

  lemma MoreSlotsAnchored(data: seq<int>, data': seq<int>, segments: seq<Segment>, fitted: seq<set<int>>)
    requires Anchored(data, segments, fitted) && forall k :: k in data && IsReal(k) ==> k in data'
    ensures Anchored(data', segments, fitted)
  {
    forall s | 0 <= s < |segments| ensures AnchorHeld(data', segments, fitted, s) {
      assert AnchorHeld(data, segments, fitted, s);
    }
  }

  /** A fresh fit's anchors are among its keys. */
  lemma FreshAnchors(data: seq<int>, keys: seq<int>, segments: seq<Segment>, starts: seq<nat>)
    requires IsSplit(starts, |keys|) && |segments| == |starts|
    requires forall s :: 0 <= s < |segments| ==> segments[s].startKey == keys[starts[s]]
    requires forall i :: 0 <= i < |keys| ==> IsReal(keys[i]) && keys[i] in data
    ensures Anchored(data, segments, FittedKeys(keys, starts))
  {
    forall s | 0 <= s < |segments| ensures AnchorHeld(data, segments, FittedKeys(keys, starts), s) { }
  }

  lemma SpliceKeepsAnchors(data: seq<int>, data': seq<int>, begin: nat, end: nat, segments: seq<Segment>,
                           fitted: seq<set<int>>, lo: nat, hi: nat, local: seq<Segment>, localFitted: seq<set<int>>)
    requires lo <= hi < |segments| && SortedStarts(segments) && Anchored(data, segments, fitted)
    requires begin <= end <= |data| && SameOutside(data, data', begin, end)
    requires forall k :: k in data && IsReal(k) ==> k in data'
    requires Anchored(data', local, localFitted)
    ensures Anchored(data', Splice(segments, lo, hi, local), Splice(fitted, lo, hi, localFitted))
  {
    var all, fitted' := Splice(segments, lo, hi, local), Splice(fitted, lo, hi, localFitted);
    forall s | 0 <= s < |all| ensures AnchorHeld(data', all, fitted', s) {
      if lo <= s < lo + |local| {
        assert AnchorHeld(data', local, localFitted, s - lo);
      } else {
        var kept := if s < lo then s else s - |local| - lo + hi + 1;
        assert AnchorHeld(data, segments, fitted, kept);
      }
    }
  }

  /** The keys segment s owns whose prediction is d slots or more off. */
  ghost function FarPredictions(data: seq<int>, segments: seq<Segment>, s: nat, d: nat): set<int>
    requires s < |segments|
  {
    set p | 0 <= p < |data| && IsReal(data[p]) && Owns(segments, s, data[p])
        && !(p - d < PredictFrom(segments, s, data[p], |data|) < p + d) :: data[p]
  }

  /** While every anchor is held, fewer keys of a segment than the threshold are predicted further off
      than 2 * eps. */
  lemma FewFarPredictions(data: seq<int>, segments: seq<Segment>, changes: seq<nat>, fitted: seq<set<int>>, eps: nat, s: nat)
    requires SortedSlots(data) && Routed(segments, fitted) && RisingLines(segments) && eps >= 1 && s < |segments|
    requires Covered(data, segments, changes, fitted) && DriftOk(data, segments, changes, fitted, eps)
    requires forall t :: 0 <= t < |changes| ==> changes[t] < Threshold(eps)
    requires Anchored(data, segments, fitted)
    ensures |FarPredictions(data, segments, s, 2 * eps)| < eps
  {
    assert CoveredAt(data, segments, changes, fitted, s);
    var far, strays := FarPredictions(data, segments, s, 2 * eps), Strays(data, segments, fitted, s);
    forall k | k in far ensures k in strays {
      var p :| 0 <= p < |data| && IsReal(data[p]) && Owns(segments, s, data[p]) && data[p] == k
        && !(p - 2 * eps < PredictFrom(segments, s, data[p], |data|) < p + 2 * eps);
      if k in fitted[s] {
        var b := 0;
        if s + 1 < |segments| {
          assert AnchorHeld(data, segments, fitted, s + 1);
          b :| 0 <= b < |data| && data[b] == segments[s + 1].startKey;
        }
        hide PredictFrom;
        ClampedWithinTwiceEps(data, segments, changes, fitted, eps, s, p, b);
      }
    }
    Smaller(far, strays);
  }
}
