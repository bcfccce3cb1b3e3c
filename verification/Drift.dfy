/** How far keys may sit from where their segment's line says (cpp/gapped_array.h). Each
    segment remembers which keys it was fit on. No counted change moves a key of that segment
    further than one slot, so the count bounds the drift. */
module Drift {
  import opened Geometry
  import opened FitLines
  import opened Segments
  import opened PinnedModel
  import opened Slots
  import opened SlotSearch
  import opened EvenLayout

  /** Keys a segment was fit on are ones the model routes to it. */
  ghost predicate Routed(segments: seq<Segment>, fitted: seq<set<int>>) {
    && |fitted| == |segments|
    && forall s, k :: 0 <= s < |fitted| && k in fitted[s] ==> RoutesTo(segments, s, k)
  }

  ghost predicate RoutesTo(segments: seq<Segment>, s: nat, k: int)
    requires s < |segments|
  {
    Owns(segments, s, k) && segments[s].startKey <= k
  }

  /** The allowed distance: eps from the fit (nothing at the anchor) plus one slot per change. */
  ghost function Allowed(s: Segment, key: int, eps: nat, change: nat): nat {
    if key == s.startKey then change else eps + change
  }

  ghost predicate Near(s: Segment, key: int, slot: nat, bound: nat) {
    (slot - bound) as real <= At(LineOf(s), key) <= (slot + bound) as real
  }

  ghost predicate NearAt(data: seq<int>, segments: seq<Segment>, changes: seq<nat>, eps: nat, s: nat, p: nat)
    requires s < |segments| == |changes| && p < |data|
  {
    Near(segments[s], data[p], p, Allowed(segments[s], data[p], eps, changes[s]))
  }

  ghost predicate DriftOk(data: seq<int>, segments: seq<Segment>, changes: seq<nat>, fitted: seq<set<int>>, eps: nat) {
    && |changes| == |segments| == |fitted|
    && forall s, p :: 0 <= s < |segments| && 0 <= p < |data| && IsReal(data[p]) && data[p] in fitted[s]
         ==> NearAt(data, segments, changes, eps, s, p)
  }

  lemma OwnersFollowKeys(segments: seq<Segment>, s: nat, a: int, t: nat, b: int)
    requires SortedStarts(segments) && Owns(segments, s, a) && Owns(segments, t, b) && a <= b
    ensures s <= t
  {
  }

  // ---- Inserts: shifts of at most one slot ----

  function Bump(changes: seq<nat>, first: nat, last: nat): (r: seq<nat>)
    ensures |r| == |changes|
  {
    seq(|changes|, s requires 0 <= s < |changes| => if first <= s <= last then changes[s] + 1 else changes[s])
  }

  ghost function DropKey(fitted: seq<set<int>>, key: int): seq<set<int>> {
    seq(|fitted|, s requires 0 <= s < |fitted| => fitted[s] - {key})
  }

  ghost predicate OwnedWithin(segments: seq<Segment>, k: int, first: nat, last: nat) {
    forall s: nat :: Owns(segments, s, k) ==> first <= s <= last
  }

  /** Where the key now at slot p came from: here, or one slot away and then its segment is
      one of those the change is counted against. */
  ghost predicate CameFrom(data: seq<int>, p: nat, k: int, segments: seq<Segment>, first: nat, last: nat) {
    exists q :: 0 <= q < |data| && data[q] == k
      && (q == p || ((q == p + 1 || p == q + 1) && OwnedWithin(segments, k, first, last)))
  }

  ghost predicate ShiftedByOne(data: seq<int>, data': seq<int>, key: int, segments: seq<Segment>, first: nat, last: nat) {
    forall p :: 0 <= p < |data'| && IsReal(data'[p]) && data'[p] != key ==> CameFrom(data, p, data'[p], segments, first, last)
  }

  /** One slot of movement costs one unit of the allowance. */
  lemma NearAfterStep(s: Segment, key: int, q: nat, p: nat, bound: nat, bound': nat)
    requires Near(s, key, q, bound)
    requires q == p || q == p + 1 || p == q + 1
    requires bound' == (if q == p then bound else bound + 1) || bound' == bound + 1
    ensures Near(s, key, p, bound')
  {
  }

  /** A counted shift keeps the drift bound. */
  lemma ShiftKeepsDrift(data: seq<int>, data': seq<int>, key: int, segments: seq<Segment>, changes: seq<nat>,
                        fitted: seq<set<int>>, eps: nat, first: nat, last: nat)
    requires Routed(segments, fitted) && DriftOk(data, segments, changes, fitted, eps)
    requires ShiftedByOne(data, data', key, segments, first, last)
    ensures Routed(segments, DropKey(fitted, key))
    ensures DriftOk(data', segments, Bump(changes, first, last), DropKey(fitted, key), eps)
  {
    var fitted', changes' := DropKey(fitted, key), Bump(changes, first, last);
    forall s, k | 0 <= s < |fitted'| && k in fitted'[s] ensures RoutesTo(segments, s, k) {
      assert k in fitted[s];
    }
    forall s, p | 0 <= s < |segments| && 0 <= p < |data'| && IsReal(data'[p]) && data'[p] in fitted'[s]
      ensures NearAt(data', segments, changes', eps, s, p)
    {
      ShiftedSlotNear(data, data'[p], segments, changes, fitted, eps, first, last, s, p);
    }
  }

  lemma ShiftedSlotNear(data: seq<int>, k: int, segments: seq<Segment>, changes: seq<nat>, fitted: seq<set<int>>,
                        eps: nat, first: nat, last: nat, s: nat, p: nat)
    requires Routed(segments, fitted) && DriftOk(data, segments, changes, fitted, eps)
    requires s < |segments| && IsReal(k) && k in fitted[s] && CameFrom(data, p, k, segments, first, last)
    ensures Near(segments[s], k, p, Allowed(segments[s], k, eps, Bump(changes, first, last)[s]))
  {
    var q :| 0 <= q < |data| && data[q] == k
      && (q == p || ((q == p + 1 || p == q + 1) && OwnedWithin(segments, k, first, last)));
    assert NearAt(data, segments, changes, eps, s, q);
    assert RoutesTo(segments, s, k);
    NearAfterStep(segments[s], k, q, p, Allowed(segments[s], k, eps, changes[s]),
                  Allowed(segments[s], k, eps, Bump(changes, first, last)[s]));
  }

  // ---- Refits ----

  /** The keys of run j. */
  ghost function RunKeys(keys: seq<int>, starts: seq<nat>, j: nat): set<int>
    requires IsSplit(starts, |keys|) && j < |starts|
  {
    set i | starts[j] <= i < RunEnd(starts, j, |keys|) :: keys[i]
  }

  ghost function FittedKeys(keys: seq<int>, starts: seq<nat>): seq<set<int>>
    requires IsSplit(starts, |keys|)
  {
    seq(|starts|, j requires 0 <= j < |starts| => RunKeys(keys, starts, j))
  }

  function Zeros(n: nat): seq<nat> {
    seq(n, i => 0)
  }

  ghost predicate LaidAt(data: seq<int>, keys: seq<int>, positions: seq<int>) {
    |positions| == |keys| && forall i :: 0 <= i < |keys| ==> 0 <= positions[i] < |data| && data[positions[i]] == keys[i]
  }

  lemma PlacesIncrease(begin: nat, slots: nat, n: nat, i: nat, j: nat)
    requires 0 < n <= slots && i < j <= n
    ensures Place(begin, slots, n, i) < Place(begin, slots, n, j)
  {
    PlacesSpread(begin, slots, n, j - 1);
    if i < j - 1 { PlacesIncrease(begin, slots, n, i, j - 1); }
  }

  /** A fresh pinned fit: sorted starts, keys routed to the run they are in, no drift yet. */
  lemma FreshFit(data: seq<int>, keys: seq<int>, positions: seq<int>, segments: seq<Segment>, starts: seq<nat>,
                 eps: nat, maxKeys: nat)
    requires SortedSlots(data) && LaidAt(data, keys, positions) && Rightward(Points(keys, positions))
    requires forall i :: 0 <= i < |keys| ==> IsReal(keys[i])
    requires IsPinnedModel(segments, Points(keys, positions), eps, maxKeys, starts)
    ensures SortedStarts(segments) && Routed(segments, FittedKeys(keys, starts))
    ensures DriftOk(data, segments, Zeros(|segments|), FittedKeys(keys, starts), eps)
    ensures keys != [] ==> segments != [] && segments[0].startKey == keys[0]
    ensures forall s :: 0 <= s < |segments| ==> segments[s].startKey in keys
    ensures |segments| <= |keys|
  {
    var pts := Points(keys, positions);
    var fitted := FittedKeys(keys, starts);
    PinnedServes(segments, pts, eps, maxKeys, starts);
    ServedStartsAreSorted(segments, pts, eps, starts);
    FreshStarts(keys, positions, segments, starts, eps);
    forall s, k | 0 <= s < |fitted| && k in fitted[s] ensures RoutesTo(segments, s, k) {
      var i :| starts[s] <= i < RunEnd(starts, s, |keys|) && keys[i] == k;
      RunKeyRoutes(segments, pts, eps, starts, s, i);
    }
    forall s, p | 0 <= s < |segments| && 0 <= p < |data| && IsReal(data[p]) && data[p] in fitted[s]
      ensures NearAt(data, segments, Zeros(|segments|), eps, s, p)
    {
      FreshSlot(data, keys, positions, segments, starts, eps, maxKeys, s, p);
    }
  }

  lemma FreshStarts(keys: seq<int>, positions: seq<int>, segments: seq<Segment>, starts: seq<nat>, eps: nat)
    requires |positions| == |keys| && ModelServes(segments, Points(keys, positions), eps, starts)
    ensures keys != [] ==> segments != [] && segments[0].startKey == keys[0]
    ensures forall s :: 0 <= s < |segments| ==> segments[s].startKey in keys
    ensures |segments| <= |keys|
  {
    var pts := Points(keys, positions);
    forall s | 0 <= s < |segments| ensures segments[s].startKey == keys[starts[s]] {
      assert SegmentServes(segments[s], Run(pts, starts, s), eps);
    }
    SplitIsShort(starts, |keys|);
  }

  lemma FreshSlot(data: seq<int>, keys: seq<int>, positions: seq<int>, segments: seq<Segment>, starts: seq<nat>,
                  eps: nat, maxKeys: nat, s: nat, p: nat)
    requires SortedSlots(data) && LaidAt(data, keys, positions) && Rightward(Points(keys, positions))
    requires IsPinnedModel(segments, Points(keys, positions), eps, maxKeys, starts)
    requires s < |starts| && p < |data| && IsReal(data[p]) && data[p] in FittedKeys(keys, starts)[s]
    ensures NearAt(data, segments, Zeros(|segments|), eps, s, p)
  {
    var i :| starts[s] <= i < RunEnd(starts, s, |keys|) && keys[i] == data[p];
    assert p == positions[i];
    FreshNear(segments, Points(keys, positions), eps, maxKeys, starts, s, i);
  }

  lemma {:induction false} SplitIsShort(starts: seq<nat>, n: nat)
    requires IsSplit(starts, n)
    ensures |starts| <= n
  {
    if |starts| > 0 { StartAtLeast(starts, n, |starts| - 1); }
  }

  lemma {:induction false} StartAtLeast(starts: seq<nat>, n: nat, k: nat)
    requires IsSplit(starts, n) && k < |starts|
    ensures k <= starts[k]
  {
    if k > 0 { StartAtLeast(starts, n, k - 1); }
  }

  lemma RunKeyRoutes(segments: seq<Segment>, pts: seq<Point>, eps: int, starts: seq<nat>, s: nat, i: nat)
    requires Rightward(pts) && ModelServes(segments, pts, eps, starts) && s < |starts|
    requires starts[s] <= i < RunEnd(starts, s, |pts|)
    ensures RoutesTo(segments, s, pts[i].x)
  {
    assert SegmentServes(segments[s], Run(pts, starts, s), eps);
    KeyOrder(pts, starts[s], i);
    forall t | s < t < |segments| ensures pts[i].x < segments[t].startKey {
      assert SegmentServes(segments[t], Run(pts, starts, t), eps);
      assert starts[s + 1] <= starts[t];
      KeyOrder(pts, starts[t], i);
    }
  }

  lemma FreshNear(segments: seq<Segment>, pts: seq<Point>, eps: nat, maxKeys: nat, starts: seq<nat>, s: nat, i: nat)
    requires Rightward(pts) && IsPinnedModel(segments, pts, eps, maxKeys, starts) && s < |starts|
    requires starts[s] <= i < RunEnd(starts, s, |pts|) && pts[i].y >= 0
    ensures Near(segments[s], pts[i].x, pts[i].y, Allowed(segments[s], pts[i].x, eps, 0))
  {
    assert PinnedAt(segments, pts, eps, maxKeys, starts, |pts|, s);
    KeyOrder(pts, i, starts[s]);
  }

  /** segments lo..hi replaced by a local list. */
  function Splice<T>(s: seq<T>, lo: nat, hi: nat, local: seq<T>): seq<T>
    requires lo <= hi < |s|
  {
    s[..lo] + local + s[hi + 1..]
  }

  /** A key value that belongs between segment lo's start and segment hi + 1's. The first
      segment also takes smaller keys, the last one everything above. */
  ghost predicate KeyInRegion(segments: seq<Segment>, lo: nat, hi: nat, k: int)
    requires lo <= hi < |segments|
  {
    (lo > 0 ==> segments[lo].startKey <= k) && (hi + 1 < |segments| ==> k < segments[hi + 1].startKey)
  }

  /** A local refit that can stand in for segments lo..hi. */
  ghost predicate LocalFit(data: seq<int>, segments: seq<Segment>, lo: nat, hi: nat, local: seq<Segment>,
                           localFitted: seq<set<int>>, eps: nat)
    requires lo <= hi < |segments|
  {
    && SortedStarts(local) && Routed(local, localFitted)
    && DriftOk(data, local, Zeros(|local|), localFitted, eps)
    && (forall s :: 0 <= s < |local| ==> KeyInRegion(segments, lo, hi, local[s].startKey))
    && (forall s, k :: 0 <= s < |local| && k in localFitted[s] ==> KeyInRegion(segments, lo, hi, k))
  }

  lemma SpliceSorted(segments: seq<Segment>, lo: nat, hi: nat, local: seq<Segment>)
    requires lo <= hi < |segments| && SortedStarts(segments) && SortedStarts(local)
    requires forall s :: 0 <= s < |local| ==> KeyInRegion(segments, lo, hi, local[s].startKey)
    ensures SortedStarts(Splice(segments, lo, hi, local))
  {
  }

  /** Routing through the spliced list, for a key of a kept segment or of a local one. */
  lemma SpliceRoutes(segments: seq<Segment>, lo: nat, hi: nat, local: seq<Segment>, s: nat, k: int)
    requires lo <= hi < |segments| && SortedStarts(segments) && SortedStarts(local)
    requires forall s :: 0 <= s < |local| ==> KeyInRegion(segments, lo, hi, local[s].startKey)
    requires s < |Splice(segments, lo, hi, local)|
    requires s < lo ==> RoutesTo(segments, s, k)
    requires lo <= s < lo + |local| ==> RoutesTo(local, s - lo, k) && KeyInRegion(segments, lo, hi, k)
    requires lo + |local| <= s ==> RoutesTo(segments, s - |local| - lo + hi + 1, k)
    ensures RoutesTo(Splice(segments, lo, hi, local), s, k)
  {
    var all := Splice(segments, lo, hi, local);
    forall t | s < t < |all| ensures k < all[t].startKey {
      if lo <= t < lo + |local| {
        if s < lo { assert KeyInRegion(segments, lo, hi, local[t - lo].startKey) && k < segments[lo].startKey; }
      } else if t >= lo + |local| {
        assert all[t] == segments[t - |local| - lo + hi + 1];
        if lo <= s < lo + |local| { assert segments[hi + 1].startKey <= all[t].startKey; }
      }
    }
  }

  /** Re-laying a region and refitting its segments keeps routing and drift everywhere. */
  lemma SpliceKeepsDrift(data: seq<int>, data': seq<int>, begin: nat, end: nat, segments: seq<Segment>,
                         changes: seq<nat>, fitted: seq<set<int>>, lo: nat, hi: nat,
                         local: seq<Segment>, localFitted: seq<set<int>>, eps: nat)
    requires lo <= hi < |segments| && SortedStarts(segments)
    requires Routed(segments, fitted) && DriftOk(data, segments, changes, fitted, eps)
    requires begin <= end <= |data| && SameOutside(data, data', begin, end)
    requires forall p :: begin <= p < end && IsReal(data'[p]) ==> KeyInRegion(segments, lo, hi, data'[p])
    requires LocalFit(data', segments, lo, hi, local, localFitted, eps)
    ensures SortedStarts(Splice(segments, lo, hi, local))
    ensures Routed(Splice(segments, lo, hi, local), Splice(fitted, lo, hi, localFitted))
    ensures DriftOk(data', Splice(segments, lo, hi, local), Splice(changes, lo, hi, Zeros(|local|)),
                    Splice(fitted, lo, hi, localFitted), eps)
  {
    var all, changes', fitted' := Splice(segments, lo, hi, local), Splice(changes, lo, hi, Zeros(|local|)),
                                  Splice(fitted, lo, hi, localFitted);
    SpliceSorted(segments, lo, hi, local);
    forall s, k | 0 <= s < |fitted'| && k in fitted'[s] ensures RoutesTo(all, s, k) {
      SpliceRoutes(segments, lo, hi, local, s, k);
    }
    forall s, p | 0 <= s < |all| && 0 <= p < |data'| && IsReal(data'[p]) && data'[p] in fitted'[s]
      ensures NearAt(data', all, changes', eps, s, p)
    {
      if lo <= s < lo + |local| {
        assert NearAt(data', local, Zeros(|local|), eps, s - lo, p);
      } else {
        var kept := if s < lo then s else s - |local| - lo + hi + 1;
        assert RoutesTo(segments, kept, data'[p]);
        assert p < begin || p >= end by { KeptKeyOutside(segments, lo, hi, kept, data'[p]); }
        assert data'[p] == data[p] by { OutsideAt(data, data', begin, end, p); }
        assert NearAt(data, segments, changes, eps, kept, p);
      }
    }
  }

  lemma KeptKeyOutside(segments: seq<Segment>, lo: nat, hi: nat, s: nat, k: int)
    requires lo <= hi < |segments| && SortedStarts(segments) && s < |segments|
    requires (s < lo || hi < s) && RoutesTo(segments, s, k)
    ensures !KeyInRegion(segments, lo, hi, k)
  {
    if s > hi { assert segments[hi + 1].startKey <= segments[s].startKey; }
  }

  lemma OutsideAt<T>(a: seq<T>, b: seq<T>, begin: nat, end: nat, p: nat)
    requires begin <= end <= |a| && SameOutside(a, b, begin, end) && p < |a| && (p < begin || end <= p)
    ensures b[p] == a[p]
  {
    if p < begin { assert b[..begin][p] == a[..begin][p]; } else { assert b[end..][p - end] == a[end..][p - end]; }
  }

  /** Gaps appended at the end hold no keys, so nothing drifts. */
  lemma GrowKeepsDrift(data: seq<int>, more: nat, segments: seq<Segment>, changes: seq<nat>,
                       fitted: seq<set<int>>, eps: nat)
    requires DriftOk(data, segments, changes, fitted, eps)
    ensures DriftOk(data + Repeat(EMPTY_SLOT, more), segments, changes, fitted, eps)
  {
    var data' := data + Repeat(EMPTY_SLOT, more);
    forall s, p | 0 <= s < |segments| && 0 <= p < |data'| && IsReal(data'[p]) && data'[p] in fitted[s]
      ensures NearAt(data', segments, changes, eps, s, p)
    {
      assert NearAt(data, segments, changes, eps, s, p);
    }
  }

  // ---- What the bound says about predictions ----

  /** The 2 * eps bound: with every count below the threshold max(1, eps), a key a segment was
      fit on lies less than 2 * eps slots from its line (less than 1 slot when eps is 0). */
  lemma WithinTwiceEps(data: seq<int>, segments: seq<Segment>, changes: seq<nat>, fitted: seq<set<int>>, eps: nat,
                       s: nat, p: nat)
    requires DriftOk(data, segments, changes, fitted, eps) && s < |segments| && p < |data|
    requires IsReal(data[p]) && data[p] in fitted[s] && changes[s] < Threshold(eps)
    ensures eps >= 1 ==> (p - (2 * eps - 1)) as real <= At(LineOf(segments[s]), data[p]) <= (p + (2 * eps - 1)) as real
    ensures eps == 0 ==> At(LineOf(segments[s]), data[p]) == p as real
  {
    assert NearAt(data, segments, changes, eps, s, p);
  }

  /** How many changes a segment takes before it is refreshed. */
  function Threshold(eps: nat): nat {
    if eps < 1 then 1 else eps
  }

  function AnchorPosition(s: Segment): real {
    At(LineOf(s), s.startKey)
  }

  function MaxReal(a: real, b: real): real {
    if a < b then b else a
  }

  function MinReal(a: real, b: real): real {
    if b < a then b else a
  }

  /** The prediction: the segment's line, clamped to its own anchor, the next segment's
      anchor, and the array. */
  function PredictFrom(segments: seq<Segment>, s: nat, key: int, n: nat): int
    requires s < |segments|
  {
    var seg := segments[s];
    var p := At(LineOf(seg), key);
    var own := if key >= seg.startKey then AnchorPosition(seg) else p;
    if s + 1 < |segments| then Round(Clamp(p, own, AnchorPosition(segments[s + 1]), n as real))
    else Round(Clamp(p, own, MaxReal(p, own), n as real))
  }

  function Clamp(p: real, own: real, next: real, n: real): real {
    MinReal(MaxReal(MinReal(MaxReal(p, own), next), 0.0), n)
  }

  /** A line that does not fall is never below its own anchor's position, so that clamp never moves
      a prediction. */
  lemma OwnClampIdle(s: Segment, key: int)
    requires s.slope >= 0.0 && s.startKey <= key
    ensures AnchorPosition(s) <= At(LineOf(s), key)
  {
    Rise(LineOf(s), s.startKey, key);
    MulMono(0.0, s.slope, (key - s.startKey) as real);
  }

  lemma RoundOrder(x: real, y: real)
    requires x <= y
    ensures Round(x) <= Round(y)
  {
  }

  /** When the line is within d slots of slot p, so is the clamped, rounded prediction, exactly unless
      the next segment's stored anchor position, rounded, is further left than that. */
  lemma ClampedExactly(segments: seq<Segment>, s: nat, key: int, n: nat, p: nat, d: nat)
    requires s < |segments| && p < n && segments[s].startKey <= key && segments[s].slope >= 0.0
    requires (p - d) as real <= At(LineOf(segments[s]), key) <= (p + d) as real
    ensures p - d <= PredictFrom(segments, s, key, n) <= p + d
      <==> (s + 1 < |segments| ==> p - d <= Round(MaxReal(AnchorPosition(segments[s + 1]), 0.0)))
  {
    OwnClampIdle(segments[s], key);
    var v, own := At(LineOf(segments[s]), key), AnchorPosition(segments[s]);
    var next := if s + 1 < |segments| then AnchorPosition(segments[s + 1]) else v;
    var c := Clamp(v, own, next, n as real);
    assert PredictFrom(segments, s, key, n) == Round(c);
    assert c == MinReal(MaxReal(MinReal(v, next), 0.0), n as real);
    hide At, AnchorPosition, Clamp, LineOf, Round, PredictFrom;
    if c <= (p + d) as real { RoundStays(c, p + d); }
    if (p - d) as real <= c { RoundStays(c, p - d); }
    if next < (p - d) as real {
      assert c == MaxReal(next, 0.0) || c == n as real;
      assert p - d > 0 ==> c == MaxReal(next, 0.0);
    } else {
      RoundOrder(next, MaxReal(next, 0.0));
      RoundStays(next, p - d);
    }
  }

  /** Rounding does not cross an integer. */
  lemma RoundStays(x: real, i: int)
    ensures x <= i as real ==> Round(x) <= i
    ensures i as real <= x ==> i <= Round(x)
  {
  }

  lemma SlotOrder(data: seq<int>, p: nat, q: nat)
    requires SortedSlots(data) && p < |data| && q < |data| && IsReal(data[p]) && IsReal(data[q])
    ensures data[p] <= data[q] <==> p <= q
  {
  }

  /** While the next segment's anchor is still a key it was fit on, the clamped, rounded prediction
      for a fitted key is within 2 * eps of its slot. */
  lemma ClampedWithinTwiceEps(data: seq<int>, segments: seq<Segment>, changes: seq<nat>, fitted: seq<set<int>>,
                              eps: nat, s: nat, p: nat, b: nat)
    requires SortedSlots(data) && Routed(segments, fitted) && DriftOk(data, segments, changes, fitted, eps)
    requires RisingLines(segments)
    requires s < |segments| && p < |data| && IsReal(data[p]) && data[p] in fitted[s] && eps >= 1
    requires forall t :: 0 <= t < |changes| ==> changes[t] < Threshold(eps)
    requires s + 1 < |segments| ==>
      b < |data| && IsReal(data[b]) && data[b] == segments[s + 1].startKey && data[b] in fitted[s + 1]
    ensures p - 2 * eps < PredictFrom(segments, s, data[p], |data|) < p + 2 * eps
  {
    var key, d := data[p], 2 * eps - 1;
    WithinTwiceEps(data, segments, changes, fitted, eps, s, p);
    assert RoutesTo(segments, s, key);
    ClampedExactly(segments, s, key, |data|, p, d);
    if s + 1 < |segments| {
      NextAnchorAbove(data, segments, changes, fitted, eps, s, p, b);
      hide AnchorPosition, Round;
      RoundStays(MaxReal(AnchorPosition(segments[s + 1]), 0.0), p - d);
    }
  }

  lemma NextAnchorAbove(data: seq<int>, segments: seq<Segment>, changes: seq<nat>, fitted: seq<set<int>>, eps: nat,
                        s: nat, p: nat, b: nat)
    requires SortedSlots(data) && DriftOk(data, segments, changes, fitted, eps) && s + 1 < |segments|
    requires p < |data| && IsReal(data[p]) && data[p] < segments[s + 1].startKey && changes[s + 1] < Threshold(eps)
    requires b < |data| && IsReal(data[b]) && data[b] == segments[s + 1].startKey && data[b] in fitted[s + 1]
    ensures eps >= 1 ==> (p - (2 * eps - 1)) as real <= AnchorPosition(segments[s + 1])
  {
    AnchorNear(data, segments, changes, fitted, eps, s + 1, b);
    SlotOrder(data, p, b);
    hide AnchorPosition, DriftOk, SortedSlots;
  }

  lemma AnchorNear(data: seq<int>, segments: seq<Segment>, changes: seq<nat>, fitted: seq<set<int>>, eps: nat,
                   s: nat, a: nat)
    requires DriftOk(data, segments, changes, fitted, eps) && s < |segments|
    requires a < |data| && IsReal(data[a]) && data[a] == segments[s].startKey && data[a] in fitted[s]
    ensures (a - changes[s]) as real <= AnchorPosition(segments[s]) <= (a + changes[s]) as real
  {
    assert NearAt(data, segments, changes, eps, s, a);
  }
}
