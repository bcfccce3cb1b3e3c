/** Belady's offline eviction policy (cpp/belady.h): evict the cached key whose next use
    is farthest away. The optimality proof compares, for every horizon t, how many cached
    keys each policy will use by time t; the deficit of the farthest-use cache never
    exceeds its lead in hits. */
module Belady {
  import opened CacheRuns

  const NEVER_AGAIN := 0x7FFF_FFFF_FFFF_FFFF

  /** The first position at or after `from` that accesses `key`. */
  ghost function NextUse(trace: seq<int>, key: int, from: nat): int
    requires from <= |trace|
    decreases |trace| - from
  {
    if from == |trace| then NEVER_AGAIN
    else if trace[from] == key then from
    else NextUse(trace, key, from + 1)
  }

  /** What NextUse means, without its recursion. */
  lemma {:induction false} NextUseIsFirstUse(trace: seq<int>, key: int, from: nat)
    requires from <= |trace| <= NEVER_AGAIN
    ensures var j := NextUse(trace, key, from);
      if exists i :: from <= i < |trace| && trace[i] == key
      then from <= j < |trace| && trace[j] == key && (forall i :: from <= i < j ==> trace[i] != key)
      else j == NEVER_AGAIN
    decreases |trace| - from
  {
    if from < |trace| && trace[from] != key {
      NextUseIsFirstUse(trace, key, from + 1);
    }
  }

  /** The keys of a cache that are used again by time t. */
  ghost function UsedBy(trace: seq<int>, cache: set<int>, from: nat, t: int): set<int>
    requires from <= |trace|
  {
    set k | k in cache && NextUse(trace, k, from) <= t
  }

  /** At horizon t, `theirs` has at most `lead` more keys coming up than `ours`. */
  ghost predicate Covers(trace: seq<int>, ours: set<int>, theirs: set<int>, from: nat, lead: int, t: int)
    requires from <= |trace|
  {
    |UsedBy(trace, theirs, from, t)| <= |UsedBy(trace, ours, from, t)| + lead
  }

  ghost predicate Dominates(trace: seq<int>, ours: set<int>, theirs: set<int>, from: nat, lead: int)
    requires from <= |trace|
  {
    lead >= 0 && forall t :: Covers(trace, ours, theirs, from, lead, t)
  }

  /** One access under the farthest-next-use policy, ties broken either way. */
  ghost predicate FarthestStep(trace: seq<int>, i: nat, before: set<int>, after: set<int>, slots: nat)
    requires i < |trace|
  {
    if trace[i] in before then after == before
    else if |before| < slots then after == before + {trace[i]}
    else exists v :: IsFarthest(trace, i, before, v) && after == before - {v} + {trace[i]}
  }

  ghost predicate IsFarthest(trace: seq<int>, i: nat, cache: set<int>, v: int)
    requires i <= |trace|
  {
    v in cache && forall k :: k in cache ==> NextUse(trace, k, i) <= NextUse(trace, v, i)
  }

  ghost predicate FarthestAt(trace: seq<int>, run: seq<set<int>>, i: nat, slots: nat)
    requires i < |trace| && i + 1 < |run|
  {
    |run[i]| <= slots && FarthestStep(trace, i, run[i], run[i + 1], slots)
  }

  ghost predicate IsFarthestRun(trace: seq<int>, run: seq<set<int>>, n: nat, slots: nat)
    requires n <= |trace|
  {
    && |run| >= n + 1
    && run[0] == {}
    && forall i :: 0 <= i < n ==> FarthestAt(trace, run, i, slots)
  }

  lemma SubsetSize<T>(a: set<T>, b: set<T>)
    requires a <= b
    ensures |a| <= |b|
  {
    assert b == a + (b - a);
  }

  /** Moving the horizon set past access i: the accessed key leaves, and returns at its new next use. */
  lemma UsedByShift(trace: seq<int>, cache: set<int>, i: nat, t: int)
    requires i < |trace|
    ensures UsedBy(trace, cache, i + 1, t) - {trace[i]} == UsedBy(trace, cache, i, t) - {trace[i]}
    ensures trace[i] in cache && i <= t ==> trace[i] in UsedBy(trace, cache, i, t)
  {
  }

  ghost function Again(trace: seq<int>, i: nat, t: int): nat
    requires i < |trace|
  {
    if NextUse(trace, trace[i], i + 1) <= t then 1 else 0
  }

  /** Upper bound on the competitor's horizon count after access i. */
  lemma TheirCount(trace: seq<int>, i: nat, before: set<int>, after: set<int>, slots: nat, t: int)
    requires i < |trace| && DemandStep(before, trace[i], after, slots)
    ensures |UsedBy(trace, after, i + 1, t)|
         <= |UsedBy(trace, before, i, t)| - Due(i, trace[i] in before, t) + Again(trace, i, t)
    ensures |UsedBy(trace, after, i + 1, t)| <= slots - 1 + Again(trace, i, t)
  {
    var x := trace[i];
    var u := UsedBy(trace, after, i + 1, t);
    UsedByShift(trace, after, i, t);
    UsedByShift(trace, before, i, t);
    assert u - {x} <= UsedBy(trace, before, i, t) - {x};
    SubsetSize(u - {x}, UsedBy(trace, before, i, t) - {x});
    assert u - {x} <= after - {x};
    SubsetSize(u - {x}, after - {x});
    assert x in u <==> Again(trace, i, t) == 1;
    RemoveOne(u, x);
  }

  /** Whether t has already reached access i, where the accessed key was due. */
  ghost function Due(i: nat, hit: bool, t: int): nat {
    if hit && i <= t then 1 else 0
  }

  /** Lower bound on the farthest-use cache's horizon count after access i. */
  lemma OurCount(trace: seq<int>, i: nat, before: set<int>, after: set<int>, slots: nat, t: int)
    requires i < |trace| && 1 <= slots && |before| <= slots && FarthestStep(trace, i, before, after, slots)
    ensures var u := |UsedBy(trace, after, i + 1, t)|;
      || u >= |UsedBy(trace, before, i, t)| - Due(i, trace[i] in before, t) + Again(trace, i, t)
      || u >= slots - 1 + Again(trace, i, t)
  {
    var x := trace[i];
    var u := UsedBy(trace, before, i, t);
    var w := UsedBy(trace, after, i + 1, t);
    RemoveOne(w, x);
    assert x in w <==> Again(trace, i, t) == 1;
    if x in before {
      UsedByShift(trace, before, i, t);
      RemoveOne(u, x);
    } else if |before| < slots {
      UsedByGrows(trace, i, before, t);
    } else {
      var v :| IsFarthest(trace, i, before, v) && after == before - {v} + {x};
      CountAfterEviction(trace, i, before, v, after, t);
    }
  }

  lemma RemoveOne<T>(s: set<T>, x: T)
    ensures |s| == |s - {x}| + (if x in s then 1 else 0)
  {
    if x in s { assert s == (s - {x}) + {x}; } else { assert s == s - {x}; }
  }

  lemma UsedByGrows(trace: seq<int>, i: nat, before: set<int>, t: int)
    requires i < |trace| && trace[i] !in before
    ensures UsedBy(trace, before + {trace[i]}, i + 1, t) - {trace[i]} == UsedBy(trace, before, i, t)
  {
  }

  lemma CountAfterEviction(trace: seq<int>, i: nat, before: set<int>, v: int, after: set<int>, t: int)
    requires i < |trace| && trace[i] !in before
    requires IsFarthest(trace, i, before, v) && after == before - {v} + {trace[i]}
    ensures var rest := UsedBy(trace, after, i + 1, t) - {trace[i]};
      rest == UsedBy(trace, before, i, t) || |rest| == |before| - 1
  {
    var rest := UsedBy(trace, after, i + 1, t) - {trace[i]};
    if NextUse(trace, v, i) <= t {
      assert rest == before - {v};
    } else {
      assert rest == UsedBy(trace, before, i, t);
    }
  }

  /** One access keeps dominance, with the lead adjusted by the two outcomes. */
  lemma DominanceStep(trace: seq<int>, i: nat, ours: set<int>, ours': set<int>, theirs: set<int>, theirs': set<int>,
                      slots: nat, lead: int)
    requires i < |trace| <= NEVER_AGAIN && 1 <= slots && |ours| <= slots
    requires FarthestStep(trace, i, ours, ours', slots) && DemandStep(theirs, trace[i], theirs', slots)
    requires Dominates(trace, ours, theirs, i, lead)
    ensures Dominates(trace, ours', theirs', i + 1,
                      lead + (if trace[i] in ours then 1 else 0) - (if trace[i] in theirs then 1 else 0))
  {
    var x := trace[i];
    var lead' := lead + (if x in ours then 1 else 0) - (if x in theirs then 1 else 0);
    if x !in ours && x in theirs {
      // x is due right now in their cache only, so the lead was positive
      assert x in UsedBy(trace, theirs, i, i);
      NothingUsedBefore(trace, ours, i + 1, i);
      assert UsedBy(trace, ours, i, i) == UsedBy(trace, ours, i + 1, i);
      assert Covers(trace, ours, theirs, i, lead, i);
    }
    var j := i + 1;
    forall t ensures Covers(trace, ours', theirs', j, lead', t) {
      TheirCount(trace, i, theirs, theirs', slots, t);
      OurCount(trace, i, ours, ours', slots, t);
      assert Covers(trace, ours, theirs, i, lead, t);
      if t < i { NothingUsedBefore(trace, theirs', i + 1, t); }
    }
  }

  lemma NothingUsedBefore(trace: seq<int>, cache: set<int>, from: nat, t: int)
    requires from <= |trace| <= NEVER_AGAIN && t < from
    ensures UsedBy(trace, cache, from, t) == {}
  {
    forall k | k in cache ensures NextUse(trace, k, from) > t { NextUseAfter(trace, k, from); }
  }

  lemma {:induction false} NextUseAfter(trace: seq<int>, key: int, from: nat)
    requires from <= |trace| <= NEVER_AGAIN
    ensures from <= NextUse(trace, key, from)
    decreases |trace| - from
  {
    if from < |trace| { NextUseAfter(trace, key, from + 1); }
  }

  /** A farthest-use run leads every demand run at every point. */
  lemma {:induction false} FarthestRunDominates(trace: seq<int>, ours: seq<set<int>>, theirs: seq<set<int>>,
                                                n: nat, slots: nat)
    requires n <= |trace| <= NEVER_AGAIN && 1 <= slots
    requires IsFarthestRun(trace, ours, n, slots) && IsRun(trace, theirs, slots)
    ensures Dominates(trace, ours[n], theirs[n], n, Hits(trace, ours, n) - Hits(trace, theirs, n))
  {
    if n == 0 {
      forall t ensures Covers(trace, {}, {}, 0, 0, t) {
        assert UsedBy(trace, {}, 0, t) == {};
      }
    } else {
      FarthestRunDominates(trace, ours, theirs, n - 1, slots);
      assert FarthestAt(trace, ours, n - 1, slots) && DemandAt(trace, theirs, n - 1, slots);
      DominanceStep(trace, n - 1, ours[n - 1], ours[n], theirs[n - 1], theirs[n], slots,
                    Hits(trace, ours, n - 1) - Hits(trace, theirs, n - 1));
    }
  }

  /** A farthest-use step is itself a demand step. */
  lemma FarthestStepIsDemand(trace: seq<int>, i: nat, before: set<int>, after: set<int>, slots: nat)
    requires i < |trace| && 1 <= slots && |before| <= slots && FarthestStep(trace, i, before, after, slots)
    ensures DemandStep(before, trace[i], after, slots)
  {
    if trace[i] !in before && |before| >= slots {
      var v :| IsFarthest(trace, i, before, v) && after == before - {v} + {trace[i]};
      assert |before - {v}| == |before| - 1;
    }
  }

  /** Whatever ties it breaks, a farthest-use run has the most hits possible. */
  lemma FarthestRunIsBest(trace: seq<int>, run: seq<set<int>>, slots: nat)
    requires |trace| <= NEVER_AGAIN && 1 <= slots
    requires |run| == |trace| + 1 && IsFarthestRun(trace, run, |trace|, slots)
    ensures IsBestHits(trace, slots, Hits(trace, run, |trace|))
  {
    forall i | 0 <= i < |trace| ensures DemandAt(trace, run, i, slots) {
      assert FarthestAt(trace, run, i, slots);
      FarthestStepIsDemand(trace, i, run[i], run[i + 1], slots);
    }
    assert IsRun(trace, run, slots);
    forall theirs | IsRun(trace, theirs, slots)
      ensures Hits(trace, theirs, |trace|) <= Hits(trace, run, |trace|)
    {
      FarthestRunDominates(trace, run, theirs, |trace|, slots);
    }
  }

  /** For every position, the next position that accesses the same key (one backward pass). */
  method NextOccurrenceIndex(trace: seq<int>) returns (nextIdx: array<int>)
    requires |trace| <= NEVER_AGAIN
    ensures fresh(nextIdx) && nextIdx.Length == |trace|
    ensures forall i :: 0 <= i < |trace| ==> nextIdx[i] == NextUse(trace, trace[i], i + 1)
  {
    nextIdx := new int[|trace|];
    var lastSeen: map<int, int> := map[];
    var i := |trace| - 1;
    while i >= 0
      invariant -1 <= i < |trace|
      invariant forall k :: (if k in lastSeen then lastSeen[k] else NEVER_AGAIN) == NextUse(trace, k, i + 1)
      invariant forall j :: i < j < |trace| ==> nextIdx[j] == NextUse(trace, trace[j], j + 1)
    {
      var key := trace[i];
      nextIdx[i] := if key !in lastSeen then NEVER_AGAIN else lastSeen[key];
      lastSeen := lastSeen[key := i];
      i := i - 1;
    }
  }

  /** The eviction scan: visits the cache in any order and keeps the first strictly farthest key. */
  method FindVictim(cache: map<int, int>) returns (worstKey: int)
    requires forall k :: k in cache ==> cache[k] >= 0
    ensures cache != map[] ==> worstKey in cache && forall k :: k in cache ==> cache[k] <= cache[worstKey]
    ensures cache == map[] ==> worstKey == -1
  {
    worstKey := -1;
    var worstDist := -1;
    var rest := cache.Keys;
    ghost var seen: set<int> := {};
    while rest != {}
      invariant rest + seen == cache.Keys
      invariant worstDist == -1 ==> worstKey == -1 && seen == {}
      invariant worstDist != -1 ==> worstKey in cache && cache[worstKey] == worstDist
      invariant forall k :: k in seen ==> k in cache && cache[k] <= worstDist
    {
      ghost var some := SomeMember(rest);
      var k :| k in rest;
      if cache[k] > worstDist {
        worstDist, worstKey := cache[k], k;
      }
      rest, seen := rest - {k}, seen + {k};
    }
  }

  /** A stored next use farthest among all stored ones. */
  ghost predicate IsWorst(cache: map<int, int>, v: int) {
    v in cache && forall k :: k in cache ==> cache[k] <= cache[v]
  }

  /** One access: a hit refreshes the stored next use, a miss on a full cache evicts first. */
  method Access(cache: map<int, int>, key: int, nextUse: int, capacity: nat)
    returns (after: map<int, int>, hit: bool)
    requires forall k :: k in cache ==> cache[k] >= 0
    ensures hit == (key in cache)
    ensures hit || |cache| < Slots(capacity) ==> after == cache[key := nextUse]
    ensures !hit && |cache| >= Slots(capacity) ==>
      exists v :: IsWorst(cache, v) && after == (cache - {v})[key := nextUse]
  {
    if key in cache {
      return cache[key := nextUse], true;
    }
    var kept := cache;
    if |cache| >= capacity {
      var worstKey := FindVictim(cache);
      kept := cache - {worstKey};
      assert cache != map[] ==> IsWorst(cache, worstKey);
      assert cache == map[] ==> kept == cache && |cache| == 0;
    }
    return kept[key := nextUse], false;
  }

  /** With exact next uses stored, an access is a farthest-use step and keeps them exact. */
  lemma AccessIsFarthestStep(trace: seq<int>, i: nat, cache: map<int, int>, after: map<int, int>, slots: nat)
    requires i < |trace| <= NEVER_AGAIN
    requires forall k :: k in cache ==> cache[k] == NextUse(trace, k, i)
    requires trace[i] in cache || |cache| < slots
             ==> after == cache[trace[i] := NextUse(trace, trace[i], i + 1)]
    requires trace[i] !in cache && |cache| >= slots
             ==> exists v :: IsWorst(cache, v) && after == (cache - {v})[trace[i] := NextUse(trace, trace[i], i + 1)]
    ensures FarthestStep(trace, i, cache.Keys, after.Keys, slots)
    ensures forall k :: k in after ==> after[k] == NextUse(trace, k, i + 1)
  {
    var key := trace[i];
    if key in cache || |cache| < slots {
      assert after.Keys == cache.Keys + {key};
      assert |cache.Keys| == |cache|;
    } else {
      var v :| IsWorst(cache, v) && after == (cache - {v})[key := NextUse(trace, key, i + 1)];
      assert IsFarthest(trace, i, cache.Keys, v);
      assert after.Keys == cache.Keys - {v} + {key};
    }
  }

  /** What the simulation has built after n accesses: a farthest-use run ending in its cache. */
  ghost predicate Simulates(trace: seq<int>, run: seq<set<int>>, n: nat, cache: map<int, int>, hits: nat, slots: nat)
    requires n <= |trace|
  {
    && |run| == n + 1 && run[n] == cache.Keys && |cache.Keys| <= slots
    && IsFarthestRun(trace, run, n, slots)
    && (forall k :: k in cache ==> cache[k] == NextUse(trace, k, n))
    && hits == Hits(trace, run, n)
  }

  lemma SimulationStep(trace: seq<int>, run: seq<set<int>>, n: nat, cache: map<int, int>, after: map<int, int>,
                       hits: nat, slots: nat)
    requires n < |trace| <= NEVER_AGAIN && 1 <= slots
    requires Simulates(trace, run, n, cache, hits, slots)
    requires FarthestStep(trace, n, cache.Keys, after.Keys, slots)
    requires forall k :: k in after ==> after[k] == NextUse(trace, k, n + 1)
    ensures Simulates(trace, run + [after.Keys], n + 1, after, hits + (if trace[n] in cache then 1 else 0), slots)
  {
    hide NextUse, FarthestStep;
    var run' := run + [after.Keys];
    FarthestStepIsDemand(trace, n, cache.Keys, after.Keys, slots);
    HitsOfPrefix(trace, run, trace, run', n);
    forall i | 0 <= i < n + 1 ensures FarthestAt(trace, run', i, slots) {
      if i < n { assert FarthestAt(trace, run, i, slots); }
    }
  }

  /** Simulates the policy. Its hit count is the best any demand policy can do. */
  method BeladyHits(trace: seq<int>, capacity: nat) returns (hits: nat)
    requires |trace| <= NEVER_AGAIN
    ensures IsBestHits(trace, Slots(capacity), hits)
  {
    var table := NextOccurrenceIndex(trace);
    var nextIdx := table[..];
    var cache: map<int, int> := map[];
    hits := 0;
    ghost var run: seq<set<int>> := [{}];
    ghost var slots := Slots(capacity);
    for i := 0 to |trace|
      invariant Simulates(trace, run, i, cache, hits, slots)
    {
      forall k | k in cache ensures cache[k] >= 0 { NextUseAfter(trace, k, i); }
      var after, hit := Access(cache, trace[i], nextIdx[i], capacity);
      assert nextIdx[i] == NextUse(trace, trace[i], i + 1);
      AccessIsFarthestStep(trace, i, cache, after, slots);
      SimulationStep(trace, run, i, cache, after, hits, slots);
      hits := hits + (if hit then 1 else 0);
      cache, run := after, run + [after.Keys];
    }
    FarthestRunIsBest(trace, run, slots);
  }
}
