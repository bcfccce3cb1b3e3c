/** The least-recently-used cache (cpp/lru_cache.h), and its comparison with the offline optimum. */
module LruCache {
  import opened CacheRuns

  const SIZE_MAX := 0xFFFF_FFFF_FFFF_FFFF

  class LRUCache {
    const capacity: nat
    var entries: map<int, nat> // key -> last access time

    ghost predicate Valid()
      reads this
    {
      |entries.Keys| <= Slots(capacity) && forall k :: k in entries ==> entries[k] < SIZE_MAX
    }

    constructor (capacity: nat)
      ensures Valid() && entries == map[] && this.capacity == capacity
    {
      this.capacity := capacity;
      entries := map[];
    }

    /** The eviction scan: any order, first strictly oldest entry. */
    method FindOldest() returns (oldestKey: int)
      requires Valid()
      ensures entries == map[] ==> oldestKey == -1
      ensures entries != map[] ==> IsOldest(entries, oldestKey)
    {
      oldestKey := -1;
      var oldestTime := SIZE_MAX;
      var rest := entries.Keys;
      while rest != {}
        invariant rest <= entries.Keys
        invariant oldestTime == SIZE_MAX ==> oldestKey == -1 && rest == entries.Keys
        invariant oldestTime != SIZE_MAX ==> oldestKey in entries && entries[oldestKey] == oldestTime
        invariant forall k :: k in entries && k !in rest ==> oldestTime <= entries[k]
      {
        ghost var some := SomeMember(rest);
        var k :| k in rest;
        if entries[k] < oldestTime {
          oldestTime, oldestKey := entries[k], k;
        }
        rest := rest - {k};
      }
    }

    /** One access at time `now`: records it, evicting the oldest entry on a miss when full. */
    method Access(key: int, now: nat) returns (hit: bool)
      requires Valid() && now < SIZE_MAX
      modifies this
      ensures Valid()
      ensures hit == (key in old(entries))
      ensures hit || |old(entries)| < Slots(capacity) ==> entries == old(entries)[key := now]
      ensures !hit && |old(entries)| >= Slots(capacity) ==>
        exists v :: IsOldest(old(entries), v) && entries == (old(entries) - {v})[key := now]
    {
      hit := key in entries;
      if !hit && |entries| >= capacity {
        var oldestKey := FindOldest();
        Dropped(entries, oldestKey);
        entries := entries - {oldestKey};
      }
      Recorded(entries, key, now);
      entries := entries[key := now];
    }
  }

  lemma Dropped(entries: map<int, nat>, v: int)
    ensures v in entries ==> |(entries - {v}).Keys| == |entries.Keys| - 1
    ensures entries == map[] ==> entries - {v} == entries && |entries.Keys| == 0
  {
    assert (entries - {v}).Keys == entries.Keys - {v};
  }

  lemma Recorded(entries: map<int, nat>, key: int, now: nat)
    ensures entries[key := now].Keys == entries.Keys + {key}
    ensures key in entries ==> entries[key := now].Keys == entries.Keys
    ensures key !in entries ==> |entries[key := now].Keys| == |entries.Keys| + 1
  {
    assert entries[key := now].Keys == entries.Keys + {key};
    if key in entries { assert entries.Keys + {key} == entries.Keys; }
  }

  /** Evicting the oldest entry is a demand step, whatever the policy's merits. */
  lemma AccessIsDemand(before: map<int, nat>, key: int, now: nat, after: map<int, nat>, slots: nat)
    requires 1 <= slots && |before.Keys| <= slots
    requires key in before || |before| < slots ==> after == before[key := now]
    requires key !in before && |before| >= slots ==>
      exists v :: IsOldest(before, v) && after == (before - {v})[key := now]
    ensures DemandStep(before.Keys, key, after.Keys, slots)
  {
    if key in before || |before| < slots {
      Recorded(before, key, now);
    } else {
      var v :| IsOldest(before, v) && after == (before - {v})[key := now];
      Dropped(before, v);
      Recorded(before - {v}, key, now);
    }
  }

  ghost predicate IsOldest(entries: map<int, nat>, v: int) {
    v in entries && forall k :: k in entries ==> entries[v] <= entries[k]
  }

  lemma ExtendRun(trace: seq<int>, run: seq<set<int>>, after: set<int>, n: nat, slots: nat)
    requires n < |trace| && IsRun(trace[..n], run, slots)
    requires DemandStep(run[n], trace[n], after, slots)
    ensures IsRun(trace[..n + 1], run + [after], slots)
    ensures Hits(trace[..n + 1], run + [after], n + 1)
         == Hits(trace[..n], run, n) + (if trace[n] in run[n] then 1 else 0)
  {
    var t', r' := trace[..n + 1], run + [after];
    forall i | 0 <= i < |t'| ensures DemandAt(t', r', i, slots) {
      if i < n { assert DemandAt(trace[..n], run, i, slots); }
    }
    HitsOfPrefix(t', r', trace[..n], run, n);
  }

  /** Runs the cache over a trace, as the comparison program does. It never gets more hits
      than the best demand policy, which is what the offline policy's count is. */
  method LruHits(trace: seq<int>, capacity: nat) returns (hits: nat)
    requires |trace| <= SIZE_MAX
    ensures forall best :: IsBestHits(trace, Slots(capacity), best) ==> hits <= best
  {
    var lru := new LRUCache(capacity);
    hits := 0;
    ghost var run: seq<set<int>> := [{}];
    for i := 0 to |trace|
      invariant fresh(lru) && lru.Valid() && lru.capacity == capacity
      invariant |run| == i + 1 && run[i] == lru.entries.Keys
      invariant IsRun(trace[..i], run, Slots(capacity))
      invariant hits == Hits(trace[..i], run, i)
    {
      ghost var before := lru.entries;
      var hit := lru.Access(trace[i], i);
      AccessIsDemand(before, trace[i], i, lru.entries, Slots(capacity));
      ExtendRun(trace, run, lru.entries.Keys, i, Slots(capacity));
      hits := hits + (if hit then 1 else 0);
      run := run + [lru.entries.Keys];
    }
    assert trace[..|trace|] == trace;
  }
}
