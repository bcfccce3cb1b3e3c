/** Cache contents as sets of keys, and runs of a demand-eviction policy over a
    trace. The same vocabulary describes the offline optimum and the online policies
    it is compared with. */
module CacheRuns {

  /** How many keys a cache may hold. The eviction loops find no victim in an empty
      cache and insert anyway, so capacity 0 behaves like capacity 1. */
  function Slots(capacity: nat): nat {
    if capacity == 0 then 1 else capacity
  }

  /** One access under any demand policy: the accessed key is cached afterwards, nothing
      else is brought in, any keys may be dropped, and the cache fits its slots. */
  ghost predicate DemandStep(before: set<int>, key: int, after: set<int>, slots: nat) {
    key in after && after <= before + {key} && |after| <= slots
  }

  ghost predicate DemandAt(trace: seq<int>, run: seq<set<int>>, i: nat, slots: nat)
    requires i < |trace| && i + 1 < |run|
  {
    DemandStep(run[i], trace[i], run[i + 1], slots)
  }

  /** run[i] is the cache just before access i; the cache starts empty. */
  ghost predicate IsRun(trace: seq<int>, run: seq<set<int>>, slots: nat) {
    && |run| == |trace| + 1
    && run[0] == {}
    && forall i :: 0 <= i < |trace| ==> DemandAt(trace, run, i, slots)
  }

  /** Hits among the first n accesses. */
  ghost function Hits(trace: seq<int>, run: seq<set<int>>, n: nat): nat
    requires n <= |trace| && n <= |run|
  {
    if n == 0 then 0 else Hits(trace, run, n - 1) + (if trace[n - 1] in run[n - 1] then 1 else 0)
  }

  lemma {:induction false} HitsOfPrefix(t1: seq<int>, r1: seq<set<int>>, t2: seq<int>, r2: seq<set<int>>, n: nat)
    requires n <= |t1| && n <= |r1| && n <= |t2| && n <= |r2|
    requires forall i :: 0 <= i < n ==> t1[i] == t2[i] && r1[i] == r2[i]
    ensures Hits(t1, r1, n) == Hits(t2, r2, n)
  {
    if n > 0 { HitsOfPrefix(t1, r1, t2, r2, n - 1); }
  }

  /** `hits` is the most hits any demand policy with this many slots gets on the trace,
      and some policy does get it. */
  ghost predicate IsBestHits(trace: seq<int>, slots: nat, hits: nat) {
    && (exists run :: IsRun(trace, run, slots) && Hits(trace, run, |trace|) == hits)
    && (forall run :: IsRun(trace, run, slots) ==> Hits(trace, run, |trace|) <= hits)
  }

  lemma SomeMember<T>(s: set<T>) returns (k: T)
    requires s != {}
    ensures k in s
  {
    if forall k :: k !in s { assert false; }
    k :| k in s;
  }
}
