/** A gapped array's slots as values: which slots hold keys, the key-value entries they
    spell out in order, and the map those entries mean. */
module Slots {

  const EMPTY_SLOT := 0x7FFF_FFFF_FFFF_FFFF

  predicate IsReal(k: int) {
    k != EMPTY_SLOT
  }

  /** Real keys strictly increase from left to right, and every slot holds an int64 at most EMPTY_SLOT. */
  ghost predicate SortedSlots(data: seq<int>) {
    && (forall i :: 0 <= i < |data| ==> data[i] <= EMPTY_SLOT)
    && (forall i, j :: 0 <= i < j < |data| && IsReal(data[i]) && IsReal(data[j]) ==> data[i] < data[j])
  }

  function Repeat<T>(x: T, n: nat): (r: seq<T>)
    ensures |r| == n && forall i :: 0 <= i < n ==> r[i] == x
  {
    seq(n, i => x)
  }

  /** The entries the slots spell out, gaps skipped. */
  ghost function Entries<V>(data: seq<int>, vals: seq<V>): (r: seq<(int, V)>)
    requires |data| == |vals|
    ensures |r| <= |data|
  {
    if data == [] then []
    else
      var n := |data| - 1;
      Entries(data[..n], vals[..n]) + (if IsReal(data[n]) then [(data[n], vals[n])] else [])
  }

  lemma {:induction false} EntriesAppend<V>(d1: seq<int>, v1: seq<V>, d2: seq<int>, v2: seq<V>)
    requires |d1| == |v1| && |d2| == |v2|
    ensures Entries(d1 + d2, v1 + v2) == Entries(d1, v1) + Entries(d2, v2)
  {
    if d2 == [] {
      assert d1 + d2 == d1 && v1 + v2 == v1;
    } else {
      hide Entries;
      var n := |d2| - 1;
      var d, v := d1 + d2[..n], v1 + v2[..n];
      EntriesAppend(d1, v1, d2[..n], v2[..n]);
      EntriesPush(d, v, d2[n], v2[n]);
      EntriesPush(d2[..n], v2[..n], d2[n], v2[n]);
      assert d + [d2[n]] == d1 + d2 && v + [v2[n]] == v1 + v2;
      assert d2[..n] + [d2[n]] == d2 && v2[..n] + [v2[n]] == v2;
    }
  }

  lemma EntriesPush<V>(data: seq<int>, vals: seq<V>, k: int, v: V)
    requires |data| == |vals|
    ensures Entries(data + [k], vals + [v]) == Entries(data, vals) + (if IsReal(k) then [(k, v)] else [])
  {
    assert (data + [k])[..|data|] == data && (vals + [v])[..|vals|] == vals;
  }

  lemma EntriesSplit<V>(data: seq<int>, vals: seq<V>, i: nat)
    requires |data| == |vals| && i <= |data|
    ensures Entries(data, vals) == Entries(data[..i], vals[..i]) + Entries(data[i..], vals[i..])
  {
    assert data[..i] + data[i..] == data && vals[..i] + vals[i..] == vals;
    EntriesAppend(data[..i], vals[..i], data[i..], vals[i..]);
  }

  lemma EntriesOne<V>(k: int, v: V)
    ensures Entries([k], [v]) == if IsReal(k) then [(k, v)] else []
  {
    assert [k][..0] == [] && [v][..0] == [];
  }

  lemma {:induction false} EntriesOfGaps<V>(data: seq<int>, vals: seq<V>)
    requires |data| == |vals| && forall i :: 0 <= i < |data| ==> data[i] == EMPTY_SLOT
    ensures Entries(data, vals) == []
  {
    if data != [] { EntriesOfGaps(data[..|data| - 1], vals[..|data| - 1]); }
  }

  /** An entry is a real slot's key with that slot's value, and the other way round. */
  lemma {:induction false} EntryIffSlot<V>(data: seq<int>, vals: seq<V>, e: (int, V))
    requires |data| == |vals|
    ensures e in Entries(data, vals) <==> exists i :: 0 <= i < |data| && IsReal(data[i]) && e == (data[i], vals[i])
  {
    if data != [] {
      var n := |data| - 1;
      EntryIffSlot(data[..n], vals[..n], e);
      if exists i :: 0 <= i < n && IsReal(data[i]) && e == (data[i], vals[i]) {
        var i :| 0 <= i < n && IsReal(data[i]) && e == (data[i], vals[i]);
        assert data[..n][i] == data[i] && vals[..n][i] == vals[i];
      }
    }
  }

  ghost predicate SortedEntries<V>(es: seq<(int, V)>) {
    forall i, j :: 0 <= i < j < |es| ==> es[i].0 < es[j].0
  }

  lemma {:induction false} EntriesSorted<V>(data: seq<int>, vals: seq<V>)
    requires |data| == |vals| && SortedSlots(data)
    ensures SortedEntries(Entries(data, vals))
  {
    if data != [] {
      var n := |data| - 1;
      EntriesSorted(data[..n], vals[..n]);
      var init := Entries(data[..n], vals[..n]);
      forall i | 0 <= i < |init| && IsReal(data[n]) ensures init[i].0 < data[n] {
        EntryIffSlot(data[..n], vals[..n], init[i]);
      }
    }
  }

  /** The map a list of entries means, later entries overriding earlier ones. */
  ghost function MapOf<V>(es: seq<(int, V)>): map<int, V> {
    if es == [] then map[] else MapOf(es[..|es| - 1])[es[|es| - 1].0 := es[|es| - 1].1]
  }

  lemma {:induction false} MapOfAppend<V>(a: seq<(int, V)>, b: seq<(int, V)>)
    ensures MapOf(a + b) == MapOf(a) + MapOf(b)
  {
    if b == [] {
      assert a + b == a;
    } else {
      var n := |b| - 1;
      MapOfAppend(a, b[..n]);
      assert (a + b)[..|a + b| - 1] == a + b[..n];
    }
  }

  ghost predicate HasKey<V>(es: seq<(int, V)>, k: int) {
    exists i :: 0 <= i < |es| && es[i].0 == k
  }

  lemma HasKeyAppend<V>(a: seq<(int, V)>, b: seq<(int, V)>, k: int)
    ensures HasKey(a + b, k) <==> HasKey(a, k) || HasKey(b, k)
  {
    if HasKey(a, k) { var i :| 0 <= i < |a| && a[i].0 == k; assert (a + b)[i] == a[i]; }
    if HasKey(b, k) { var i :| 0 <= i < |b| && b[i].0 == k; assert (a + b)[|a| + i] == b[i]; }
  }

  lemma {:induction false} MapKeys<V>(es: seq<(int, V)>, k: int)
    ensures k in MapOf(es) <==> HasKey(es, k)
  {
    if es != [] {
      var n := |es| - 1;
      MapKeys(es[..n], k);
      assert es == es[..n] + [es[n]];
      HasKeyAppend(es[..n], [es[n]], k);
      assert HasKey([es[n]], k) <==> [es[n]][0].0 == k;
    }
  }

  /** With strictly increasing keys nothing overrides: the map is exactly the entries. */
  lemma {:induction false} MapOfSorted<V>(es: seq<(int, V)>)
    requires SortedEntries(es)
    ensures |MapOf(es)| == |es|
    ensures forall i :: 0 <= i < |es| ==> es[i].0 in MapOf(es) && MapOf(es)[es[i].0] == es[i].1
  {
    if es != [] {
      var n := |es| - 1;
      var init := es[..n];
      MapOfSorted(init);
      MapKeys(init, es[n].0);
      assert es[n].0 !in MapOf(init);
      forall i | 0 <= i < n ensures es[i].0 in MapOf(es) && MapOf(es)[es[i].0] == es[i].1 {
        assert init[i] == es[i] && es[i].0 < es[n].0;
      }
    }
  }

  /** Inserting a new key between its neighbours is a map update. */
  lemma InsertIsUpdate<V>(a: seq<(int, V)>, b: seq<(int, V)>, k: int, v: V)
    requires !HasKey(b, k)
    ensures MapOf(a + [(k, v)] + b) == MapOf(a + b)[k := v]
  {
    MapOfAppend(a + [(k, v)], b);
    MapOfAppend(a, [(k, v)]);
    MapOfAppend(a, b);
    MapOfOne(k, v);
    MapKeys(b, k);
    UpdateBefore(MapOf(a), MapOf(b), k, v);
  }

  lemma UpdateBefore<V>(a: map<int, V>, b: map<int, V>, k: int, v: V)
    requires k !in b
    ensures a + map[k := v] + b == (a + b)[k := v]
  {
  }

  lemma MapOfOne<V>(k: int, v: V)
    ensures MapOf([(k, v)]) == map[k := v]
  {
    assert [(k, v)][..0] == [];
  }

  /** Dropping a key's only entry is a map deletion. */
  lemma DeleteIsRemoval<V>(a: seq<(int, V)>, b: seq<(int, V)>, k: int, v: V)
    requires SortedEntries(a + [(k, v)] + b)
    ensures MapOf(a + b) == MapOf(a + [(k, v)] + b) - {k}
  {
    var all := a + [(k, v)] + b;
    assert all[|a|] == (k, v);
    assert !HasKey(b, k) by {
      forall i | 0 <= i < |b| ensures b[i].0 != k { assert all[|a| + 1 + i] == b[i]; }
    }
    assert !HasKey(a, k) by {
      forall i | 0 <= i < |a| ensures a[i].0 != k { assert all[i] == a[i]; }
    }
    InsertIsUpdate(a, b, k, v);
    HasKeyAppend(a, b, k);
    MapKeys(a + b, k);
  }

  /** The entries with keys in [lo, hi], in order. */
  ghost function RangeOf<V>(es: seq<(int, V)>, lo: int, hi: int): seq<(int, V)> {
    if es == [] then []
    else
      var n := |es| - 1;
      RangeOf(es[..n], lo, hi) + (if lo <= es[n].0 <= hi then [es[n]] else [])
  }

  lemma {:induction false} RangeMember<V>(es: seq<(int, V)>, lo: int, hi: int, e: (int, V))
    ensures e in RangeOf(es, lo, hi) <==> e in es && lo <= e.0 <= hi
  {
    if es != [] {
      var n := |es| - 1;
      RangeMember(es[..n], lo, hi, e);
      assert es == es[..n] + [es[n]];
    }
  }

  ghost function Restrict<V>(m: map<int, V>, lo: int, hi: int): map<int, V> {
    map k | k in m && lo <= k <= hi :: m[k]
  }

  lemma RestrictUpdate<V>(m: map<int, V>, k: int, v: V, lo: int, hi: int)
    ensures Restrict(m[k := v], lo, hi) == if lo <= k <= hi then Restrict(m, lo, hi)[k := v] else Restrict(m, lo, hi)
  {
  }

  lemma {:induction false} RangeSorted<V>(es: seq<(int, V)>, lo: int, hi: int)
    requires SortedEntries(es)
    ensures SortedEntries(RangeOf(es, lo, hi))
  {
    if es != [] {
      var n := |es| - 1;
      RangeSorted(es[..n], lo, hi);
      var r := RangeOf(es[..n], lo, hi);
      forall i | 0 <= i < |r| ensures r[i].0 < es[n].0 {
        RangeMember(es[..n], lo, hi, r[i]);
        var j :| 0 <= j < n && es[..n][j] == r[i];
        assert es[j] == r[i];
      }
    }
  }

  /** What RangeOf means on the map: the restriction to [lo, hi]. */
  lemma {:induction false} RangeIsRestriction<V>(es: seq<(int, V)>, lo: int, hi: int)
    ensures MapOf(RangeOf(es, lo, hi)) == Restrict(MapOf(es), lo, hi)
  {
    if es != [] {
      var n := |es| - 1;
      RangeIsRestriction(es[..n], lo, hi);
      RestrictUpdate(MapOf(es[..n]), es[n].0, es[n].1, lo, hi);
      MapOfAppend(RangeOf(es[..n], lo, hi), [es[n]]);
      MapOfOne(es[n].0, es[n].1);
      assert RangeOf(es[..n], lo, hi) + [] == RangeOf(es[..n], lo, hi);
    }
  }
}
