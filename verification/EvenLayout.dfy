/** Spreading sorted keys evenly over a stretch of slots (cpp/gapped_array.h: layout, relay). */
module EvenLayout {
  import opened Slots

  /** Where key i of n goes in a stretch of `slots` slots starting at `begin`. */
  function Place(begin: nat, slots: nat, n: nat, i: nat): nat
    requires n > 0
  {
    begin + i * slots / n
  }

  function CeilDiv(a: nat, b: nat): nat
    requires b > 0
  {
    if a % b == 0 then a / b else a / b + 1
  }

  lemma DivUnique(a: int, q: int, r: int, n: int)
    requires n > 0 && a == q * n + r && 0 <= r < n
    ensures a / n == q && a % n == r
  {
    var q', r' := a / n, a % n;
    assert a == q' * n + r';
    assert (q - q') * n == r' - r;
    assert (q' - q) * n == r - r';
    if q > q' { MulAtLeast(q - q', n); }
    if q < q' { MulAtLeast(q' - q, n); }
  }

  lemma MulAtLeast(k: int, n: int)
    requires k >= 1 && n > 0
    ensures k * n >= n
  {
  }

  /** (i * slots) / n, with slots split into its quotient and remainder by n. */
  lemma PlaceSplits(slots: nat, n: nat, i: nat)
    requires n > 0
    ensures i * slots / n == i * (slots / n) + i * (slots % n) / n
  {
    var q, r := slots / n, slots % n;
    var t := i * r;
    assert slots == q * n + r;
    assert i * slots == (i * q + t / n) * n + t % n by { Expand(i, q, n, r, t, slots); }
    DivUnique(i * slots, i * q + t / n, t % n, n);
  }

  lemma Expand(i: nat, q: nat, n: nat, r: nat, t: nat, slots: nat)
    requires n > 0 && slots == q * n + r && t == i * r
    ensures i * slots == (i * q + t / n) * n + t % n
  {
    assert t == (t / n) * n + t % n;
    assert i * slots == i * (q * n) + i * r;
    assert i * (q * n) == (i * q) * n;
  }

  /** The distance between neighbouring places. */
  lemma StepSize(slots: nat, n: nat, i: nat)
    requires n > 0
    ensures var d := (i + 1) * slots / n - i * slots / n;
      d == slots / n || (d == slots / n + 1 && slots % n != 0)
  {
    var q, r := slots / n, slots % n;
    PlaceSplits(slots, n, i);
    PlaceSplits(slots, n, i + 1);
    StepOfRemainder(i, r, n);
    assert (i + 1) * q == i * q + q;
  }

  /** Neighbouring keys are the floor or the ceiling of slots per key apart, so with room for
      every key the places are distinct, increasing, and inside the stretch. */
  lemma PlacesSpread(begin: nat, slots: nat, n: nat, i: nat)
    requires 0 < n <= slots && i < n
    ensures begin <= Place(begin, slots, n, i) < begin + slots
    ensures var d := Place(begin, slots, n, i + 1) - Place(begin, slots, n, i);
      (d == slots / n || d == CeilDiv(slots, n)) && d >= 1
  {
    PlaceBelow(slots, n, i);
    StepSize(slots, n, i);
    assert slots / n != 0 by { assert slots == (slots / n) * n + slots % n; }
  }

  /** The first key takes the first slot, and the n-th place would be the end. */
  lemma PlaceEnds(begin: nat, slots: nat, n: nat)
    requires n > 0
    ensures Place(begin, slots, n, 0) == begin && Place(begin, slots, n, n) == begin + slots
  {
    DivUnique(n * slots, slots, 0, n);
  }

  lemma StepOfRemainder(i: nat, r: nat, n: nat)
    requires 0 <= r < n
    ensures var d := (i + 1) * r / n - i * r / n;
      0 <= d <= 1 && (r == 0 ==> d == 0)
  {
    var t := i * r;
    assert (i + 1) * r == t + r;
    var q, m := t / n, t % n;
    assert t == q * n + m;
    if m + r < n {
      DivUnique(t + r, q, m + r, n);
    } else {
      assert t + r == (q + 1) * n + (m + r - n);
      DivUnique(t + r, q + 1, m + r - n, n);
    }
  }

  lemma PlaceBelow(slots: nat, n: nat, i: nat)
    requires 0 < n <= slots && i < n
    ensures 0 <= i * slots / n < slots
  {
    assert i * slots < n * slots by { assert n * slots - i * slots == (n - i) * slots; MulAtLeast(n - i, slots); }
    var a := i * slots;
    assert a == (a / n) * n + a % n;
    if a / n >= slots { MulOrder(slots, a / n, n); }
  }

  lemma MulOrder(a: nat, b: nat, n: nat)
    requires a <= b
    ensures a * n <= b * n
  {
  }

  ghost function Zip<V>(keys: seq<int>, values: seq<V>): seq<(int, V)>
    requires |keys| == |values|
  {
    seq(|keys|, i requires 0 <= i < |keys| => (keys[i], values[i]))
  }

  lemma ZipSnoc<V>(keys: seq<int>, values: seq<V>, i: nat)
    requires |keys| == |values| && i < |keys|
    ensures Zip(keys[..i + 1], values[..i + 1]) == Zip(keys[..i], values[..i]) + [(keys[i], values[i])]
  {
  }

  ghost predicate AllGaps(data: seq<int>, from: nat, to: nat)
    requires from <= to <= |data|
  {
    forall i :: from <= i < to ==> data[i] == EMPTY_SLOT
  }

  /** Filling the next place appends one entry to the stretch. */
  lemma PlaceNext<V>(data: seq<int>, vals: seq<V>, begin: nat, last: nat, target: nat, k: int, v: V)
    requires |data| == |vals| && begin <= last <= target < |data| && IsReal(k)
    requires AllGaps(data, last, target)
    ensures Entries(data[target := k][begin..target + 1], vals[target := v][begin..target + 1])
         == Entries(data[begin..last], vals[begin..last]) + [(k, v)]
  {
    hide Entries;
    var d, w := data[target := k], vals[target := v];
    assert d[begin..target + 1] == data[begin..last] + data[last..target] + [k];
    assert w[begin..target + 1] == vals[begin..last] + vals[last..target] + [v];
    EntriesAppend(data[begin..last] + data[last..target], vals[begin..last] + vals[last..target], [k], [v]);
    EntriesAppend(data[begin..last], vals[begin..last], data[last..target], vals[last..target]);
    EntriesOfGaps(data[last..target], vals[last..target]);
    EntriesOne(k, v);
  }

  ghost predicate SameOutside<T>(a: seq<T>, b: seq<T>, begin: nat, end: nat)
    requires begin <= end <= |a|
  {
    |b| == |a| && b[..begin] == a[..begin] && b[end..] == a[end..]
  }

  lemma UpdateInside<T>(a: seq<T>, b: seq<T>, begin: nat, end: nat, target: nat, x: T)
    requires begin <= target < end <= |a| && SameOutside(a, b, begin, end)
    ensures SameOutside(a, b[target := x], begin, end)
  {
  }

  /** The placing loop's state after i keys. */
  ghost predicate Placed<V>(data: seq<int>, vals: seq<V>, begin: nat, end: nat, keys: seq<int>, values: seq<V>,
                            positions: seq<int>, i: nat, last: nat)
    requires |data| == |vals| && begin <= end <= |data| && |keys| == |values| && i <= |keys|
  {
    && begin <= last <= end && |positions| == i
    && last == (if i == 0 then begin else Place(begin, end - begin, |keys|, i - 1) + 1)
    && AllGaps(data, last, end)
    && Entries(data[begin..last], vals[begin..last]) == Zip(keys[..i], values[..i])
    && (forall j :: 0 <= j < i ==> positions[j] == Place(begin, end - begin, |keys|, j))
    && (forall j :: 0 <= j < i ==> begin <= positions[j] < last && data[positions[j]] == keys[j])
  }

  lemma PlacedStep<V>(data: seq<int>, vals: seq<V>, begin: nat, end: nat, keys: seq<int>, values: seq<V>,
                      positions: seq<int>, i: nat, last: nat)
    requires |data| == |vals| && begin <= end <= |data| && |keys| == |values| <= end - begin && i < |keys|
    requires IsReal(keys[i]) && Placed(data, vals, begin, end, keys, values, positions, i, last)
    ensures var t := Place(begin, end - begin, |keys|, i);
      && last <= t < end
      && Placed(data[t := keys[i]], vals[t := values[i]], begin, end, keys, values, positions + [t], i + 1, t + 1)
  {
    hide Entries, Zip, Place, CeilDiv;
    PlacesSpread(begin, end - begin, |keys|, i);
    if i > 0 { PlacesSpread(begin, end - begin, |keys|, i - 1); }
    var t := Place(begin, end - begin, |keys|, i);
    PlaceNext(data, vals, begin, last, t, keys[i], values[i]);
    ZipSnoc(keys, values, i);
  }

  /** The placing loop shared by layout and relay, with its nudge on collision and its end
      clamp. In exact arithmetic neither ever fires. */
  method PlaceEvenly<V>(data: seq<int>, vals: seq<V>, begin: nat, end: nat, keys: seq<int>, values: seq<V>)
    returns (data': seq<int>, vals': seq<V>, positions: seq<int>)
    requires |data| == |vals| && begin <= end <= |data| && AllGaps(data, begin, end)
    requires |keys| == |values| <= end - begin && forall i :: 0 <= i < |keys| ==> IsReal(keys[i])
    ensures |data'| == |vals'| && |positions| == |keys|
    ensures SameOutside(data, data', begin, end) && SameOutside(vals, vals', begin, end)
    ensures Entries(data'[begin..end], vals'[begin..end]) == Zip(keys, values)
    ensures forall i :: 0 <= i < |keys| ==> positions[i] == Place(begin, end - begin, |keys|, i)
    ensures forall i :: 0 <= i < |keys| ==> begin <= positions[i] < end && data'[positions[i]] == keys[i]
  {
    data', vals', positions := data, vals, [];
    var lastSlot := begin - 1;
    var n := |keys|;
    EntriesOfGaps(data[begin..begin], vals[begin..begin]);
    assert Placed(data, vals, begin, end, keys, values, [], 0, begin);
    for i := 0 to n
      invariant |data'| == |vals'| && begin - 1 <= lastSlot
      invariant SameOutside(data, data', begin, end) && SameOutside(vals, vals', begin, end)
      invariant Placed(data', vals', begin, end, keys, values, positions, i, lastSlot + 1)
    {
      hide Entries, Zip, SameOutside, Placed;
      PlacedStep(data', vals', begin, end, keys, values, positions, i, lastSlot + 1);
      var target := begin + i * (end - begin) / n;
      if target <= lastSlot { target := lastSlot + 1; }
      if target > end - 1 { target := end - 1; }
      UpdateInside(data, data', begin, end, target, keys[i]);
      UpdateInside(vals, vals', begin, end, target, values[i]);
      data', vals' := data'[target := keys[i]], vals'[target := values[i]];
      positions := positions + [target];
      lastSlot := target;
    }
    assert keys[..n] == keys && values[..n] == values;
    TailGaps(data', vals', begin, lastSlot + 1, end);
  }

  lemma TailGaps<V>(data: seq<int>, vals: seq<V>, begin: nat, last: nat, end: nat)
    requires |data| == |vals| && begin <= last <= end <= |data| && AllGaps(data, last, end)
    ensures Entries(data[begin..end], vals[begin..end]) == Entries(data[begin..last], vals[begin..last])
  {
    assert data[begin..end] == data[begin..last] + data[last..end];
    assert vals[begin..end] == vals[begin..last] + vals[last..end];
    EntriesAppend(data[begin..last], vals[begin..last], data[last..end], vals[last..end]);
    EntriesOfGaps(data[last..end], vals[last..end]);
  }
}
