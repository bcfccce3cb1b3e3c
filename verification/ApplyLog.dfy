/** Replaying the log over a snapshot. apply_log (cpp/durable_store.h) sorts the log stably and
    merges it into the sorted rows in one pass; what it must equal is applying every record in
    the order it was logged. */
module ApplyLog {
  import opened Bytes
  import opened Slots
  import opened WriteAheadLog

  type Value = seq<byte>
  type Row = (int, Value)
  type Table = map<int, Value>

  /** One logged write applied to a table. */
  function Apply(m: Table, r: WalRecord): Table {
    if r.kind.PUT? then m[r.key := r.value] else m - {r.key}
  }

  /** Every record applied in log order. */
  function Replay(m: Table, log: seq<WalRecord>): Table {
    if log == [] then m else Apply(Replay(m, log[..|log| - 1]), log[|log| - 1])
  }

  lemma {:induction false} ReplayAppend(m: Table, a: seq<WalRecord>, b: seq<WalRecord>)
    ensures Replay(m, a + b) == Replay(Replay(m, a), b)
  {
    if b == [] {
      assert a + b == a;
    } else {
      var n := |b| - 1;
      ReplayAppend(m, a, b[..n]);
      assert (a + b)[..|a + b| - 1] == a + b[..n];
    }
  }

  // ---- The last record for a key decides ----

  /** The index of the last record for k, or -1. */
  function LastFor(log: seq<WalRecord>, k: int): (r: int)
    ensures -1 <= r < |log|
    ensures r >= 0 ==> log[r].key == k
    ensures forall j :: r < j < |log| ==> log[j].key != k
  {
    if log == [] then -1
    else if log[|log| - 1].key == k then |log| - 1
    else LastFor(log[..|log| - 1], k)
  }

  /** What m holds at k, if anything. */
  datatype Lookup = Absent | Present(value: Value)

  function At(m: Table, k: int): Lookup {
    if k in m then Present(m[k]) else Absent
  }

  function Written(r: WalRecord): Lookup {
    if r.kind.PUT? then Present(r.value) else Absent
  }

  /** Of several logged writes to a key only the last one matters. */
  lemma {:induction false} LastWriteWins(m: Table, log: seq<WalRecord>, k: int)
    ensures At(Replay(m, log), k) == if LastFor(log, k) < 0 then At(m, k) else Written(log[LastFor(log, k)])
  {
    if log != [] {
      LastWriteWins(m, log[..|log| - 1], k);
    }
  }

  lemma SameTable(a: Table, b: Table)
    requires forall k :: At(a, k) == At(b, k)
    ensures a == b
  {
    forall k ensures (k in a <==> k in b) && (k in a ==> a[k] == b[k]) {
      assert At(a, k) == At(b, k);
    }
  }

  /** Applying a log to its own result changes nothing. */
  lemma ReplayTwice(m: Table, log: seq<WalRecord>)
    ensures Replay(Replay(m, log), log) == Replay(m, log)
  {
    var once := Replay(m, log);
    forall k ensures At(Replay(once, log), k) == At(once, k) {
      LastWriteWins(m, log, k);
      LastWriteWins(once, log, k);
    }
    SameTable(Replay(once, log), once);
  }

  // ---- The stable order ----

  /** Record a comes before record b: smaller key, or the same key and logged earlier. */
  predicate Before(log: seq<WalRecord>, a: nat, b: nat)
    requires a < |log| && b < |log|
  {
    log[a].key < log[b].key || (log[a].key == log[b].key && a < b)
  }

  ghost predicate IsStableOrder(log: seq<WalRecord>, order: seq<nat>, n: nat)
    requires n <= |log|
  {
    && |order| == n
    && (forall p :: 0 <= p < n ==> order[p] < n)
    && (forall p, q :: 0 <= p < q < n ==> Before(log, order[p], order[q]))
    && (forall i: nat :: i < n ==> i in order)
  }

  /** The record numbers 0, 1, ... in stable key order. */
  method StableOrder(log: seq<WalRecord>) returns (order: seq<nat>)
    ensures IsStableOrder(log, order, |log|)
  {
    order := [];
    for i := 0 to |log|
      invariant IsStableOrder(log, order, i)
    {
      var p := i;
      while p > 0 && log[i].key < log[order[p - 1]].key
        invariant 0 <= p <= i
        invariant forall q :: p <= q < i ==> Before(log, i, order[q])
      {
        p := p - 1;
      }
      InsertKeepsOrder(log, order, i, p);
      order := order[..p] + [i] + order[p..];
    }
  }

  lemma InsertKeepsOrder(log: seq<WalRecord>, order: seq<nat>, i: nat, p: nat)
    requires i < |log| && p <= i && IsStableOrder(log, order, i)
    requires p > 0 ==> log[order[p - 1]].key <= log[i].key
    requires forall q :: p <= q < i ==> Before(log, i, order[q])
    ensures IsStableOrder(log, order[..p] + [i] + order[p..], i + 1)
  {
    var out := order[..p] + [i] + order[p..];
    forall q | 0 <= q < p ensures Before(log, order[q], i) {
      if q < p - 1 { assert Before(log, order[q], order[p - 1]); }
    }
    forall a, b | 0 <= a < b < i + 1 ensures Before(log, out[a], out[b]) {
      var a', b' := if a < p then a else a - 1, if b < p then b else b - 1;
      if a == p {
        assert out[b] == order[b'];
      } else if b == p {
        assert out[a] == order[a'];
      } else {
        assert out[a] == order[a'] && out[b] == order[b'];
      }
    }
    InsertKeepsAll(order, i, p);
  }

  /** Putting i in leaves every earlier number in the order. */
  lemma InsertKeepsAll(order: seq<nat>, i: nat, p: nat)
    requires p <= i == |order| && forall j: nat :: j < i ==> j in order
    ensures forall j: nat :: j < i + 1 ==> j in order[..p] + [i] + order[p..]
  {
    var out := order[..p] + [i] + order[p..];
    forall j: nat | j < i + 1 ensures j in out {
      if j == i {
        assert out[p] == i;
      } else {
        assert j in order;
        var q :| 0 <= q < i && order[q] == j;
        assert out[if q < p then q else q + 1] == j;
      }
    }
  }

  // ---- The merge ----

  /** The part of a table at or below a key. */
  ghost function Below(m: Table, done: int): Table {
    map k | k in m && k <= done :: m[k]
  }

  lemma BelowStep(m: Table, done: int, k: int)
    requires done < k && forall x :: done < x < k ==> x !in m
    ensures Below(m, k) == if k in m then Below(m, done)[k := m[k]] else Below(m, done)
  {
  }

  /** Rows up to s and sorted records up to i are merged: every key up to done is settled. */
  ghost predicate Settled(rows: seq<Row>, log: seq<WalRecord>, order: seq<nat>, s: nat, i: nat, done: int)
    requires s <= |rows| && i <= |order| == |log|
  {
    && (forall p :: 0 <= p < |order| ==> order[p] < |log|)
    && (forall j :: 0 <= j < s ==> rows[j].0 <= done)
    && (forall j :: s <= j < |rows| ==> rows[j].0 > done)
    && (forall p :: 0 <= p < i ==> log[order[p]].key <= done)
    && (forall p :: i <= p < |order| ==> log[order[p]].key > done)
  }

  /** The rows written so far are the settled part of the target, in key order. */
  ghost predicate Emitted(out: seq<Row>, target: Table, done: int) {
    SortedEntries(out) && MapOf(out) == Below(target, done) && forall j :: 0 <= j < |out| ==> out[j].0 <= done
  }

  /** A key between the settled ones and everything still pending is in no table. */
  lemma NothingBetween(rows: seq<Row>, log: seq<WalRecord>, order: seq<nat>, s: nat, i: nat, done: int, x: int)
    requires SortedEntries(rows) && IsStableOrder(log, order, |log|)
    requires s <= |rows| && i <= |order| && Settled(rows, log, order, s, i, done)
    requires x > done && (s < |rows| ==> x < rows[s].0) && (i < |order| ==> x < log[order[i]].key)
    ensures x !in Replay(MapOf(rows), log)
  {
    LastWriteWins(MapOf(rows), log, x);
    NoRecordAt(log, order, i, x, done);
    MapOfSorted(rows);
    MapKeys(rows, x);
  }

  lemma NoRecordAt(log: seq<WalRecord>, order: seq<nat>, i: nat, x: int, done: int)
    requires IsStableOrder(log, order, |log|) && i <= |order|
    requires forall p :: 0 <= p < i ==> log[order[p]].key <= done
    requires x > done && (i < |order| ==> x < log[order[i]].key)
    ensures LastFor(log, x) < 0
  {
    forall p | 0 <= p < |order| ensures log[order[p]].key != x {
      if p > i { assert Before(log, order[i], order[p]); }
    }
    forall j: nat | j < |log| ensures log[j].key != x {
      assert j in order;
      var p :| 0 <= p < |order| && order[p] == j;
    }
  }

  lemma Emit(out: seq<Row>, target: Table, done: int, k: int)
    requires Emitted(out, target, done) && done < k && k in target
    requires forall x :: done < x < k ==> x !in target
    ensures Emitted(out + [(k, target[k])], target, k)
  {
    BelowStep(target, done, k);
    MapOfAppend(out, [(k, target[k])]);
    MapOfOne(k, target[k]);
  }

  lemma Skip(out: seq<Row>, target: Table, done: int, k: int)
    requires Emitted(out, target, done) && done < k
    requires forall x :: done < x <= k ==> x !in target
    ensures Emitted(out, target, k)
  {
    BelowStep(target, done, k);
  }

  /** The group of records from i to last shares a key; its final record is that key's last. */
  lemma GroupEnd(log: seq<WalRecord>, order: seq<nat>, i: nat, last: nat, key: int)
    requires IsStableOrder(log, order, |log|) && i <= last < |order|
    requires log[order[last]].key == key
    requires last + 1 < |order| ==> log[order[last + 1]].key != key
    ensures LastFor(log, key) == order[last]
    ensures forall p :: last < p < |order| ==> log[order[p]].key > key
  {
    forall p | last < p < |order| ensures log[order[p]].key > key {
      assert Before(log, order[last], order[last + 1]);
      if p > last + 1 { assert Before(log, order[last + 1], order[p]); }
    }
    forall j: nat | order[last] < j < |log| ensures log[j].key != key {
      assert j in order;
      var q :| 0 <= q < |order| && order[q] == j;
      if q < last { assert Before(log, order[q], order[last]); }
    }
  }

  lemma StartMerge(rows: seq<Row>, log: seq<WalRecord>, order: seq<nat>, done: int)
    requires SortedEntries(rows) && IsStableOrder(log, order, |log|) && order != []
    requires done < log[order[0]].key && (rows != [] ==> done < rows[0].0)
    ensures Settled(rows, log, order, 0, 0, done) && Emitted([], Replay(MapOf(rows), log), done)
  {
    forall p | 0 <= p < |order| ensures log[order[p]].key > done {
      if p > 0 { assert Before(log, order[0], order[p]); }
    }
    forall x | x <= done ensures x !in Replay(MapOf(rows), log) {
      NothingBetween(rows, log, order, 0, 0, x - 1, x);
    }
  }

  /** A group of records settles its key: the row it overwrote or deleted is passed over. */
  lemma SettleGroup(rows: seq<Row>, log: seq<WalRecord>, order: seq<nat>, s: nat, i: nat, last: nat,
                    out: seq<Row>, done: int, key: int)
    requires SortedEntries(rows) && IsStableOrder(log, order, |log|) && i <= last < |order|
    requires s <= |rows| && Settled(rows, log, order, s, i, done) && Emitted(out, Replay(MapOf(rows), log), done)
    requires s < |rows| ==> rows[s].0 >= key
    requires forall p :: i <= p <= last ==> log[order[p]].key == key
    requires last + 1 < |order| ==> log[order[last + 1]].key != key
    ensures Settled(rows, log, order, if s < |rows| && rows[s].0 == key then s + 1 else s, last + 1, key)
    ensures var r := log[order[last]];
      Emitted(if r.kind.PUT? then out + [(key, r.value)] else out, Replay(MapOf(rows), log), key)
  {
    hide Replay, MapOf, LastFor, Emitted, SortedEntries, IsStableOrder;
    var target := Replay(MapOf(rows), log);
    GroupSettled(rows, log, order, s, i, last, done, key);
    GroupEnd(log, order, i, last, key);
    LastWriteWins(MapOf(rows), log, key);
    forall x | done < x < key ensures x !in target { NothingBetween(rows, log, order, s, i, done, x); }
    if key in target { Emit(out, target, done, key); } else { Skip(out, target, done, key); }
  }

  lemma GroupSettled(rows: seq<Row>, log: seq<WalRecord>, order: seq<nat>, s: nat, i: nat, last: nat, done: int, key: int)
    requires SortedEntries(rows) && IsStableOrder(log, order, |log|) && i <= last < |order|
    requires s <= |rows| && Settled(rows, log, order, s, i, done) && (s < |rows| ==> rows[s].0 >= key)
    requires forall p :: i <= p <= last ==> log[order[p]].key == key
    requires last + 1 < |order| ==> log[order[last + 1]].key != key
    ensures Settled(rows, log, order, if s < |rows| && rows[s].0 == key then s + 1 else s, last + 1, key)
    ensures done < key
  {
    hide LastFor;
    GroupEnd(log, order, i, last, key);
    assert log[order[last]].key == key;
  }

  lemma EndMerge(rows: seq<Row>, log: seq<WalRecord>, order: seq<nat>, out: seq<Row>, done: int)
    requires SortedEntries(rows) && IsStableOrder(log, order, |log|)
    requires Settled(rows, log, order, |rows|, |order|, done) && Emitted(out, Replay(MapOf(rows), log), done)
    ensures MapOf(out) == Replay(MapOf(rows), log)
  {
    var target := Replay(MapOf(rows), log);
    forall x | x > done ensures x !in target { NothingBetween(rows, log, order, |rows|, |order|, done, x); }
    assert Below(target, done) == target;
  }

  lemma NothingLogged(rows: seq<Row>, log: seq<WalRecord>)
    requires log == []
    ensures MapOf(rows) == Replay(MapOf(rows), log)
  {
  }

  lemma OrderInside(log: seq<WalRecord>, order: seq<nat>)
    requires IsStableOrder(log, order, |log|)
    ensures |order| == |log| && forall i :: 0 <= i < |order| ==> order[i] < |log|
  {
  }

  /** One pass over the sorted log and the sorted rows. */
  method ApplyLog(rows: seq<Row>, log: seq<WalRecord>) returns (out: seq<Row>)
    requires SortedEntries(rows)
    ensures SortedEntries(out) && MapOf(out) == Replay(MapOf(rows), log)
  {
    hide Settled, Emitted, IsStableOrder, SortedEntries, LastFor, Replay, MapOf;
    if log == [] {
      NothingLogged(rows, log);
      return rows;
    }
    var order := StableOrder(log);
    OrderInside(log, order);
    ghost var target := Replay(MapOf(rows), log);
    ghost var done := if rows == [] || log[order[0]].key < rows[0].0 then log[order[0]].key - 1 else rows[0].0 - 1;
    out := [];
    var s: nat, i: nat := 0, 0;
    StartMerge(rows, log, order, done);
    while i < |order|
      invariant s <= |rows| && i <= |order| && Settled(rows, log, order, s, i, done)
      invariant Emitted(out, target, done)
    {
      var key := log[order[i]].key;
      var last := i;
      while last + 1 < |order| && log[order[last + 1]].key == key
        invariant i <= last < |order| && log[order[last]].key == key
        invariant forall p :: i <= p <= last ==> log[order[p]].key == key
      {
        last := last + 1;
      }
      out, s, done := CopyRows(rows, log, order, s, i, out, done, key);
      SettleGroup(rows, log, order, s, i, last, out, done, key);
      if s < |rows| && rows[s].0 == key { s := s + 1; } // settled by the log
      var finalWrite := log[order[last]];
      if finalWrite.kind.PUT? {
        out := out + [(key, finalWrite.value)];
      }
      i, done := last + 1, key;
    }
    while s < |rows|
      invariant s <= |rows| && Settled(rows, log, order, s, |order|, done) && Emitted(out, target, done)
    {
      CopyOne(rows, log, order, s, |order|, out, done);
      done := rows[s].0;
      out := out + [rows[s]];
      s := s + 1;
    }
    EndMerge(rows, log, order, out, done);
    assert Emitted(out, target, done);
    EmittedSorted(out, target, done);
  }

  lemma EmittedSorted(out: seq<Row>, target: Table, done: int)
    requires Emitted(out, target, done)
    ensures SortedEntries(out)
  {
  }

  /** Copies the rows below key: the log does not touch them. */
  method CopyRows(rows: seq<Row>, log: seq<WalRecord>, order: seq<nat>, s0: nat, i: nat, out0: seq<Row>,
                  ghost done0: int, key: int)
    returns (out: seq<Row>, s: nat, ghost done: int)
    requires SortedEntries(rows) && IsStableOrder(log, order, |log|) && i < |order| && key == log[order[i]].key
    requires s0 <= |rows| && Settled(rows, log, order, s0, i, done0)
    requires Emitted(out0, Replay(MapOf(rows), log), done0)
    ensures s <= |rows| && Settled(rows, log, order, s, i, done) && Emitted(out, Replay(MapOf(rows), log), done)
    ensures s < |rows| ==> rows[s].0 >= key
  {
    hide Replay, MapOf, Emitted, SortedEntries, Settled, IsStableOrder;
    out, s, done := out0, s0, done0;
    OrderInside(log, order);
    while s < |rows| && rows[s].0 < key
      invariant s <= |rows| && Settled(rows, log, order, s, i, done) && Emitted(out, Replay(MapOf(rows), log), done)
    {
      CopyOne(rows, log, order, s, i, out, done);
      out := out + [rows[s]];
      done := rows[s].0;
      s := s + 1;
    }
  }

  lemma CopyOne(rows: seq<Row>, log: seq<WalRecord>, order: seq<nat>, s: nat, i: nat, out: seq<Row>, done: int)
    requires SortedEntries(rows) && IsStableOrder(log, order, |log|) && i <= |order|
    requires s < |rows| && Settled(rows, log, order, s, i, done)
    requires Emitted(out, Replay(MapOf(rows), log), done)
    requires i < |order| ==> rows[s].0 < log[order[i]].key
    ensures var k := rows[s].0;
      Settled(rows, log, order, s + 1, i, k) && Emitted(out + [rows[s]], Replay(MapOf(rows), log), k)
  {
    hide Replay, MapOf, LastFor, Emitted, SortedEntries, IsStableOrder;
    var k, target := rows[s].0, Replay(MapOf(rows), log);
    forall x | done < x < k ensures x !in target { NothingBetween(rows, log, order, s, i, done, x); }
    RowStands(rows, log, order, s, i, done);
    Emit(out, target, done, k);
    RowSettled(rows, log, order, s, i, done);
  }

  /** A row that the log says nothing about is in the result as it is. */
  lemma RowStands(rows: seq<Row>, log: seq<WalRecord>, order: seq<nat>, s: nat, i: nat, done: int)
    requires SortedEntries(rows) && IsStableOrder(log, order, |log|) && i <= |order|
    requires s < |rows| && Settled(rows, log, order, s, i, done)
    requires i < |order| ==> rows[s].0 < log[order[i]].key
    ensures var (k, target) := (rows[s].0, Replay(MapOf(rows), log)); done < k && k in target && target[k] == rows[s].1
  {
    hide Replay, MapOf, LastFor, IsStableOrder;
    NoRecordAt(log, order, i, rows[s].0, done);
    LastWriteWins(MapOf(rows), log, rows[s].0);
    MapOfSorted(rows);
  }

  lemma RowSettled(rows: seq<Row>, log: seq<WalRecord>, order: seq<nat>, s: nat, i: nat, done: int)
    requires SortedEntries(rows) && IsStableOrder(log, order, |log|) && i <= |order|
    requires s < |rows| && Settled(rows, log, order, s, i, done)
    requires i < |order| ==> rows[s].0 < log[order[i]].key
    ensures Settled(rows, log, order, s + 1, i, rows[s].0)
  {
    forall p | i <= p < |order| ensures log[order[p]].key > rows[s].0 {
      if p > i { assert Before(log, order[i], order[p]); }
    }
  }

  /** Merging the same log into its own result gives that result back, row for row. */
  lemma MergeTwice(rows: seq<Row>, log: seq<WalRecord>, once: seq<Row>, twice: seq<Row>)
    requires SortedEntries(once) && MapOf(once) == Replay(MapOf(rows), log)
    requires SortedEntries(twice) && MapOf(twice) == Replay(MapOf(once), log)
    ensures twice == once
  {
    ReplayTwice(MapOf(rows), log);
    SortedIsUnique(once, twice);
  }

  /** Sorted rows are determined by the table they spell out. */
  lemma {:induction false} SortedIsUnique(a: seq<Row>, b: seq<Row>)
    requires SortedEntries(a) && SortedEntries(b) && MapOf(a) == MapOf(b)
    ensures a == b
  {
    MapOfSorted(a);
    MapOfSorted(b);
    if a != [] {
      var n := |a| - 1;
      MapKeys(b, a[n].0);
      MapKeys(a, b[n].0);
      assert a[n] == b[n];
      DropLast(a);
      DropLast(b);
      SortedIsUnique(a[..n], b[..n]);
      assert a == a[..n] + [a[n]] && b == b[..n] + [b[n]];
    }
  }

  lemma DropLast(a: seq<Row>)
    requires SortedEntries(a) && a != []
    ensures var n := |a| - 1; SortedEntries(a[..n]) && MapOf(a[..n]) == MapOf(a) - {a[n].0}
  {
    var n := |a| - 1;
    MapKeys(a[..n], a[n].0);
  }
}
