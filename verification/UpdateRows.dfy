/** What a multi-row UPDATE does to a table and to one of its indexes (cpp/executor.h): matches
    are collected up front, then moved one by one. If they are all moved to one primary key and a
    later match already holds that key, the index can keep an entry for a row that is gone; this
    says exactly when. */
module UpdateRows {
  import opened Bytes
  import opened TableKey
  import opened RowFormat
  import opened TableView

  datatype Assignment = Assignment(col: nat, value: Value)

  type MatchList = seq<(int, Row)>

  /** The row with the assignments made in order. */
  function Assigned(row: Row, asg: seq<Assignment>): (r: Row)
    requires forall i :: 0 <= i < |asg| ==> asg[i].col < |row|
    ensures |r| == |row|
  {
    if asg == [] then row
    else Assigned(row, asg[..|asg| - 1])[asg[|asg| - 1].col := asg[|asg| - 1].value]
  }

  predicate Assigns(asg: seq<Assignment>, col: nat) {
    exists i :: 0 <= i < |asg| && asg[i].col == col
  }

  /** The last value assigned to a column. */
  function LastValue(asg: seq<Assignment>, col: nat): Value
    requires Assigns(asg, col)
  {
    var n := |asg| - 1;
    if asg[n].col == col then asg[n].value else (assert Assigns(asg[..n], col) by { StillAssigns(asg, col); } LastValue(asg[..n], col))
  }

  lemma StillAssigns(asg: seq<Assignment>, col: nat)
    requires Assigns(asg, col) && asg[|asg| - 1].col != col
    ensures Assigns(asg[..|asg| - 1], col)
  {
    var i :| 0 <= i < |asg| && asg[i].col == col;
    assert asg[..|asg| - 1][i].col == col;
  }

  /** An assigned column holds its last value, every other column what it held. */
  lemma {:induction false} AssignedColumn(row: Row, asg: seq<Assignment>, col: nat)
    requires (forall i :: 0 <= i < |asg| ==> asg[i].col < |row|) && col < |row|
    ensures Assigned(row, asg)[col] == if Assigns(asg, col) then LastValue(asg, col) else row[col]
  {
    if asg != [] {
      var n := |asg| - 1;
      AssignedColumn(row, asg[..n], col);
      if asg[n].col != col {
        if Assigns(asg, col) { StillAssigns(asg, col); }
        if Assigns(asg[..n], col) {
          var i :| 0 <= i < n && asg[..n][i].col == col;
          assert asg[i].col == col;
        }
      } else {
        assert Assigns(asg, col);
      }
    }
  }

  /** Matches as find_matches collects them: distinct rows of the table in key order, wide enough
      for the assignments. */
  ghost predicate Collected(rows: Rows, ms: MatchList, asg: seq<Assignment>) {
    && (forall i, j :: 0 <= i < j < |ms| ==> ms[i].0 < ms[j].0)
    && (forall i :: 0 <= i < |ms| ==> ms[i].0 in rows && rows[ms[i].0] == ms[i].1)
    && (forall i :: 0 <= i < |ms| ==> Wide(ms[i].1, asg))
  }

  predicate Wide(row: Row, asg: seq<Assignment>) {
    forall i :: 0 <= i < |asg| ==> asg[i].col < |row|
  }

  /** Where a match goes. */
  function Target(m: (int, Row), asg: seq<Assignment>): int
    requires Wide(m.1, asg)
  {
    if Assigns(asg, 0) then IntAt(Assigned(m.1, asg), 0) else m.0
  }

  // ---- One match, then all of them ----

  ghost function RowsStep(rows: Rows, m: (int, Row), asg: seq<Assignment>): Rows
    requires Wide(m.1, asg)
  {
    (if Assigns(asg, 0) then rows - {m.0} else rows)[Target(m, asg) := Assigned(m.1, asg)]
  }

  ghost function EntriesStep(rows: Rows, entries: set<int>, m: (int, Row), asg: seq<Assignment>, c: nat): set<int>
    requires Wide(m.1, asg)
  {
    var k := Target(m, asg);
    var cleared := if k != m.0 && k in rows then entries - {PackComposite(IntAt(rows[k], c), k)} else entries;
    cleared - {PackComposite(IntAt(m.1, c), m.0)} + {PackComposite(IntAt(Assigned(m.1, asg), c), k)}
  }

  ghost predicate AllWide(ms: MatchList, asg: seq<Assignment>) {
    forall i :: 0 <= i < |ms| ==> Wide(ms[i].1, asg)
  }

  ghost function RowsAfter(rows: Rows, ms: MatchList, asg: seq<Assignment>, n: nat): Rows
    requires n <= |ms| && AllWide(ms, asg)
  {
    if n == 0 then rows else RowsStep(RowsAfter(rows, ms, asg, n - 1), ms[n - 1], asg)
  }

  ghost function EntriesAfter(rows: Rows, entries: set<int>, ms: MatchList, asg: seq<Assignment>, c: nat, n: nat): set<int>
    requires n <= |ms| && AllWide(ms, asg)
  {
    if n == 0 then entries
    else EntriesStep(RowsAfter(rows, ms, asg, n - 1), EntriesAfter(rows, entries, ms, asg, c, n - 1), ms[n - 1], asg, c)
  }

  // ---- Without a new primary key ----

  lemma {:induction false} UntouchedMatches(rows: Rows, ms: MatchList, asg: seq<Assignment>, n: nat)
    requires Collected(rows, ms, asg) && n <= |ms| && !Assigns(asg, 0)
    ensures RowsAfter(rows, ms, asg, n).Keys == rows.Keys
    ensures var after := RowsAfter(rows, ms, asg, n); forall j :: n <= j < |ms| ==> after[ms[j].0] == ms[j].1
  {
    if n > 0 { UntouchedMatches(rows, ms, asg, n - 1); }
  }

  /** In place, every index stays right. */
  lemma {:induction false} InPlace(rows: Rows, ms: MatchList, asg: seq<Assignment>, c: nat, n: nat)
    requires Collected(rows, ms, asg) && n <= |ms| && !Assigns(asg, 0) && Packable(rows)
    ensures EntriesAfter(rows, Expected(rows, c), ms, asg, c, n) == Expected(RowsAfter(rows, ms, asg, n), c)
  {
    hide PackComposite, IntAt, Expected;
    if n > 0 {
      InPlace(rows, ms, asg, c, n - 1);
      UntouchedMatches(rows, ms, asg, n - 1);
      var before := RowsAfter(rows, ms, asg, n - 1);
      ExpectedPut(before, c, ms[n - 1].0, Assigned(ms[n - 1].1, asg));
    }
  }

  // ---- Moved to primary key k ----

  /** All rows are moved to one key. */
  ghost predicate MovesTo(asg: seq<Assignment>, k: int64) {
    Assigns(asg, 0) && LastValue(asg, 0) == Int(k)
  }

  lemma TargetIs(m: (int, Row), asg: seq<Assignment>, k: int64)
    requires Wide(m.1, asg) && MovesTo(asg, k) && |m.1| > 0
    ensures Target(m, asg) == k
  {
    AssignedColumn(m.1, asg, 0);
  }

  /** The entries left over for key k after n matches: the value a row moved to k had when the
      match that k held before was taken for the row at k, until a later row has that value. */
  ghost function Leftover(ms: MatchList, asg: seq<Assignment>, c: nat, k: int, n: nat): set<int>
    requires n <= |ms| && AllWide(ms, asg)
  {
    if n == 0 then {}
    else
      var before := if n >= 2 && ms[n - 1].0 == k then {Moved(ms[n - 2], asg, c, k)} else Leftover(ms, asg, c, k, n - 1);
      before - {Moved(ms[n - 1], asg, c, k)}
  }

  /** The entry of a match once it is at k. */
  ghost function Moved(m: (int, Row), asg: seq<Assignment>, c: nat, k: int): int
    requires Wide(m.1, asg)
  {
    PackComposite(IntAt(Assigned(m.1, asg), c), k)
  }

  ghost predicate CanMove(rows: Rows, ms: MatchList, asg: seq<Assignment>, c: nat, k: int64) {
    && Collected(rows, ms, asg) && Packable(rows) && MovesTo(asg, k) && 0 <= k <= SECONDARY_PK_MASK
    && forall i :: 0 <= i < |ms| ==> |ms[i].1| > c
  }

  /** The last match taken is at k; the ones still to come are where they were, but for k's own. */
  lemma {:induction false} MovedRows(rows: Rows, ms: MatchList, asg: seq<Assignment>, c: nat, k: int64, n: nat)
    requires CanMove(rows, ms, asg, c, k) && n <= |ms|
    ensures var after := RowsAfter(rows, ms, asg, n);
      && Packable(after)
      && (n > 0 ==> k in after && after[k] == Assigned(ms[n - 1].1, asg))
      && (forall j :: n <= j < |ms| && (ms[j].0 != k || n == 0) ==> ms[j].0 in after && after[ms[j].0] == ms[j].1)
  {
    if n > 0 {
      MovedRows(rows, ms, asg, c, k, n - 1);
      TargetIs(ms[n - 1], asg, k);
    }
  }

  /** Leftovers are entries for k only. */
  lemma {:induction false} LeftoverAtK(ms: MatchList, asg: seq<Assignment>, c: nat, k: int, n: nat, v: int, pk: int)
    requires n <= |ms| && AllWide(ms, asg) && pk != k
    requires 0 <= k <= SECONDARY_PK_MASK && 0 <= pk <= SECONDARY_PK_MASK
    ensures PackComposite(v, pk) !in Leftover(ms, asg, c, k, n)
  {
    if n > 0 {
      LeftoverAtK(ms, asg, c, k, n - 1, v, pk);
      if n >= 2 { CompositeOrder(v, pk, IntAt(Assigned(ms[n - 2].1, asg), c), k); }
    }
  }

  lemma {:induction false} NothingLeftYet(ms: MatchList, asg: seq<Assignment>, c: nat, k: int, n: nat)
    requires n <= |ms| && AllWide(ms, asg) && forall i :: 1 <= i < n ==> ms[i].0 != k
    ensures Leftover(ms, asg, c, k, n) == {}
  {
    if n > 0 { NothingLeftYet(ms, asg, c, k, n - 1); }
  }

  /** The index holds what it should and the leftovers, which it should not. */
  ghost predicate HoldsLeftover(rows: Rows, ms: MatchList, asg: seq<Assignment>, c: nat, k: int, n: nat)
    requires n <= |ms| && AllWide(ms, asg)
  {
    var expected, left := Expected(RowsAfter(rows, ms, asg, n), c), Leftover(ms, asg, c, k, n);
    EntriesAfter(rows, Expected(rows, c), ms, asg, c, n) == expected + left && expected !! left
  }

  lemma {:induction false} Leftovers(rows: Rows, ms: MatchList, asg: seq<Assignment>, c: nat, k: int64, n: nat)
    requires CanMove(rows, ms, asg, c, k) && n <= |ms|
    ensures HoldsLeftover(rows, ms, asg, c, k, n)
  {
    if n > 0 {
      Leftovers(rows, ms, asg, c, k, n - 1);
      TargetIs(ms[n - 1], asg, k);
      if ms[n - 1].0 == k { TakeK(rows, ms, asg, c, k, n - 1); } else { TakeOther(rows, ms, asg, c, k, n - 1); }
    }
  }

  /** A match from elsewhere: the row it displaces at k and the entry it had are cleared. */
  lemma TakeOther(rows: Rows, ms: MatchList, asg: seq<Assignment>, c: nat, k: int64, n: nat)
    requires CanMove(rows, ms, asg, c, k) && n < |ms| && ms[n].0 != k && Target(ms[n], asg) == k
    requires HoldsLeftover(rows, ms, asg, c, k, n)
    ensures HoldsLeftover(rows, ms, asg, c, k, n + 1)
  {
    var before, pk, row := RowsAfter(rows, ms, asg, n), ms[n].0, ms[n].1;
    MovedRows(rows, ms, asg, c, k, n);
    ExpectedRemove(before, c, pk);
    ExpectedPut(before - {pk}, c, k, Assigned(row, asg));
    if k in before { ExpectedRemove(before, c, k); }
    LeftoverAtK(ms, asg, c, k, n, IntAt(row, c), pk);
  }

  /** The match k itself held: its old entry is cleared, not that of the row moved there since. */
  lemma TakeK(rows: Rows, ms: MatchList, asg: seq<Assignment>, c: nat, k: int64, n: nat)
    requires CanMove(rows, ms, asg, c, k) && n < |ms| && ms[n].0 == k && Target(ms[n], asg) == k
    requires HoldsLeftover(rows, ms, asg, c, k, n)
    ensures HoldsLeftover(rows, ms, asg, c, k, n + 1)
  {
    var before, row := RowsAfter(rows, ms, asg, n), ms[n].1;
    MovedRows(rows, ms, asg, c, k, n);
    NothingLeftYet(ms, asg, c, k, n);
    ExpectedPut(before - {k}, c, k, Assigned(row, asg));
    ExpectedRemove(before, c, k);
    if n > 0 {
      var was := PackComposite(IntAt(row, c), k);
      if was in Expected(before, c) { OnlyItsOwnEntry(before, c, k, IntAt(row, c)); }
      SameColumn(ms, asg, c, k, n);
    }
  }

  /** A column not assigned keeps its value; one assigned ends up equal in every match. */
  lemma SameColumn(ms: MatchList, asg: seq<Assignment>, c: nat, k: int, n: nat)
    requires 0 < n < |ms| && AllWide(ms, asg) && c < |ms[n].1| && c < |ms[n - 1].1|
    ensures Moved(ms[n], asg, c, k) == PackComposite(IntAt(ms[n].1, c), k)
      || Moved(ms[n], asg, c, k) == Moved(ms[n - 1], asg, c, k)
  {
    AssignedColumn(ms[n].1, asg, c);
    AssignedColumn(ms[n - 1].1, asg, c);
  }

  /** Moving matches to one key folds them into one row: the last of them, in place of whatever
      row held that key. */
  lemma {:induction false} MatchesCollapse(rows: Rows, ms: MatchList, asg: seq<Assignment>, c: nat, k: int64, n: nat)
    requires CanMove(rows, ms, asg, c, k) && 0 < n <= |ms|
    ensures var gone := set i | 0 <= i < n :: ms[i].0;
      RowsAfter(rows, ms, asg, n) == (rows - gone)[k := Assigned(ms[n - 1].1, asg)]
  {
    TargetIs(ms[n - 1], asg, k);
    var gone := set i | 0 <= i < n :: ms[i].0;
    if n > 1 {
      MatchesCollapse(rows, ms, asg, c, k, n - 1);
      var before := set i | 0 <= i < n - 1 :: ms[i].0;
      assert gone == before + {ms[n - 1].0};
    } else {
      assert gone == {ms[0].0};
    }
  }

  // ---- Exactly when an entry is left over ----

  /** A later match holds k, the column is not assigned, and the value of the match before it does
      not come again from there on. */
  ghost predicate LeavesStale(ms: MatchList, asg: seq<Assignment>, c: nat, k: int) {
    !Assigns(asg, c) && exists p: nat :: StaleFrom(ms, c, k, p)
  }

  ghost predicate StaleFrom(ms: MatchList, c: nat, k: int, p: nat) {
    1 <= p < |ms| && ms[p].0 == k && forall q :: p <= q < |ms| ==> IntAt(ms[q].1, c) != IntAt(ms[p - 1].1, c)
  }

  /** Once the match that held k is taken, what is left is the previous match's entry, unless a
      match since then has the same one. */
  lemma {:induction false} LeftoverSince(ms: MatchList, asg: seq<Assignment>, c: nat, k: int, p: nat, n: nat)
    requires 1 <= p < n <= |ms| && AllWide(ms, asg) && ms[p].0 == k
    requires forall i, j :: 0 <= i < j < |ms| ==> ms[i].0 < ms[j].0
    ensures Leftover(ms, asg, c, k, n) ==
      if exists q :: p <= q < n && Moved(ms[q], asg, c, k) == Moved(ms[p - 1], asg, c, k) then {}
      else {Moved(ms[p - 1], asg, c, k)}
  {
    if n > p + 1 { LeftoverSince(ms, asg, c, k, p, n - 1); }
  }

  /** The index is right after the update exactly when nothing stale is left. A caller can tell
      before the update: the matches are collected before any row changes. */
  lemma IndexRightExactly(rows: Rows, ms: MatchList, asg: seq<Assignment>, c: nat, k: int64)
    requires CanMove(rows, ms, asg, c, k)
    requires Assigns(asg, c) || forall i :: 0 <= i < |ms| ==> 0 <= IntAt(ms[i].1, c) <= SECONDARY_VALUE_MASK
    ensures EntriesAfter(rows, Expected(rows, c), ms, asg, c, |ms|) == Expected(RowsAfter(rows, ms, asg, |ms|), c)
      <==> !LeavesStale(ms, asg, c, k)
  {
    Leftovers(rows, ms, asg, c, k, |ms|);
    LeftoverExactly(rows, ms, asg, c, k);
  }

  lemma LeftoverExactly(rows: Rows, ms: MatchList, asg: seq<Assignment>, c: nat, k: int64)
    requires CanMove(rows, ms, asg, c, k)
    requires Assigns(asg, c) || forall i :: 0 <= i < |ms| ==> 0 <= IntAt(ms[i].1, c) <= SECONDARY_VALUE_MASK
    ensures Leftover(ms, asg, c, k, |ms|) == {} <==> !LeavesStale(ms, asg, c, k)
  {
    if p: nat :| 1 <= p < |ms| && ms[p].0 == k {
      LeftoverSince(ms, asg, c, k, p, |ms|);
      forall q | p <= q < |ms|
        ensures Moved(ms[q], asg, c, k) == Moved(ms[p - 1], asg, c, k) <==>
          Assigns(asg, c) || IntAt(ms[q].1, c) == IntAt(ms[p - 1].1, c)
      {
        SameEntry(ms[q], ms[p - 1], asg, c, k);
      }
      assert forall p': nat :: StaleFrom(ms, c, k, p') ==> p' == p;
      assert StaleFrom(ms, c, k, p) <==> forall q :: p <= q < |ms| ==> IntAt(ms[q].1, c) != IntAt(ms[p - 1].1, c);
    } else {
      NothingLeftYet(ms, asg, c, k, |ms|);
    }
  }

  lemma SameEntry(a: (int, Row), b: (int, Row), asg: seq<Assignment>, c: nat, k: int)
    requires Wide(a.1, asg) && Wide(b.1, asg) && c < |a.1| && c < |b.1| && 0 <= k <= SECONDARY_PK_MASK
    requires Assigns(asg, c) || (0 <= IntAt(a.1, c) <= SECONDARY_VALUE_MASK && 0 <= IntAt(b.1, c) <= SECONDARY_VALUE_MASK)
    ensures Moved(a, asg, c, k) == Moved(b, asg, c, k) <==> Assigns(asg, c) || IntAt(a.1, c) == IntAt(b.1, c)
  {
    AssignedColumn(a.1, asg, c);
    AssignedColumn(b.1, asg, c);
    if !Assigns(asg, c) {
      CompositeOrder(IntAt(a.1, c), k, IntAt(b.1, c), k);
      ModOfSmall(IntAt(a.1, c), VALUE_SPACE);
      ModOfSmall(IntAt(b.1, c), VALUE_SPACE);
    }
  }

  /** For instance: rows 1 and 2 with values 5 and 6, all set to primary key 2. */
  lemma StaleExample()
    ensures var ms: MatchList := [(1, [Int(1), Int(5)]), (2, [Int(2), Int(6)])];
      var asg := [Assignment(0, Int(2))];
      CanMove(map[1 := ms[0].1, 2 := ms[1].1], ms, asg, 1, 2) && LeavesStale(ms, asg, 1, 2)
  {
    var ms: MatchList := [(1, [Int(1), Int(5)]), (2, [Int(2), Int(6)])];
    var asg := [Assignment(0, Int(2))];
    assert asg[0].col == 0;
    assert StaleFrom(ms, 1, 2, 1);
  }
}
