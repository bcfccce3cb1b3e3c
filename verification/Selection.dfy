/** Turning a scan of packed keys into the rows a statement works on. */
module Selection {
  import opened Bytes
  import opened Slots
  import opened TableKey
  import opened RowFormat
  import opened TableView
  import opened TableCatalog
  import opened Database

  type Scan = seq<(int, seq<byte>)>
  type Found = seq<(int, Row)>

  /** The scanned rows a clause asks for, with their primary keys. */
  ghost function RowsIn(scan: Scan, columns: seq<ColumnDef>, w: Where): Found {
    if scan == [] then []
    else
      var (n, row) := (|scan| - 1, Stored(scan[|scan| - 1].1));
      RowsIn(scan[..n], columns, w) + (if Matches(columns, row, w) then [(UnpackPrimaryKey(scan[n].0), row)] else [])
  }

  /** found lists exactly these rows, in primary-key order. */
  ghost predicate IsListOf(found: Found, rows: Rows) {
    SortedEntries(found) && MapOf(found) == rows
  }

  /** What a prefix of a scan of table t has found. */
  ghost predicate FoundIn(found: Found, scan: Scan, columns: seq<ColumnDef>, w: Where) {
    && SortedEntries(found)
    && (forall e :: e in found ==> FoundAt(e, scan, columns, w))
    && (forall i :: 0 <= i < |scan| && Matches(columns, Stored(scan[i].1), w) ==> (UnpackPrimaryKey(scan[i].0), Stored(scan[i].1)) in found)
  }

  ghost predicate FoundAt(e: (int, Row), scan: Scan, columns: seq<ColumnDef>, w: Where) {
    Matches(columns, e.1, w) && exists i :: 0 <= i < |scan| && e == (UnpackPrimaryKey(scan[i].0), Stored(scan[i].1))
  }

  /** The packed keys of one table are in primary-key order. */
  lemma ScanOrder(scan: Scan, m: Store, t: int, lo: int, hi: int, i: nat, j: nat)
    requires Lists(scan, m, t, lo, hi) && i < j < |scan|
    ensures UnpackPrimaryKey(scan[i].0) < UnpackPrimaryKey(scan[j].0)
  {
    assert ListsAt(scan[i], m, t, lo, hi) && ListsAt(scan[j], m, t, lo, hi);
    PackOrder(t, UnpackPrimaryKey(scan[i].0), t, UnpackPrimaryKey(scan[j].0));
  }

  lemma {:induction false} RowsInFinds(scan: Scan, m: Store, t: int, lo: int, hi: int, columns: seq<ColumnDef>, w: Where, n: nat)
    requires Lists(scan, m, t, lo, hi) && n <= |scan|
    ensures FoundIn(RowsIn(scan[..n], columns, w), scan[..n], columns, w)
  {
    hide Lists, Matches, Stored;
    if n > 0 {
      RowsInFinds(scan, m, t, lo, hi, columns, w, n - 1);
      assert scan[..n][..n - 1] == scan[..n - 1];
      var before := scan[..n - 1];
      forall i | 0 <= i < |before| ensures UnpackPrimaryKey(before[i].0) < UnpackPrimaryKey(scan[n - 1].0) {
        ScanOrder(scan, m, t, lo, hi, i, n - 1);
      }
      assert scan[..n] == before + [scan[n - 1]];
      FoundGrows(RowsIn(before, columns, w), before, columns, w, scan[n - 1]);
    }
  }

  lemma FoundGrows(found: Found, scan: Scan, columns: seq<ColumnDef>, w: Where, next: (int, seq<byte>))
    requires FoundIn(found, scan, columns, w)
    requires forall i :: 0 <= i < |scan| ==> UnpackPrimaryKey(scan[i].0) < UnpackPrimaryKey(next.0)
    ensures var row := Stored(next.1);
      FoundIn(found + (if Matches(columns, row, w) then [(UnpackPrimaryKey(next.0), row)] else []), scan + [next], columns, w)
  {
    hide Matches, Stored;
    forall e | e in found ensures e.0 < UnpackPrimaryKey(next.0) && FoundAt(e, scan + [next], columns, w) {
      assert FoundAt(e, scan, columns, w);
      var i :| 0 <= i < |scan| && e == (UnpackPrimaryKey(scan[i].0), Stored(scan[i].1));
      assert (scan + [next])[i] == scan[i];
    }
    assert (scan + [next])[|scan|] == next;
  }

  /** Filtering a table's scan finds exactly the table's rows in the range that the clause asks
      for. */
  lemma ScanSelects(scan: Scan, m: Store, t: int, lo: int, hi: int, columns: seq<ColumnDef>, w: Where)
    requires Lists(scan, m, t, lo, hi)
    ensures IsListOf(RowsIn(scan, columns, w), Picked(RowsOf(m, t), lo, hi, columns, w))
  {
    var found, picked := RowsIn(scan, columns, w), Picked(RowsOf(m, t), lo, hi, columns, w);
    RowsInFinds(scan, m, t, lo, hi, columns, w, |scan|);
    assert scan[..|scan|] == scan;
    assert SortedEntries(found);
    hide Matches, Stored, RowsOf, RowsIn, FoundIn, Lists, MapOf, HasKey, SortedEntries;
    forall pk ensures (pk in MapOf(found) <==> pk in picked) && (pk in picked ==> MapOf(found)[pk] == picked[pk]) {
      MapKeys(found, pk);
      if pk in picked {
        PickedIsFound(found, scan, m, t, lo, hi, columns, w, pk);
      } else if HasKey(found, pk) {
        FoundIsPicked(found, scan, m, t, lo, hi, columns, w, pk);
        assert false;
      }
    }
    SameRows(MapOf(found), picked);
  }

  lemma SameRows(a: Rows, b: Rows)
    requires forall pk :: (pk in a <==> pk in b) && (pk in b ==> a[pk] == b[pk])
    ensures a == b
  {
    assert forall pk :: pk in a ==> pk in b && a[pk] == b[pk];
    assert forall pk :: pk in b ==> pk in a;
    assert a.Keys == b.Keys;
  }

  lemma FoundIsPicked(found: Found, scan: Scan, m: Store, t: int, lo: int, hi: int, columns: seq<ColumnDef>, w: Where, pk: int)
    requires Lists(scan, m, t, lo, hi) && FoundIn(found, scan, columns, w) && HasKey(found, pk)
    ensures pk in Picked(RowsOf(m, t), lo, hi, columns, w)
  {
    hide Matches, Stored, RowsOf;
    var k :| 0 <= k < |found| && found[k].0 == pk;
    assert FoundAt(found[k], scan, columns, w);
    var i :| 0 <= i < |scan| && found[k] == (UnpackPrimaryKey(scan[i].0), Stored(scan[i].1));
    assert ListsAt(scan[i], m, t, lo, hi);
  }

  lemma PickedIsFound(found: Found, scan: Scan, m: Store, t: int, lo: int, hi: int, columns: seq<ColumnDef>, w: Where, pk: int)
    requires Lists(scan, m, t, lo, hi) && FoundIn(found, scan, columns, w) && pk in Picked(RowsOf(m, t), lo, hi, columns, w)
    ensures (pk, RowsOf(m, t)[pk]) in found && HasKey(found, pk)
    ensures pk in MapOf(found) && MapOf(found)[pk] == RowsOf(m, t)[pk]
  {
    assert HasKey(scan, PackKey(t, pk));
    var i :| 0 <= i < |scan| && scan[i].0 == PackKey(t, pk);
    assert ListsAt(scan[i], m, t, lo, hi);
    Unpacks(t, pk);
    var e := (pk, RowsOf(m, t)[pk]);
    assert e in found;
    var k :| 0 <= k < |found| && found[k] == e;
    MapOfSorted(found);
  }

  // ---- What each access path comes to ----

  /** Bounds outside the keys a table can have are as good as clamped. */
  lemma ClampedPick(m: Store, t: int, lo: int, hi: int, columns: seq<ColumnDef>, w: Where)
    ensures var (l, h) := (if lo < 0 then 0 else lo, if hi > PRIMARY_KEY_MASK then PRIMARY_KEY_MASK else hi);
      Picked(RowsOf(m, t), lo, hi, columns, w) == if l <= h then Picked(RowsOf(m, t), l, h, columns, w) else map[]
  {
    hide Matches, Stored;
  }

  lemma FullScan(m: Store, t: int, columns: seq<ColumnDef>, w: Where)
    ensures Picked(RowsOf(m, t), 0, PRIMARY_KEY_MASK, columns, w) == Selected(RowsOf(m, t), columns, w)
  {
    hide Matches, Stored;
  }

  /** The clause is about the primary key. */
  predicate OnPrimaryKey(columns: seq<ColumnDef>, w: Where, op: CompareOp) {
    w.Where? && w.op == op && columns != [] && w.column == columns[0].name
  }

  lemma FirstColumn(columns: seq<ColumnDef>, name: Name)
    requires columns != [] && columns[0].name == name
    ensures FindColumn(columns, name) == 0
  {
  }

  /** A BETWEEN on the primary key is a range of primary keys. */
  lemma RangeIsBetween(m: Store, s: TableSchema, w: Where)
    requires TableFits(m, s) && WhereOk(s.columns, w) && OnPrimaryKey(s.columns, w, BETWEEN)
    ensures w.value.Int? && w.value2.Int?
    ensures Picked(RowsOf(m, s.id), w.value.v, w.value2.v, s.columns, All) == Selected(RowsOf(m, s.id), s.columns, w)
  {
    FirstColumn(s.columns, w.column);
    hide RowsOf, FindColumn;
    forall pk | pk in RowsOf(m, s.id)
      ensures Matches(s.columns, RowsOf(m, s.id)[pk], w) <==> w.value.v <= pk <= w.value2.v
    {
      assert RowFits(s.columns, pk, RowsOf(m, s.id)[pk]);
    }
  }

  /** An equality on the primary key is at most one row. */
  lemma PointIsEquality(m: Store, s: TableSchema, w: Where)
    requires TableFits(m, s) && WhereOk(s.columns, w) && OnPrimaryKey(s.columns, w, EQ)
    ensures w.value.Int?
    ensures var rows, pk := RowsOf(m, s.id), w.value.v;
      Selected(rows, s.columns, w) == if pk in rows then map[pk := rows[pk]] else map[]
  {
    FirstColumn(s.columns, w.column);
    hide RowsOf, FindColumn;
    forall pk | pk in RowsOf(m, s.id)
      ensures Matches(s.columns, RowsOf(m, s.id)[pk], w) <==> pk == w.value.v
    {
      assert RowFits(s.columns, pk, RowsOf(m, s.id)[pk]);
    }
  }

  lemma OneFound(pk: int, row: Row)
    ensures IsListOf([(pk, row)], map[pk := row])
  {
    MapOfOne(pk, row);
  }

  // ---- By a secondary index ----

  /** The rows an index scan leads to. */
  lemma RowsAtNone(rows: Rows)
    ensures RowsAt([], rows) == []
  {
  }

  lemma RowsAtNext(scan: Scan, i: nat, rows: Rows)
    requires i < |scan|
    ensures var pk := UnpackSecondaryPk(UnpackPrimaryKey(scan[i].0));
      RowsAt(scan[..i + 1], rows) == RowsAt(scan[..i], rows) + (if pk in rows then [(pk, rows[pk])] else [])
  {
    hide UnpackSecondaryPk, UnpackPrimaryKey;
    assert scan[..i + 1][..i] == scan[..i];
  }

  ghost function RowsAt(scan: Scan, rows: Rows): Found {
    if scan == [] then []
    else
      var (n, pk) := (|scan| - 1, UnpackSecondaryPk(UnpackPrimaryKey(scan[|scan| - 1].0)));
      RowsAt(scan[..n], rows) + (if pk in rows then [(pk, rows[pk])] else [])
  }

  /** An index entry with this value leads to a row with this value, and back. */
  ghost predicate EntryOf(e: (int, seq<byte>), rows: Rows, col: nat, value: int, pk: int) {
    pk in rows && IntAt(rows[pk], col) == value && UnpackPrimaryKey(e.0) == PackComposite(value, pk)
      && UnpackSecondaryPk(UnpackPrimaryKey(e.0)) == pk && 0 <= pk <= SECONDARY_PK_MASK
  }

  ghost predicate IndexScan(scan: Scan, m: Store, c: Contents, i: IndexInfo, value: int) {
    && IndexFits(m, c, i) && IndexRight(m, i) && i.col != 0 && 0 <= value <= SECONDARY_VALUE_MASK
    && Lists(scan, m, i.storage, PackComposite(value, 0), PackComposite(value, SECONDARY_PK_MASK))
  }

  lemma ScannedEntry(scan: Scan, m: Store, c: Contents, i: IndexInfo, value: int, k: nat)
    requires IndexScan(scan, m, c, i, value) && k < |scan|
    ensures exists pk :: EntryOf(scan[k], RowsOf(m, i.table), i.col, value, pk)
  {
    var rows := RowsOf(m, i.table);
    assert ListsAt(scan[k], m, i.storage, PackComposite(value, 0), PackComposite(value, SECONDARY_PK_MASK));
    var e := UnpackPrimaryKey(scan[k].0);
    assert e in Expected(rows, i.col);
    hide Lists, RowsOf, PackComposite, UnpackSecondaryPk, UnpackPrimaryKey;
    var pk :| pk in rows && e == PackComposite(IntAt(rows[pk], i.col), pk);
    assert Indexable(pk, rows[pk], i.col);
    CompositeRange(value, IntAt(rows[pk], i.col), pk);
    ModOfSmall(IntAt(rows[pk], i.col), VALUE_SPACE);
    Composite(IntAt(rows[pk], i.col), pk);
    assert EntryOf(scan[k], rows, i.col, value, pk);
  }

  lemma RowIsScanned(scan: Scan, m: Store, c: Contents, i: IndexInfo, value: int, pk: int)
    requires IndexScan(scan, m, c, i, value) && pk in RowsOf(m, i.table) && IntAt(RowsOf(m, i.table)[pk], i.col) == value
    ensures exists k :: 0 <= k < |scan| && EntryOf(scan[k], RowsOf(m, i.table), i.col, value, pk)
  {
    var rows := RowsOf(m, i.table);
    assert Indexable(pk, rows[pk], i.col);
    assert PackComposite(value, pk) in Expected(rows, i.col);
    CompositeRange(value, value, pk);
    ModOfSmall(value, VALUE_SPACE);
    Composite(value, pk);
    Unpacks(i.storage, PackComposite(value, pk));
    assert HasKey(scan, PackKey(i.storage, PackComposite(value, pk)));
    var k :| 0 <= k < |scan| && scan[k].0 == PackKey(i.storage, PackComposite(value, pk));
    assert EntryOf(scan[k], rows, i.col, value, pk);
  }

  /** What a prefix of an index scan has led to. */
  ghost predicate LedTo(found: Found, scan: Scan, rows: Rows, col: nat, value: int) {
    && SortedEntries(found)
    && (forall e :: e in found ==> LedToAt(e, scan, rows, col, value))
    && (forall k, pk :: 0 <= k < |scan| && EntryOf(scan[k], rows, col, value, pk) ==> (pk, rows[pk]) in found)
  }

  ghost predicate LedToAt(e: (int, Row), scan: Scan, rows: Rows, col: nat, value: int) {
    e.0 in rows && e.1 == rows[e.0] && exists k :: 0 <= k < |scan| && EntryOf(scan[k], rows, col, value, e.0)
  }

  lemma LeadsOn(found: Found, scan: Scan, rows: Rows, col: nat, value: int, next: (int, seq<byte>), pk: int)
    requires LedTo(found, scan, rows, col, value) && EntryOf(next, rows, col, value, pk)
    requires forall k :: 0 <= k < |scan| ==> UnpackPrimaryKey(scan[k].0) < UnpackPrimaryKey(next.0)
    ensures LedTo(found + [(pk, rows[pk])], scan + [next], rows, col, value)
  {
    var longer := scan + [next];
    assert longer[|scan|] == next;
    forall e | e in found ensures e.0 < pk && LedToAt(e, longer, rows, col, value) {
      assert LedToAt(e, scan, rows, col, value);
      var k :| 0 <= k < |scan| && EntryOf(scan[k], rows, col, value, e.0);
      assert longer[k] == scan[k];
      CompositeOrder(value, e.0, value, pk);
    }
    assert LedToAt((pk, rows[pk]), longer, rows, col, value);
  }

  lemma {:induction false} RowsAtFinds(scan: Scan, m: Store, c: Contents, i: IndexInfo, value: int, n: nat)
    requires IndexScan(scan, m, c, i, value) && n <= |scan|
    ensures LedTo(RowsAt(scan[..n], RowsOf(m, i.table)), scan[..n], RowsOf(m, i.table), i.col, value)
  {
    hide IndexFits, IndexRight, Lists, RowsOf;
    if n > 0 {
      RowsAtFinds(scan, m, c, i, value, n - 1);
      var before, rows := scan[..n - 1], RowsOf(m, i.table);
      assert scan[..n][..n - 1] == before && scan[..n] == before + [scan[n - 1]];
      ScannedEntry(scan, m, c, i, value, n - 1);
      var pk :| EntryOf(scan[n - 1], rows, i.col, value, pk);
      forall k | 0 <= k < |before| ensures UnpackPrimaryKey(before[k].0) < UnpackPrimaryKey(scan[n - 1].0) {
        ScanOrder(scan, m, i.storage, PackComposite(value, 0), PackComposite(value, SECONDARY_PK_MASK), k, n - 1);
      }
      LeadsOn(RowsAt(before, rows), before, rows, i.col, value, scan[n - 1], pk);
    }
  }

  /** Looking up a value in an index that is right finds exactly the rows with that value, in
      primary-key order. */
  lemma IndexSelects(scan: Scan, m: Store, c: Contents, i: IndexInfo, value: int)
    requires IndexScan(scan, m, c, i, value)
    ensures IsListOf(RowsAt(scan, RowsOf(m, i.table)), WithValue(RowsOf(m, i.table), i.col, value))
  {
    var rows := RowsOf(m, i.table);
    var found, wanted := RowsAt(scan, rows), WithValue(rows, i.col, value);
    RowsAtFinds(scan, m, c, i, value, |scan|);
    assert scan[..|scan|] == scan;
    assert SortedEntries(found);
    MapOfSorted(found);
    hide RowsOf, RowsAt, Lists, IndexFits, IndexRight, SortedEntries, MapOf, EntryOf;
    forall pk ensures (pk in MapOf(found) <==> pk in wanted) && (pk in wanted ==> MapOf(found)[pk] == wanted[pk]) {
      MapKeys(found, pk);
      if HasKey(found, pk) { LedToWanted(found, scan, rows, i.col, value, pk); }
      if pk in wanted {
        RowIsScanned(scan, m, c, i, value, pk);
        WantedIsLedTo(found, scan, rows, i.col, value, pk);
      }
    }
    SameRows(MapOf(found), wanted);
  }

  ghost function WithValue(rows: Rows, col: nat, value: int): Rows {
    map pk | pk in rows && IntAt(rows[pk], col) == value :: rows[pk]
  }

  lemma LedToWanted(found: Found, scan: Scan, rows: Rows, col: nat, value: int, pk: int)
    requires LedTo(found, scan, rows, col, value) && HasKey(found, pk)
    ensures pk in WithValue(rows, col, value)
  {
    var k :| 0 <= k < |found| && found[k].0 == pk;
    assert LedToAt(found[k], scan, rows, col, value);
  }

  lemma WantedIsLedTo(found: Found, scan: Scan, rows: Rows, col: nat, value: int, pk: int)
    requires LedTo(found, scan, rows, col, value) && pk in rows
    requires exists k :: 0 <= k < |scan| && EntryOf(scan[k], rows, col, value, pk)
    ensures HasKey(found, pk) && pk in MapOf(found) && MapOf(found)[pk] == rows[pk]
  {
    var e := (pk, rows[pk]);
    assert e in found;
    var k :| 0 <= k < |found| && found[k] == e;
    MapOfSorted(found);
  }

  /** An equality on an INT column is that value. */
  lemma EqualityIsValue(m: Store, s: TableSchema, w: Where, col: nat)
    requires TableFits(m, s) && w.Where? && w.op.EQ? && w.value.Int?
    requires FindColumn(s.columns, w.column) == col && s.columns[col].typ.INT64?
    ensures WithValue(RowsOf(m, s.id), col, w.value.v) == Selected(RowsOf(m, s.id), s.columns, w)
  {
    hide RowsOf, FindColumn;
    forall pk | pk in RowsOf(m, s.id)
      ensures Matches(s.columns, RowsOf(m, s.id)[pk], w) <==> IntAt(RowsOf(m, s.id)[pk], col) == w.value.v
    {
      assert RowFits(s.columns, pk, RowsOf(m, s.id)[pk]);
    }
  }
}
