/** The query executor (cpp/executor.h): statements over the rows of a store, its catalog and its
    secondary indexes. The store is the gapped array the durable store logs in front of. */
module Executor {
  import opened Bytes
  import opened Slots
  import opened GappedArray
  import opened TableKey
  import opened RowFormat
  import opened TableView
  import opened TableCatalog
  import opened Database
  import opened Selection
  import opened UpdateRows

  datatype Fault = NO_SUCH_TABLE | TABLE_EXISTS | COLUMN_COUNT | NO_SUCH_COLUMN | BAD_VALUE | BAD_WHERE | BAD_COLUMNS
    | NOT_AN_INT_COLUMN | ROW_DOES_NOT_FIT_INDEX | INDEX_EXISTS

  datatype Outcome = Failed(why: Fault) | Done(affected: nat)

  /** A row before or after a write, if there is one. */
  datatype Version = NoRow | Version(pk: int, row: Row)

  /** The entries of an index on column col after a write that replaces one version by another. */
  ghost function Synced(entries: set<int>, col: nat, before: Version, after: Version): set<int> {
    var cleared := if before.NoRow? then entries else entries - {PackComposite(IntAt(before.row, col), before.pk)};
    if after.NoRow? then cleared else cleared + {PackComposite(IntAt(after.row, col), after.pk)}
  }

  ghost predicate VersionFits(v: Version) {
    v.Version? ==> 0 <= v.pk <= SECONDARY_PK_MASK
  }

  /** Between m and m' one write was passed on to these indexes and to nothing else. */
  ghost predicate SyncedUpto(m: Store, m': Store, infos: seq<IndexInfo>, n: nat, before: Version, after: Version)
    requires n <= |infos|
  {
    && (forall i :: 0 <= i < n ==> EntriesOf(m', infos[i].storage) == Synced(EntriesOf(m, infos[i].storage), infos[i].col, before, after))
    && (forall t :: (forall i :: 0 <= i < n ==> infos[i].storage != t) ==> RowsOf(m', t) == RowsOf(m, t))
  }

  lemma SyncOne(m0: Store, m: Store, m': Store, infos: seq<IndexInfo>, n: nat, before: Version, after: Version)
    requires n < |infos| && SyncedUpto(m0, m, infos, n, before, after)
    requires forall i, j :: 0 <= i < j < |infos| ==> infos[i].storage != infos[j].storage
    requires OnlyPart(m, m', infos[n].storage)
    requires EntriesOf(m', infos[n].storage) == Synced(EntriesOf(m, infos[n].storage), infos[n].col, before, after)
    ensures SyncedUpto(m0, m', infos, n + 1, before, after)
  {
    hide RowsOf, Synced;
    assert RowsOf(m, infos[n].storage) == RowsOf(m0, infos[n].storage);
    forall t | forall i :: 0 <= i < n + 1 ==> infos[i].storage != t ensures RowsOf(m', t) == RowsOf(m0, t) {
      assert t != infos[n].storage;
    }
  }

  /** A write at table id passed on to its indexes reaches no table but id, and no other index. */
  lemma SyncReaches(m: Store, m1: Store, m2: Store, c: Contents, id: int, infos: seq<IndexInfo>, before: Version, after: Version)
    requires Coherent(c) && id in c.schemas && OnTable(infos, c.indexes, id)
    requires OnlyPart(m, m1, id) && SyncedUpto(m1, m2, infos, |infos|, before, after)
    ensures RowsOf(m2, id) == RowsOf(m1, id)
    ensures forall t :: t != id && (t in c.schemas || t >= c.nextId || t == CATALOG_TABLE_ID) ==> RowsOf(m2, t) == RowsOf(m, t)
    ensures forall n :: n in c.indexes ==> SyncReached(m, m2, c.indexes[n], id, before, after)
  {
    hide RowsOf, Synced;
    assert Used(c, id);
    forall i | 0 <= i < |infos| ensures infos[i].storage !in c.schemas && 1 <= infos[i].storage < c.nextId {
      assert InfoOk(infos[i], c.indexes, id);
      var n :| n in c.indexes && c.indexes[n] == infos[i];
      assert IndexOk(c, n) && Used(c, infos[i].storage);
    }
    forall n | n in c.indexes ensures SyncReached(m, m2, c.indexes[n], id, before, after) {
      ReachedOne(m, m1, m2, c, id, infos, before, after, n);
    }
  }

  ghost predicate SyncReached(m: Store, m2: Store, i: IndexInfo, id: int, before: Version, after: Version) {
    EntriesOf(m2, i.storage) == if i.table == id then Synced(EntriesOf(m, i.storage), i.col, before, after) else EntriesOf(m, i.storage)
  }

  lemma ReachedOne(m: Store, m1: Store, m2: Store, c: Contents, id: int, infos: seq<IndexInfo>, before: Version, after: Version, n: Name)
    requires Coherent(c) && id in c.schemas && OnTable(infos, c.indexes, id) && n in c.indexes
    requires OnlyPart(m, m1, id) && SyncedUpto(m1, m2, infos, |infos|, before, after)
    ensures SyncReached(m, m2, c.indexes[n], id, before, after)
  {
    hide RowsOf, Synced;
    var i := c.indexes[n];
    assert IndexOk(c, n);
    assert EntriesOf(m1, i.storage) == EntriesOf(m, i.storage);
    if i.table == id {
      var j :| 0 <= j < |infos| && infos[j] == i;
    } else {
      forall j | 0 <= j < |infos| ensures infos[j].storage != i.storage {
        assert InfoOk(infos[j], c.indexes, id);
        var k :| k in c.indexes && c.indexes[k] == infos[j];
      }
    }
  }

  /** How a write changed the rows of a table: what it put fits, what it left was there. */
  ghost predicate Fitting(m: Store, m2: Store, c: Contents, id: int)
    requires id in c.schemas
  {
    forall pk :: pk in RowsOf(m2, id) ==> FittingAt(m, m2, c, id, pk)
  }

  ghost predicate FittingAt(m: Store, m2: Store, c: Contents, id: int, pk: int)
    requires id in c.schemas && pk in RowsOf(m2, id)
  {
    var row := RowsOf(m2, id)[pk];
    (pk in RowsOf(m, id) && RowsOf(m, id)[pk] == row) || NewRowFits(c, id, pk, row)
  }

  /** A row that fits its table and every index on it. */
  ghost predicate NewRowFits(c: Contents, id: int, pk: int, row: Row)
    requires id in c.schemas
  {
    RowFits(c.schemas[id].columns, pk, row) && forall n :: n in c.indexes && c.indexes[n].table == id ==> Indexable(pk, row, c.indexes[n].col)
  }

  lemma RowsStayRight(m: Store, m2: Store, c: Contents, id: int)
    requires RowsRight(m, c) && id in c.schemas && Fitting(m, m2, c, id)
    requires forall t :: t != id && (t in c.schemas || t >= c.nextId) ==> RowsOf(m2, t) == RowsOf(m, t)
    ensures RowsRight(m2, c)
  {
    assert TableOk(c, id) && TableFits(m, c.schemas[id]);
    hide RowFits, RowsOf, Indexable;
    forall pk | pk in RowsOf(m2, id) ensures RowFits(c.schemas[id].columns, pk, RowsOf(m2, id)[pk]) {
      assert FittingAt(m, m2, c, id, pk);
    }
    forall n, pk | n in c.indexes && c.indexes[n].table == id && pk in RowsOf(m2, id)
      ensures Indexable(pk, RowsOf(m2, id)[pk], c.indexes[n].col)
    {
      assert FittingAt(m, m2, c, id, pk) && IndexFits(m, c, c.indexes[n]);
    }
    KeepsRows(m, m2, c, id);
  }

  /** An index that was right is right again after a put was passed on to it. */
  lemma PutKeepsIndex(m: Store, m2: Store, c: Contents, id: int, i: IndexInfo, before: Version, pk: int, row: Row)
    requires IndexFits(m, c, i) && IndexRight(m, i) && 0 <= pk
    requires before == if pk in RowsOf(m, id) then Version(pk, RowsOf(m, id)[pk]) else NoRow
    requires RowsOf(m2, id) == RowsOf(m, id)[pk := row] && (i.table == id ==> pk <= SECONDARY_PK_MASK)
    requires i.table != id ==> RowsOf(m2, i.table) == RowsOf(m, i.table)
    requires SyncReached(m, m2, i, id, before, Version(pk, row))
    ensures IndexRight(m2, i)
  {
    hide RowsOf, PackComposite, IntAt;
    if i.table == id { ExpectedPut(RowsOf(m, id), i.col, pk, row); }
  }

  lemma RemoveKeepsIndex(m: Store, m2: Store, c: Contents, id: int, i: IndexInfo, pk: int)
    requires IndexFits(m, c, i) && IndexRight(m, i) && pk in RowsOf(m, id)
    requires RowsOf(m2, id) == RowsOf(m, id) - {pk}
    requires i.table != id ==> RowsOf(m2, i.table) == RowsOf(m, i.table)
    requires SyncReached(m, m2, i, id, Version(pk, RowsOf(m, id)[pk]), NoRow)
    ensures IndexRight(m2, i)
  {
    hide RowsOf, PackComposite, IntAt;
    if i.table == id { ExpectedRemove(RowsOf(m, id), i.col, pk); }
  }

  /** No other table, nor the catalog's rows, changed. */
  ghost predicate OtherTables(m: Store, m2: Store, c: Contents, id: int) {
    forall t :: t != id && (t in c.schemas || t >= c.nextId || t == CATALOG_TABLE_ID) ==> RowsOf(m2, t) == RowsOf(m, t)
  }

  /** Putting a row and passing it on keeps everything right, whether or not a row was there. */
  lemma PutKeeps(m: Store, m1: Store, m2: Store, c: Contents, id: int, infos: seq<IndexInfo>, before: Version, pk: int, row: Row)
    requires RowsRight(m, c) && IndexesRight(m, c) && id in c.schemas && OnTable(infos, c.indexes, id)
    requires OnlyPart(m, m1, id) && RowsOf(m1, id) == RowsOf(m, id)[pk := row] && 0 <= pk
    requires before == if pk in RowsOf(m, id) then Version(pk, RowsOf(m, id)[pk]) else NoRow
    requires SyncedUpto(m1, m2, infos, |infos|, before, Version(pk, row)) && NewRowFits(c, id, pk, row)
    ensures RowsRight(m2, c) && IndexesRight(m2, c)
    ensures RowsOf(m2, id) == RowsOf(m, id)[pk := row] && OtherTables(m, m2, c, id)
  {
    SyncReaches(m, m1, m2, c, id, infos, before, Version(pk, row));
    hide RowsOf, RowFits, Synced;
    forall q | q in RowsOf(m2, id) ensures FittingAt(m, m2, c, id, q) { }
    RowsStayRight(m, m2, c, id);
    forall n | n in c.indexes ensures IndexRight(m2, c.indexes[n]) {
      var i := c.indexes[n];
      assert IndexFits(m, c, i) && IndexRight(m, i) && SyncReached(m, m2, i, id, before, Version(pk, row));
      PutKeepsIndex(m, m2, c, id, i, before, pk, row);
    }
  }

  /** Removing a row and passing that on keeps everything right. */
  lemma RemoveKeeps(m: Store, m1: Store, m2: Store, c: Contents, id: int, infos: seq<IndexInfo>, pk: int)
    requires RowsRight(m, c) && IndexesRight(m, c) && id in c.schemas && OnTable(infos, c.indexes, id)
    requires OnlyPart(m, m1, id) && pk in RowsOf(m, id) && RowsOf(m1, id) == RowsOf(m, id) - {pk}
    requires SyncedUpto(m1, m2, infos, |infos|, Version(pk, RowsOf(m, id)[pk]), NoRow)
    ensures RowsRight(m2, c) && IndexesRight(m2, c)
    ensures RowsOf(m2, id) == RowsOf(m, id) - {pk} && OtherTables(m, m2, c, id)
  {
    var before := Version(pk, RowsOf(m, id)[pk]);
    SyncReaches(m, m1, m2, c, id, infos, before, NoRow);
    hide RowsOf, RowFits, Synced, NewRowFits;
    forall q | q in RowsOf(m2, id) ensures FittingAt(m, m2, c, id, q) { }
    RowsStayRight(m, m2, c, id);
    forall n | n in c.indexes ensures IndexRight(m2, c.indexes[n]) {
      var i := c.indexes[n];
      assert IndexFits(m, c, i) && IndexRight(m, i) && SyncReached(m, m2, i, id, before, NoRow);
      RemoveKeepsIndex(m, m2, c, id, i, pk);
    }
  }

  class Executor {
    const store: GappedArray<seq<byte>>
    const catalog: Catalog

    /** The map the store is. */
    ghost function Data(): Store
      reads store
      requires store.Valid()
    {
      store.Model()
    }

    ghost predicate Linked()
      reads this, catalog, store
    {
      catalog.store == store && store.Valid() && Recorded(Data(), catalog.Now()) && RowsRight(Data(), catalog.Now())
    }

    /** Rows fit their tables, and every index is right. */
    ghost predicate Valid()
      reads this, catalog, store
    {
      Linked() && IndexesRight(Data(), catalog.Now())
    }

    constructor (store: GappedArray<seq<byte>>, catalog: Catalog)
      requires catalog.store == store && store.Valid() && Recorded(store.Model(), catalog.Now())
      requires RowsRight(store.Model(), catalog.Now()) && IndexesRight(store.Model(), catalog.Now())
      ensures this.store == store && this.catalog == catalog && Valid()
    {
      this.store, this.catalog := store, catalog;
    }

    // ---- The store by table and primary key ----

    method PutRaw(t: int, pk: int, data: seq<byte>)
      requires store.Valid() && IsTableId(t) && IsPk(pk)
      modifies store
      ensures store.Valid() && OnlyPart(old(Data()), Data(), t)
      ensures RowsOf(Data(), t) == RowsOf(old(Data()), t)[pk := Stored(data)]
    {
      PutChangesOne(Data(), t, pk, data);
      PackedSize(t, pk);
      hide *;
      store.Insert(PackKey(t, pk), data);
    }

    method PutRow(t: int, pk: int, row: Row)
      requires store.Valid() && IsTableId(t) && IsPk(pk) && Encodable(row)
      modifies store
      ensures store.Valid() && OnlyPart(old(Data()), Data(), t)
      ensures RowsOf(Data(), t) == RowsOf(old(Data()), t)[pk := row]
    {
      var data := EncodeRow(row);
      RowRoundTrip(row);
      assert Stored(data) == row;
      hide *;
      PutRaw(t, pk, data);
    }

    method RemoveRow(t: int, pk: int) returns (removed: bool)
      requires store.Valid() && IsTableId(t) && IsPk(pk)
      modifies store
      ensures store.Valid() && OnlyPart(old(Data()), Data(), t)
      ensures RowsOf(Data(), t) == RowsOf(old(Data()), t) - {pk}
      ensures removed == (pk in RowsOf(old(Data()), t))
    {
      assert PackKey(t, pk) in Data() <==> pk in RowsOf(Data(), t);
      RemoveChangesOne(Data(), t, pk);
      PackedSize(t, pk);
      hide *;
      removed := store.Remove(PackKey(t, pk));
    }

    method GetRow(t: int, pk: int) returns (found: bool, row: Row)
      requires store.Valid() && IsTableId(t) && IsPk(pk)
      ensures found <==> pk in RowsOf(Data(), t)
      ensures found ==> row == RowsOf(Data(), t)[pk]
    {
      PackedSize(t, pk);
      var raw;
      found, raw := store.Get(PackKey(t, pk));
      row := [];
      if found {
        var d := DecodeRow(raw);
        if d.Ok? { row := d.row; }
      }
    }

    // ---- Secondary indexes ----

    /** Passes one write on to every index of the table: the old version's entry goes, the new
        version's comes. */
    method SyncIndexes(table: int, before: Version, after: Version) returns (ghost infos: seq<IndexInfo>)
      requires store.Valid() && Coherent(catalog.Now())
      requires Indexed(catalog.Now(), table) ==> VersionFits(before) && VersionFits(after)
      modifies store
      ensures store.Valid() && OnTable(infos, catalog.indexes, table)
      ensures SyncedUpto(old(Data()), Data(), infos, |infos|, before, after)
    {
      var list := catalog.IndexesForTable(table);
      infos := list;
      StoragesAreIds(list, catalog.Now(), table);
      assert list != [] ==> VersionFits(before) && VersionFits(after) by {
        if list != [] { assert InfoOk(list[0], catalog.indexes, table); }
      }
      ghost var m := Data();
      hide Coherent, OnTable, Synced, RowsOf, OnlyPart, PackComposite;
      for i := 0 to |list|
        invariant store.Valid() && SyncedUpto(m, Data(), list, i, before, after)
      {
        ghost var was := Data();
        SyncIndex(list[i], before, after);
        SyncOne(m, was, Data(), list, i, before, after);
      }
    }

    method SyncIndex(info: IndexInfo, before: Version, after: Version)
      requires store.Valid() && IsTableId(info.storage) && VersionFits(before) && VersionFits(after)
      modifies store
      ensures store.Valid() && OnlyPart(old(Data()), Data(), info.storage)
      ensures EntriesOf(Data(), info.storage) == Synced(EntriesOf(old(Data()), info.storage), info.col, before, after)
    {
      if before.Version? {
        Composite(IntAt(before.row, info.col), before.pk);
        var _ := RemoveRow(info.storage, PackComposite(IntAt(before.row, info.col), before.pk));
      }
      if after.Version? {
        Composite(IntAt(after.row, info.col), after.pk);
        PutRaw(info.storage, PackComposite(IntAt(after.row, info.col), after.pk), []);
      }
    }

    // ---- Finding rows ----

    /** The scanned rows the clause asks for. */
    method FilterRows(scan: Scan, columns: seq<ColumnDef>, w: Where) returns (found: Found)
      requires forall i :: 0 <= i < |scan| ==> Stored(scan[i].1) != []
      ensures found == RowsIn(scan, columns, w)
    {
      hide Matches, Decoding;
      found := [];
      for i := 0 to |scan|
        invariant found == RowsIn(scan[..i], columns, w)
      {
        var j := i + 1;
        assert scan[..j][..i] == scan[..i];
        var d := DecodeRow(scan[i].1);
        if Matches(columns, d.row, w) { found := found + [(UnpackPrimaryKey(scan[i].0), d.row)]; }
      }
      assert scan[..|scan|] == scan;
    }

    /** The keys and values between two packed keys of a table. */
    method ScanPart(t: int, lo: int, hi: int) returns (scan: Scan)
      requires store.Valid() && IsTableId(t) && IsPk(lo) && IsPk(hi)
      ensures Lists(scan, Data(), t, lo, hi)
    {
      PackedSize(t, lo);
      scan := store.RangeScan(PackKey(t, lo), PackKey(t, hi));
      ScanLists(scan, Data(), t, lo, hi);
    }

    ghost predicate KnownTable(s: TableSchema)
      reads this, catalog
    {
      s.id in catalog.schemas && catalog.schemas[s.id] == s
    }

    /** The table's rows with primary keys in a range, clamped to the keys there can be, that the
        clause asks for. */
    method CollectMatches(s: TableSchema, loPk: int, hiPk: int, w: Where) returns (found: Found)
      requires Linked() && KnownTable(s)
      ensures IsListOf(found, Picked(RowsOf(Data(), s.id), loPk, hiPk, s.columns, w))
    {
      var lo := if loPk < 0 then 0 else loPk;
      var hi := if hiPk > PRIMARY_KEY_MASK then PRIMARY_KEY_MASK else hiPk;
      ghost var m := Data();
      ClampedPick(m, s.id, loPk, hiPk, s.columns, w);
      TableFacts(m, catalog.Now(), s);
      if lo > hi { return []; }
      hide Linked, RowsOf, Lists, TableFits, Picked;
      var scan := ScanPart(s.id, lo, hi);
      ScannedRowsDecode(scan, m, s, lo, hi);
      found := FilterRows(scan, s.columns, w);
      ScanSelects(scan, m, s.id, lo, hi, s.columns, w);
    }

    /** The rows UPDATE and DELETE work on, by point lookup, range scan or filtered scan. */
    method FindMatches(s: TableSchema, w: Where) returns (found: Found)
      requires Linked() && KnownTable(s) && WhereOk(s.columns, w)
      ensures IsListOf(found, Selected(RowsOf(Data(), s.id), s.columns, w))
    {
      ghost var m := Data();
      TableFacts(m, catalog.Now(), s);
      FullScan(m, s.id, s.columns, w);
      if OnPrimaryKey(s.columns, w, EQ) {
        PointIsEquality(m, s, w);
        found := PointLookup(s, w.value.v);
      } else if OnPrimaryKey(s.columns, w, BETWEEN) {
        RangeIsBetween(m, s, w);
        found := CollectMatches(s, w.value.v, w.value2.v, All);
      } else {
        found := CollectMatches(s, 0, PRIMARY_KEY_MASK, w);
      }
    }

    /** One row by primary key. A key no table can have is not looked up: packed, it would be some
        other key. */
    method PointLookup(s: TableSchema, pk: int) returns (found: Found)
      requires Linked() && KnownTable(s)
      ensures var rows := RowsOf(Data(), s.id);
        IsListOf(found, if pk in rows then map[pk := rows[pk]] else map[])
    {
      TableFacts(Data(), catalog.Now(), s);
      found := [];
      if 0 <= pk <= PRIMARY_KEY_MASK {
        var there, row := GetRow(s.id, pk);
        if there {
          OneFound(pk, row);
          found := [(pk, row)];
        }
      }
    }

    /** The rows an index scan leads to, looked up one by one. */
    method LookUpRows(scan: Scan, t: int) returns (found: Found)
      requires store.Valid() && IsTableId(t)
      ensures found == RowsAt(scan, RowsOf(Data(), t))
    {
      hide RowsOf, RowsAt, UnpackSecondaryPk, UnpackPrimaryKey, SortedSlots, Entries, MapOf, IsTableId;
      ghost var rows := RowsOf(Data(), t);
      found := [];
      RowsAtNone(rows);
      for i := 0 to |scan|
        invariant found == RowsAt(scan[..i], rows)
      {
        RowsAtNext(scan, i, rows);
        var pk := UnpackSecondaryPk(UnpackPrimaryKey(scan[i].0));
        SecondaryPkIsPk(UnpackPrimaryKey(scan[i].0));
        var there, row := GetRow(t, pk);
        if there { found := found + [(pk, row)]; }
      }
      assert scan[..|scan|] == scan;
    }

    /** All rows with a value in an indexed column. */
    method IndexLookup(i: IndexInfo, value: int) returns (found: Found)
      requires Valid() && InfoOk(i, catalog.indexes, i.table) && i.col != 0 && 0 <= value <= SECONDARY_VALUE_MASK
      ensures IsListOf(found, WithValue(RowsOf(Data(), i.table), i.col, value))
    {
      ghost var m := Data();
      IndexFacts(m, catalog.Now(), i);
      Composite(value, 0);
      Composite(value, SECONDARY_PK_MASK);
      hide Valid, Linked, IndexFits, IndexRight, RowsOf, Lists;
      var scan := ScanPart(i.storage, PackComposite(value, 0), PackComposite(value, SECONDARY_PK_MASK));
      found := LookUpRows(scan, i.table);
      IndexSelects(scan, m, catalog.Now(), i, value);
    }

    /** SELECT, up to ordering and aggregation: whichever path is taken, the rows are those of the
        filtered full scan, in primary-key order. */
    method Select(name: Name, w: Where) returns (r: Outcome, rows: seq<Row>, ghost found: Found)
      requires Valid()
      ensures r.Done? <==> name in catalog.ids && WhereOk(catalog.schemas[catalog.ids[name]].columns, w)
      ensures r.Done? ==> var s := catalog.schemas[catalog.ids[name]];
        IsListOf(found, Selected(RowsOf(Data(), s.id), s.columns, w)) && rows == RowsOnly(found)
    {
      ghost var m := Data();
      rows, found := [], [];
      var known, s := catalog.GetTable(name);
      if !known { return Failed(NO_SUCH_TABLE), [], []; }
      if !WhereOk(s.columns, w) { return Failed(BAD_WHERE), [], []; }
      KnownByName(catalog.Now(), name);
      hide WhereOk, Selected, RowsOf, IsListOf;
      var list := SelectRows(s, w);
      found := list;
      rows := RowsOnly(list);
      return Done(0), rows, found;
    }

    method SelectRows(s: TableSchema, w: Where) returns (found: Found)
      requires Valid() && KnownTable(s) && WhereOk(s.columns, w)
      ensures IsListOf(found, Selected(RowsOf(Data(), s.id), s.columns, w))
    {
      hide RowsOf, Selected, IsListOf, WhereOk;
      var col := if w.Where? then FindColumn(s.columns, w.column) else -1;
      if w.Where? && w.op.EQ? && !OnPrimaryKey(s.columns, w, EQ) && w.value.Int? && 0 <= w.value.v <= SECONDARY_VALUE_MASK {
        var indexed, info := catalog.FindIndexForColumn(s.id, col);
        if indexed {
          NotFirst(s.columns, w);
          found := SelectByIndex(s, w, info, col);
          return;
        }
      }
      found := FindMatches(s, w);
    }

    method SelectByIndex(s: TableSchema, w: Where, info: IndexInfo, col: nat) returns (found: Found)
      requires Valid() && KnownTable(s) && WhereOk(s.columns, w)
      requires w.Where? && w.op.EQ? && w.value.Int? && 0 <= w.value.v <= SECONDARY_VALUE_MASK
      requires col == FindColumn(s.columns, w.column) && col > 0
      requires InfoOk(info, catalog.indexes, s.id) && info.col == col
      ensures IsListOf(found, Selected(RowsOf(Data(), s.id), s.columns, w))
    {
      TableFacts(Data(), catalog.Now(), s);
      EqualityIsValue(Data(), s, w, col);
      hide RowsOf, Selected, WithValue, IsListOf, Valid, WhereOk, FindColumn, TableFits;
      found := IndexLookup(info, w.value.v);
    }

    // ---- Changing rows ----

    /** Why a value cannot be stored in a column: its type, or bits it does not fit into. */
    method CheckValue(s: TableSchema, col: nat, v: Value) returns (ok: bool)
      requires Coherent(catalog.Now()) && col < |s.columns|
      ensures ok <==> ValueOk(catalog.Now(), s, col, v)
    {
      if TypeOf(v) != s.columns[col].typ { return false; }
      if col == 0 {
        var infos := catalog.IndexesForTable(s.id);
        assert infos == [] <==> !Indexed(catalog.Now(), s.id) by {
          if infos != [] { assert InfoOk(infos[0], catalog.indexes, s.id); }
        }
        var max := if infos == [] then PRIMARY_KEY_MASK else SECONDARY_PK_MASK;
        return v.Text? || 0 <= v.v <= max;
      }
      if v.Int? {
        var indexed, _ := catalog.FindIndexForColumn(s.id, col);
        return !indexed || 0 <= v.v <= SECONDARY_VALUE_MASK;
      }
      return true;
    }

    /** Puts a row over whatever its primary key held, and every index follows. */
    method WriteRow(s: TableSchema, pk: int, row: Row)
      requires Valid() && KnownTable(s) && IsPk(pk) && NewRowFits(catalog.Now(), s.id, pk, row)
      modifies store
      ensures Valid()
      ensures RowsOf(Data(), s.id) == RowsOf(old(Data()), s.id)[pk := row]
      ensures OtherTables(old(Data()), Data(), catalog.Now(), s.id)
    {
      ghost var (m, c) := (Data(), catalog.Now());
      TableFacts(m, c, s);
      var overwriting, existing := GetRow(s.id, pk);
      var before := if overwriting then Version(pk, existing) else NoRow;
      VersionsFit(m, c, s.id, pk, row, before);
      ReadyToChange(c, s);
      hide *;
      ghost var m1, infos := PutAndSync(s.id, pk, before, row);
      PutKeeps(m, m1, Data(), c, s.id, infos, before, pk, row);
      StaysRecorded(m, Data(), c, s.id);
      BackToValid(c);
    }

    /** What a valid executor gives the lemmas about one write. */
    lemma ReadyToChange(c: Contents, s: TableSchema)
      requires Valid() && c == catalog.Now() && KnownTable(s)
      ensures catalog.store == store && store.Valid() && Coherent(c) && c.indexes == catalog.indexes
      ensures s.id in c.schemas && c.schemas[s.id] == s
      ensures RowsRight(Data(), c) && IndexesRight(Data(), c) && Recorded(Data(), c)
    {
    }

    lemma BackToValid(c: Contents)
      requires catalog.store == store && store.Valid() && c == catalog.Now()
      requires Recorded(Data(), c) && RowsRight(Data(), c) && IndexesRight(Data(), c)
      ensures Valid()
    {
    }

    method PutAndSync(id: int, pk: int, before: Version, row: Row) returns (ghost m1: Store, ghost infos: seq<IndexInfo>)
      requires store.Valid() && Coherent(catalog.Now()) && IsTableId(id) && IsPk(pk) && Encodable(row)
      requires Indexed(catalog.Now(), id) ==> VersionFits(before) && VersionFits(Version(pk, row))
      modifies store
      ensures store.Valid() && OnTable(infos, catalog.indexes, id)
      ensures OnlyPart(old(Data()), m1, id) && RowsOf(m1, id) == RowsOf(old(Data()), id)[pk := row]
      ensures SyncedUpto(m1, Data(), infos, |infos|, before, Version(pk, row))
    {
      hide *;
      PutRow(id, pk, row);
      m1 := Data();
      infos := SyncIndexes(id, before, Version(pk, row));
    }

    /** Takes a row out, and every index follows. */
    method EraseRow(s: TableSchema, pk: int, row: Row) returns (removed: bool)
      requires Valid() && KnownTable(s) && IsPk(pk)
      requires pk in RowsOf(Data(), s.id) && RowsOf(Data(), s.id)[pk] == row
      modifies store
      ensures Valid() && removed
      ensures RowsOf(Data(), s.id) == RowsOf(old(Data()), s.id) - {pk}
      ensures OtherTables(old(Data()), Data(), catalog.Now(), s.id)
    {
      ghost var (m, c) := (Data(), catalog.Now());
      TableFacts(m, c, s);
      OldVersionFits(m, c, s.id, pk, row);
      ReadyToChange(c, s);
      hide *;
      ghost var m1, infos;
      removed, m1, infos := RemoveAndSync(s.id, pk, row);
      RemoveKeeps(m, m1, Data(), c, s.id, infos, pk);
      StaysRecorded(m, Data(), c, s.id);
      BackToValid(c);
    }

    /** Entries go only if the row was there to remove. */
    method RemoveAndSync(id: int, pk: int, row: Row) returns (removed: bool, ghost m1: Store, ghost infos: seq<IndexInfo>)
      requires store.Valid() && Coherent(catalog.Now()) && IsTableId(id) && IsPk(pk)
      requires Indexed(catalog.Now(), id) ==> VersionFits(Version(pk, row)) && VersionFits(NoRow)
      modifies store
      ensures store.Valid() && removed == (pk in RowsOf(old(Data()), id))
      ensures OnlyPart(old(Data()), m1, id) && RowsOf(m1, id) == RowsOf(old(Data()), id) - {pk}
      ensures removed ==> OnTable(infos, catalog.indexes, id)
      ensures removed ==> SyncedUpto(m1, Data(), infos, |infos|, Version(pk, row), NoRow)
    {
      hide *;
      removed := RemoveRow(id, pk);
      m1, infos := Data(), [];
      if removed { infos := SyncIndexes(id, Version(pk, row), NoRow); }
    }

    method CheckRow(s: TableSchema, values: Row) returns (ok: bool)
      requires Coherent(catalog.Now()) && |values| == |s.columns|
      ensures ok <==> forall i :: 0 <= i < |values| ==> ValueOk(catalog.Now(), s, i, values[i])
    {
      for i := 0 to |values|
        invariant forall j :: 0 <= j < i ==> ValueOk(catalog.Now(), s, j, values[j])
      {
        ok := CheckValue(s, i, values[i]);
        if !ok { return; }
      }
      return true;
    }

    /** INSERT: all values are checked before anything changes; an existing primary key is
        overwritten. */
    method Insert(name: Name, values: Row) returns (r: Outcome)
      requires Valid() && Encodable(values)
      modifies store
      ensures Valid()
      ensures r.Failed? ==> Data() == old(Data())
      ensures r.Done? <==> CanInsert(catalog.Now(), name, values)
      ensures r.Done? ==> var id := catalog.ids[name];
        RowsOf(Data(), id) == RowsOf(old(Data()), id)[values[0].v := values]
        && OtherTables(old(Data()), Data(), catalog.Now(), id)
    {
      var known, s := catalog.GetTable(name);
      if !known { return Failed(NO_SUCH_TABLE); }
      KnownByName(catalog.Now(), name);
      if |values| != |s.columns| { return Failed(COLUMN_COUNT); }
      var ok := CheckRow(s, values);
      if !ok { return Failed(BAD_VALUE); }
      InsertedFits(Data(), catalog.Now(), s, values);
      WriteRow(s, values[0].v, values);
      return Done(0);
    }

    /** DELETE: exactly the rows the clause asks for go. */
    method Delete(name: Name, w: Where) returns (r: Outcome)
      requires Valid()
      modifies store
      ensures Valid()
      ensures r.Failed? ==> Data() == old(Data())
      ensures r.Done? <==> name in catalog.ids && WhereOk(catalog.schemas[catalog.ids[name]].columns, w)
      ensures r.Done? ==> var s := catalog.schemas[catalog.ids[name]];
        var gone := Selected(RowsOf(old(Data()), s.id), s.columns, w);
        RowsOf(Data(), s.id) == RowsOf(old(Data()), s.id) - gone.Keys && r.affected == |gone|
        && OtherTables(old(Data()), Data(), catalog.Now(), s.id)
    {
      var known, s := catalog.GetTable(name);
      if !known { return Failed(NO_SUCH_TABLE); }
      if !WhereOk(s.columns, w) { return Failed(BAD_WHERE); }
      KnownByName(catalog.Now(), name);
      var found := FindMatches(s, w);
      var affected := EraseAll(s, found, w);
      return Done(affected);
    }

    method EraseAll(s: TableSchema, found: Found, ghost w: Where) returns (affected: nat)
      requires Valid() && KnownTable(s) && IsListOf(found, Selected(RowsOf(Data(), s.id), s.columns, w))
      modifies store
      ensures Valid()
      ensures var gone := Selected(RowsOf(old(Data()), s.id), s.columns, w);
        RowsOf(Data(), s.id) == RowsOf(old(Data()), s.id) - gone.Keys && affected == |gone|
      ensures OtherTables(old(Data()), Data(), catalog.Now(), s.id)
    {
      ListedRows(found, RowsOf(Data(), s.id), s.columns, w);
      hide RowsOf, Selected, Valid, KeysOf, Lasting, IsListOf, OtherTables;
      affected := EraseEach(s, found);
    }

    method EraseEach(s: TableSchema, found: Found) returns (affected: nat)
      requires store.Valid() && Valid() && KnownTable(s) && Lasting(found, RowsOf(Data(), s.id))
      modifies store
      ensures store.Valid() && Valid() && affected == |found|
      ensures RowsOf(Data(), s.id) == RowsOf(old(Data()), s.id) - KeysOf(found)
      ensures OtherTables(old(Data()), Data(), catalog.Now(), s.id)
    {
      hide *;
      ghost var m := Data();
      NothingErased(s, found);
      affected := 0;
      for i := 0 to |found|
        invariant affected == i && store.Valid() && Valid() && ErasedUpto(m, s, found, i)
      {
        EraseNext(m, s, found, i);
        affected := affected + 1;
      }
      AllErased(m, s, found);
    }

    lemma NothingErased(s: TableSchema, found: Found)
      requires Valid() && KnownTable(s)
      ensures ErasedUpto(Data(), s, found, 0)
    {
      assert RowsOf(Data(), s.id) - KeysOf(found[..0]) == RowsOf(Data(), s.id);
    }

    lemma AllErased(m: Store, s: TableSchema, found: Found)
      requires store.Valid() && ErasedUpto(m, s, found, |found|)
      ensures RowsOf(Data(), s.id) == RowsOf(m, s.id) - KeysOf(found) && OtherTables(m, Data(), catalog.Now(), s.id)
    {
      assert found[..|found|] == found;
    }

    /** The first n of the rows found are gone. */
    ghost predicate ErasedUpto(m: Store, s: TableSchema, found: Found, n: nat)
      requires n <= |found| && store.Valid()
      reads this, store, catalog
    {
      && KnownTable(s) && OtherTables(m, Data(), catalog.Now(), s.id)
      && RowsOf(Data(), s.id) == RowsOf(m, s.id) - KeysOf(found[..n])
    }

    method EraseNext(ghost m: Store, s: TableSchema, found: Found, i: nat)
      requires i < |found| && Valid() && ErasedUpto(m, s, found, i) && Lasting(found, RowsOf(m, s.id))
      modifies store
      ensures store.Valid() && Valid() && ErasedUpto(m, s, found, i + 1)
    {
      NextListed(found, RowsOf(m, s.id), i);
      RowKeys(m, s.id);
      ghost var now := Data();
      hide RowsOf, OtherTables, Valid, Lasting, KeysOf;
      var _ := EraseRow(s, found[i].0, found[i].1);
      OthersStill(m, now, Data(), catalog.Now(), s.id);
    }

    // ---- UPDATE ----

    /** The assignments by column, or why one of them cannot be made. */
    method ResolveAssignments(s: TableSchema, sets: seq<(Name, Value)>) returns (why: Outcome, asg: seq<Assignment>)
      requires Coherent(catalog.Now())
      ensures why.Done? <==> CanAssign(catalog.Now(), s, sets)
      ensures why.Done? ==> asg == Resolved(s.columns, sets)
    {
      asg := [];
      for i := 0 to |sets|
        invariant CanAssign(catalog.Now(), s, sets[..i]) && asg == Resolved(s.columns, sets[..i])
      {
        var j := i + 1;
        assert sets[..j][..i] == sets[..i];
        var col := FindColumn(s.columns, sets[i].0);
        if col < 0 {
          assert !Assignable(catalog.Now(), s, sets[i]);
          return Failed(NO_SUCH_COLUMN), [];
        }
        var ok := CheckValue(s, col, sets[i].1);
        if !ok {
          assert !Assignable(catalog.Now(), s, sets[i]);
          return Failed(BAD_VALUE), [];
        }
        asg := asg + [Assignment(col, sets[i].1)];
        assert forall k :: 0 <= k < i ==> sets[..j][k] == sets[..i][k];
      }
      assert sets[..|sets|] == sets;
      return Done(0), asg;
    }

    /** Moves or rewrites one match: the row it displaces and its own old version leave the
        indexes, its new version enters. */
    method UpdateOne(s: TableSchema, m: (int, Row), asg: seq<Assignment>)
      requires Linked() && KnownTable(s) && Wide(m.1, asg) && IsPk(m.0) && IsPk(Target(m, asg))
      requires Encodable(Assigned(m.1, asg))
      requires Indexed(catalog.Now(), s.id) ==> 0 <= m.0 <= SECONDARY_PK_MASK && 0 <= Target(m, asg) <= SECONDARY_PK_MASK
      modifies store
      ensures store.Valid() && Stepped(old(Data()), Data(), catalog.Now(), s.id, m, asg)
    {
      ghost var (m0, c) := (Data(), catalog.Now());
      TableFacts(m0, c, s);
      LinkedFacts(c, s);
      hide *;
      var row := Assigned(m.1, asg);
      var newPk := TargetOf(m, asg);
      ClearDisplaced(s.id, m.0, newPk);
      ghost var m1 := Data();
      MoveRow(s.id, m, newPk, asg, row);
      StepDone(m0, m1, Data(), c, s.id, m, asg);
    }

    lemma LinkedFacts(c: Contents, s: TableSchema)
      requires Linked() && KnownTable(s) && c == catalog.Now()
      ensures store.Valid() && Coherent(c) && s.id in c.schemas && c.indexes == catalog.indexes
    {
    }

    /** Where a match goes, by the assignments. */
    method TargetOf(m: (int, Row), asg: seq<Assignment>) returns (pk: int)
      requires Wide(m.1, asg)
      ensures pk == Target(m, asg)
    {
      pk := Target(m, asg);
    }

    /** A row already at the new key is about to be overwritten: its entries go. */
    method ClearDisplaced(id: int, oldPk: int, newPk: int)
      requires store.Valid() && Coherent(catalog.Now()) && id in catalog.schemas && IsTableId(id) && IsPk(newPk)
      requires Indexed(catalog.Now(), id) ==> 0 <= newPk <= SECONDARY_PK_MASK
      modifies store
      ensures store.Valid() && Displaced(old(Data()), Data(), catalog.Now(), id, oldPk, newPk)
    {
      ghost var m := Data();
      NothingDisplaced(m, catalog.Now(), id, oldPk, newPk);
      if newPk != oldPk {
        var there, displaced := GetRow(id, newPk);
        if there {
          ghost var c := catalog.Now();
          hide RowsOf, Coherent, Displaced, SyncedUpto, OnTable;
          ghost var infos := SyncIndexes(id, Version(newPk, displaced), NoRow);
          DisplacedCleared(m, Data(), c, id, oldPk, newPk, infos);
        }
      }
    }

    method MoveRow(id: int, m: (int, Row), newPk: int, asg: seq<Assignment>, row: Row)
      requires store.Valid() && Coherent(catalog.Now()) && id in catalog.schemas && IsTableId(id)
      requires IsPk(m.0) && IsPk(newPk) && Encodable(row)
      requires Indexed(catalog.Now(), id) ==> 0 <= m.0 <= SECONDARY_PK_MASK && 0 <= newPk <= SECONDARY_PK_MASK
      modifies store
      ensures store.Valid() && RowMoved(old(Data()), Data(), catalog.Now(), id, m, newPk, Assigns(asg, 0), row)
    {
      ghost var m1 := Data();
      if Assigns(asg, 0) { var _ := RemoveRow(id, m.0); }
      PutRow(id, newPk, row);
      ghost var m2 := Data();
      hide RowsOf, Coherent, RowMoved, SyncedUpto, OnTable;
      ghost var infos := SyncIndexes(id, Version(m.0, m.1), Version(newPk, row));
      MoveDone(m1, m2, Data(), catalog.Now(), id, m, newPk, Assigns(asg, 0), row, infos);
    }

    /** UPDATE: matches are collected first, then taken in key order. Every index on another table
        stays right; one on this table is right afterwards exactly when the update leaves no stale
        entry in it, which is always so unless it moves several rows to one primary key. */
    method Update(name: Name, sets: seq<(Name, Value)>, w: Where) returns (r: Outcome, ghost ms: MatchList, ghost asg: seq<Assignment>)
      requires Valid() && forall i :: 0 <= i < |sets| ==> FitsRow(sets[i].1)
      modifies store
      ensures Linked()
      ensures r.Failed? ==> Data() == old(Data())
      ensures r.Done? <==> CanUpdate(catalog.Now(), name, sets, w)
      ensures r.Done? ==> Updated(old(Data()), Data(), catalog.Now(), catalog.schemas[catalog.ids[name]], sets, w, ms, asg)
      ensures r.Done? ==> r.affected == |ms|
    {
      ms, asg := [], [];
      var known, s := catalog.GetTable(name);
      if !known { return Failed(NO_SUCH_TABLE), [], []; }
      KnownByName(catalog.Now(), name);
      var why, list := ResolveAssignments(s, sets);
      if why.Failed? { return why, [], []; }
      if !WhereOk(s.columns, w) { return Failed(BAD_WHERE), [], []; }
      var found := FindMatches(s, w);
      ResolvedOk(catalog.Now(), s, sets);
      UpdateAll(s, found, list, sets, w);
      return Done(|found|), found, list;
    }

    method UpdateAll(s: TableSchema, found: Found, asg: seq<Assignment>, ghost sets: seq<(Name, Value)>, ghost w: Where)
      requires Valid() && KnownTable(s) && IsListOf(found, Selected(RowsOf(Data(), s.id), s.columns, w))
      requires AsgOk(catalog.Now(), s, asg) && asg == Resolved(s.columns, sets)
      modifies store
      ensures Linked() && Updated(old(Data()), Data(), catalog.Now(), s, sets, w, found, asg)
    {
      ghost var (m, c) := (Data(), catalog.Now());
      UpdateStarts(m, c, s, found, asg, w);
      UpdateEach(s, found, asg);
      hide RowsOf, IsListOf, Selected, AsgOk;
      UpdateEnds(m, Data(), c, s, found, asg, w);
    }

    method UpdateEach(s: TableSchema, found: Found, asg: seq<Assignment>)
      requires Linked() && KnownTable(s) && CanStart(Data(), catalog.Now(), s, found, asg)
      modifies store
      ensures Linked() && UpdatedUpto(old(Data()), Data(), catalog.Now(), s, found, asg, |found|)
    {
      ghost var m := Data();
      NothingUpdated(m, catalog.Now(), s, found, asg);
      hide CanStart, UpdatedUpto, RowsOf;
      for i := 0 to |found|
        invariant store.Valid() && Linked() && KnownTable(s) && UpdatedUpto(m, Data(), catalog.Now(), s, found, asg, i)
      {
        UpdateNext(m, s, found, asg, i);
      }
    }

    method UpdateNext(ghost m: Store, s: TableSchema, found: Found, asg: seq<Assignment>, i: nat)
      requires i < |found| && Linked() && KnownTable(s) && CanStart(m, catalog.Now(), s, found, asg)
      requires UpdatedUpto(m, Data(), catalog.Now(), s, found, asg, i)
      modifies store
      ensures store.Valid() && Linked() && UpdatedUpto(m, Data(), catalog.Now(), s, found, asg, i + 1)
    {
      ghost var (m1, c) := (Data(), catalog.Now());
      MatchReady(m, c, s, found, asg, i);
      hide RowsOf, RowsRight, Recorded, CanStart, UpdatedUpto, NewRowFits, Stepped, Encodable;
      UpdateOne(s, found[i], asg);
      StepKeepsUpdate(m, m1, Data(), c, s, found, asg, i);
      StaysRecorded(m1, Data(), c, s.id);
    }

    // ---- CREATE ----

    /** CREATE TABLE: column 0 becomes the primary key and has to be of type INT. */
    method CreateTable(name: Name, columns: seq<ColumnDef>) returns (r: Outcome)
      requires Valid() && catalog.nextId < MAX_TABLES && SmallTable(name, columns)
      modifies catalog, store
      ensures Valid()
      ensures r.Done? <==> GoodColumns(columns) && DistinctNames(columns) && name !in old(catalog.ids)
      ensures r.Failed? ==> catalog.Now() == old(catalog.Now()) && Data() == old(Data())
      ensures r.Done? ==> catalog.Now() == WithTable(old(catalog.Now()), name, columns)
      ensures r.Done? ==> RowsOf(Data(), old(catalog.nextId)) == map[]
      ensures forall id :: id in old(catalog.schemas) ==> RowsOf(Data(), id) == RowsOf(old(Data()), id)
    {
      if columns == [] || columns[0].typ != INT64 { return Failed(BAD_COLUMNS); }
      var distinct := NamesDiffer(columns);
      if !distinct { return Failed(BAD_COLUMNS); }
      ghost var (m, c) := (Data(), catalog.Now());
      LinkedParts(c);
      hide Recorded, RowsRight, IndexesRight, OnlyPart, RowsOf, WithTable;
      var id := catalog.CreateTable(name, columns);
      if id == -1 { return Failed(TABLE_EXISTS); }
      TableAdded(m, Data(), c, name, columns);
      return Done(0);
    }

    lemma LinkedParts(c: Contents)
      requires Valid() && c == catalog.Now()
      ensures RowsRight(Data(), c) && IndexesRight(Data(), c) && Recorded(Data(), c) && c.ids == catalog.ids
      ensures c.indexes == catalog.indexes && c.nextId == catalog.nextId >= 1 && c.schemas == catalog.schemas
    {
    }

    /** CREATE INDEX: every row has to fit before anything is created; then every row is entered. */
    method CreateIndex(indexName: Name, tableName: Name, columnName: Name) returns (r: Outcome)
      requires Valid() && catalog.nextId < MAX_TABLES && |indexName| < TWO_32
      modifies catalog, store
      ensures Valid()
      ensures r.Done? <==> CanIndex(old(Data()), old(catalog.Now()), indexName, tableName, columnName)
      ensures r.Failed? ==> catalog.Now() == old(catalog.Now()) && Data() == old(Data())
      ensures r.Done? ==> var s := old(catalog.schemas[catalog.ids[tableName]]);
        catalog.Now() == WithIndex(old(catalog.Now()), indexName, s.id, FindColumn(s.columns, columnName))
      ensures forall id :: id in old(catalog.schemas) ==> RowsOf(Data(), id) == RowsOf(old(Data()), id)
    {
      var known, s := catalog.GetTable(tableName);
      if !known { return Failed(NO_SUCH_TABLE); }
      KnownByName(catalog.Now(), tableName);
      var col := FindColumn(s.columns, columnName);
      if col < 0 { return Failed(NO_SUCH_COLUMN); }
      if s.columns[col].typ != INT64 { return Failed(NOT_AN_INT_COLUMN); }
      hide RowsOf, WithIndex, RowsRight, IndexesRight, Recorded, AllEnterable;
      r := IndexColumn(indexName, s, col);
    }

    method IndexColumn(indexName: Name, s: TableSchema, col: nat) returns (r: Outcome)
      requires Valid() && catalog.nextId < MAX_TABLES && |indexName| < TWO_32
      requires KnownTable(s) && col < |s.columns| && s.columns[col].typ.INT64?
      modifies catalog, store
      ensures Valid()
      ensures r.Done? <==> (indexName !in old(catalog.indexes) && AllEnterable(RowsOf(old(Data()), s.id), col))
      ensures r.Failed? ==> catalog.Now() == old(catalog.Now()) && Data() == old(Data())
      ensures r.Done? ==> catalog.Now() == WithIndex(old(catalog.Now()), indexName, s.id, col)
      ensures forall id :: id in old(catalog.schemas) ==> RowsOf(Data(), id) == RowsOf(old(Data()), id)
    {
      var fit, found := RowsToIndex(s, col);
      if !fit { return Failed(ROW_DOES_NOT_FIT_INDEX); }
      hide RowsOf, Listing, RowsFitIndex, WithIndex, RowsRight, IndexesRight, Recorded, AllEnterable;
      var built := BuildIndex(indexName, s, col, found);
      return if built then Done(0) else Failed(INDEX_EXISTS);
    }

    /** Every row of the table, and whether all of them fit the index's packing. */
    method RowsToIndex(s: TableSchema, col: nat) returns (fit: bool, found: Found)
      requires Linked() && KnownTable(s)
      ensures Listing(found, RowsOf(Data(), s.id)) && (fit <==> RowsFitIndex(found, col))
      ensures fit <==> AllEnterable(RowsOf(Data(), s.id), col)
    {
      FullScan(Data(), s.id, s.columns, All);
      found := CollectMatches(s, 0, PRIMARY_KEY_MASK, All);
      RowKeys(Data(), s.id);
      AllListed(found, RowsOf(Data(), s.id), s.columns, col);
      hide RowsOf, IsListOf, Selected, Picked, Listing, RowsFitIndex, Enterable;
      fit := AllFit(found, col);
    }

    /** Registers the index if its name is free, then enters the rows in composite order. */
    method BuildIndex(indexName: Name, s: TableSchema, col: nat, found: Found) returns (built: bool)
      requires Valid() && catalog.nextId < MAX_TABLES && |indexName| < TWO_32
      requires KnownTable(s) && col < |s.columns| && s.columns[col].typ.INT64?
      requires Listing(found, RowsOf(Data(), s.id)) && RowsFitIndex(found, col)
      modifies catalog, store
      ensures Valid() && IndexBuilt(old(Data()), Data(), old(catalog.Now()), catalog.Now(), indexName, s.id, col, built)
    {
      ghost var (m, c) := (Data(), catalog.Now());
      PlanIndex(c, s, col, found);
      NotBuilt(m, c, indexName, s.id, col);
      hide *;
      var storage := catalog.CreateIndex(indexName, s.id, col);
      if storage == -1 {
        BackToValid(c);
        return false;
      }
      FinishIndex(m, c, storage, indexName, s, col, found);
      return true;
    }

    /** The second half of CREATE INDEX, once the catalog has the new index. */
    method FinishIndex(ghost m: Store, ghost c: Contents, storage: int, ghost indexName: Name, s: TableSchema, col: nat, found: Found)
      requires catalog.store == store && store.Valid() && Recorded(Data(), catalog.Now())
      requires storage == c.nextId && catalog.Now() == WithIndex(c, indexName, s.id, col) && OnlyPart(m, Data(), CATALOG_TABLE_ID)
      requires Planned(m, c, s, col, found) && indexName !in c.indexes && |indexName| < TWO_32
      requires RowsRight(m, c) && IndexesRight(m, c) && Coherent(c) && s.id in c.schemas
      requires IsTableId(s.id) && col < TWO_32 && IsTableId(storage) && c.nextId < MAX_TABLES && storage != CATALOG_TABLE_ID
      requires RowsFitIndex(found, col)
      modifies store
      ensures Valid() && IndexBuilt(m, Data(), c, catalog.Now(), indexName, s.id, col, true)
    {
      hide *;
      ghost var m1 := Data();
      FillIndex(storage, col, found);
      IndexFilled(m, m1, Data(), c, indexName, s, col, found);
      StillRecorded(m1, Data(), catalog.Now(), storage);
      BackToValid(catalog.Now());
      Built(m, Data(), c, catalog.Now(), indexName, s.id, col);
    }

    lemma PlanIndex(c: Contents, s: TableSchema, col: nat, found: Found)
      requires Valid() && c == catalog.Now() && catalog.nextId < MAX_TABLES
      requires KnownTable(s) && col < |s.columns| && s.columns[col].typ.INT64?
      requires Listing(found, RowsOf(Data(), s.id)) && RowsFitIndex(found, col)
      ensures store.Valid() && catalog.store == store && Recorded(Data(), c) && Planned(Data(), c, s, col, found)
      ensures catalog.Valid() && col < TWO_32 && IsTableId(s.id) && IsTableId(c.nextId) && c.nextId == catalog.nextId
      ensures c.indexes == catalog.indexes && c.schemas == catalog.schemas && RowsRight(Data(), c) && IndexesRight(Data(), c)
      ensures Coherent(c) && s.id in c.schemas && 1 <= c.nextId < MAX_TABLES
    {
      LinkedParts(c);
      TableFacts(Data(), c, s);
      FreshId(Data(), c);
      SmallColumns(c, s, col);
    }

    method FillIndex(storage: int, col: nat, found: Found)
      requires store.Valid() && IsTableId(storage) && RowsFitIndex(found, col)
      modifies store
      ensures store.Valid() && OnlyPart(old(Data()), Data(), storage)
      ensures EntriesOf(Data(), storage) == EntriesOf(old(Data()), storage) + EntriesFor(found, col)
    {
      var composites := CompositesOf(found, col);
      var ordered := SortedInts(composites);
      hide RowsOf, OnlyPart, PackComposite;
      EnterAll(storage, ordered);
    }

    /** Puts an empty row under each packed entry. */
    method EnterAll(storage: int, composites: seq<int>)
      requires store.Valid() && IsTableId(storage) && forall i :: 0 <= i < |composites| ==> IsPk(composites[i])
      modifies store
      ensures store.Valid() && OnlyPart(old(Data()), Data(), storage)
      ensures EntriesOf(Data(), storage) == EntriesOf(old(Data()), storage) + ElementsOf(composites)
    {
      ghost var m := Data();
      assert OnlyPart(m, m, storage) && ElementsOf(composites[..0]) == {};
      hide RowsOf, OnlyPart, Stored, ElementsOf;
      for i := 0 to |composites|
        invariant store.Valid() && OnlyPart(m, Data(), storage)
        invariant EntriesOf(Data(), storage) == EntriesOf(m, storage) + ElementsOf(composites[..i])
      {
        ghost var was := Data();
        PutRaw(storage, composites[i], []);
        PartTwice(m, was, Data(), storage);
        MoreElements(composites, i);
      }
      assert composites[..|composites|] == composites;
    }
  }

  // ---- Creating ----

  ghost predicate DistinctNames(columns: seq<ColumnDef>) {
    forall i, j :: 0 <= j < i < |columns| ==> columns[i].name != columns[j].name
  }

  method NamesDiffer(columns: seq<ColumnDef>) returns (ok: bool)
    ensures ok <==> DistinctNames(columns)
  {
    for i := 0 to |columns|
      invariant forall a, b :: 0 <= b < a < i ==> columns[a].name != columns[b].name
    {
      for j := 0 to i
        invariant forall b :: 0 <= b < j ==> columns[i].name != columns[b].name
      {
        if columns[i].name == columns[j].name { return false; }
      }
    }
    return true;
  }

  lemma TableAdded(m: Store, m2: Store, c: Contents, name: Name, columns: seq<ColumnDef>)
    requires RowsRight(m, c) && IndexesRight(m, c) && name !in c.ids && OnlyPart(m, m2, CATALOG_TABLE_ID)
    requires GoodColumns(columns) && SmallTable(name, columns) && c.nextId < MAX_TABLES
    ensures RowsRight(m2, WithTable(c, name, columns)) && IndexesRight(m2, WithTable(c, name, columns))
    ensures RowsOf(m2, c.nextId) == map[]
    ensures forall id :: id in c.schemas ==> RowsOf(m2, id) == RowsOf(m, id)
  {
    var c2 := WithTable(c, name, columns);
    TableCoherent(c, name, columns);
    OnlyCatalogRows(m, m2, c);
    OldIds(c, name, columns);
    StillRight(m, m2, c, c2);
    EmptyId(m, m2, c);
    EmptyTableFits(m2, c2.schemas[c.nextId]);
    hide *;
    AllRightToo(m2, c, c2);
  }

  lemma OldIds(c: Contents, name: Name, columns: seq<ColumnDef>)
    requires Coherent(c)
    ensures forall id :: id in c.schemas ==> id in WithTable(c, name, columns).schemas && WithTable(c, name, columns).schemas[id] == c.schemas[id]
  {
    forall id | id in c.schemas ensures id != c.nextId { assert Used(c, id); }
  }

  lemma EmptyTableFits(m2: Store, s: TableSchema)
    requires EntriesOf(m2, s.id) == {} && GoodColumns(s.columns)
    ensures TableFits(m2, s) && RowsOf(m2, s.id) == map[]
  {
  }

  lemma AllRightToo(m2: Store, c: Contents, c2: Contents)
    requires Coherent(c2) && c2.indexes == c.indexes && c2.nextId == c.nextId + 1 && c.nextId in c2.schemas
    requires forall id :: id in c2.schemas && id != c.nextId ==> id in c.schemas && c2.schemas[id] == c.schemas[id]
    requires forall id :: id in c.schemas ==> TableFits(m2, c.schemas[id])
    requires TableFits(m2, c2.schemas[c.nextId])
    requires forall n :: n in c.indexes ==> IndexFits(m2, c2, c.indexes[n]) && IndexRight(m2, c.indexes[n])
    requires forall id :: id > c.nextId ==> RowsOf(m2, id) == map[]
    ensures RowsRight(m2, c2) && IndexesRight(m2, c2)
  {
    hide RowsOf, TableFits, IndexFits, IndexRight, Coherent;
  }

  /** A change to the catalog's own rows leaves tables, indexes and unused ids as they were. */
  lemma OnlyCatalogRows(m: Store, m2: Store, c: Contents)
    requires Coherent(c) && OnlyPart(m, m2, CATALOG_TABLE_ID)
    ensures forall id :: id in c.schemas || id >= c.nextId ==> RowsOf(m2, id) == RowsOf(m, id)
    ensures forall n :: n in c.indexes ==> EntriesOf(m2, c.indexes[n].storage) == EntriesOf(m, c.indexes[n].storage)
  {
    hide RowsOf;
    forall id | id in c.schemas ensures id != CATALOG_TABLE_ID { assert Used(c, id); }
    forall n | n in c.indexes ensures c.indexes[n].storage != CATALOG_TABLE_ID { assert Used(c, c.indexes[n].storage); }
  }

  /** The tables and indexes there were stay right when the catalog grows. */
  lemma StillRight(m: Store, m2: Store, c: Contents, c2: Contents)
    requires RowsRight(m, c) && IndexesRight(m, c)
    requires forall id :: id in c.schemas ==> RowsOf(m2, id) == RowsOf(m, id)
    requires forall n :: n in c.indexes ==> EntriesOf(m2, c.indexes[n].storage) == EntriesOf(m, c.indexes[n].storage)
    requires forall id :: id in c.schemas ==> id in c2.schemas && c2.schemas[id] == c.schemas[id]
    ensures forall id :: id in c.schemas ==> TableFits(m2, c.schemas[id])
    ensures forall n :: n in c.indexes ==> IndexFits(m2, c2, c.indexes[n]) && IndexRight(m2, c.indexes[n])
  {
    hide RowsOf, RowFits, Indexable;
    forall id | id in c.schemas ensures TableFits(m2, c.schemas[id]) { assert TableFits(m, c.schemas[id]) && TableOk(c, id); }
    forall n | n in c.indexes ensures IndexFits(m2, c2, c.indexes[n]) && IndexRight(m2, c.indexes[n]) {
      assert IndexFits(m, c, c.indexes[n]) && IndexRight(m, c.indexes[n]);
    }
  }

  /** The rows to be indexed can all be packed: 28 bits of key, 20 of value. */
  ghost predicate RowsFitIndex(found: Found, col: nat) {
    forall i :: 0 <= i < |found| ==> 0 <= found[i].0 <= SECONDARY_PK_MASK && 0 <= IntAt(found[i].1, col) <= SECONDARY_VALUE_MASK
  }

  method AllFit(found: Found, col: nat) returns (ok: bool)
    requires forall i :: 0 <= i < |found| ==> IsPk(found[i].0)
    ensures ok <==> RowsFitIndex(found, col)
  {
    for i := 0 to |found|
      invariant forall j :: 0 <= j < i ==>
        0 <= found[j].0 <= SECONDARY_PK_MASK && 0 <= IntAt(found[j].1, col) <= SECONDARY_VALUE_MASK
    {
      if found[i].0 > SECONDARY_PK_MASK { return false; }
      var v := IntAt(found[i].1, col);
      if v < 0 || v > SECONDARY_VALUE_MASK { return false; }
    }
    return true;
  }

  /** A row that an index being created can take. */
  ghost predicate Enterable(pk: int, row: Row, col: nat) {
    0 <= pk <= SECONDARY_PK_MASK && 0 <= IntAt(row, col) <= SECONDARY_VALUE_MASK
  }

  ghost predicate AllEnterable(rows: Rows, col: nat) {
    forall pk :: pk in rows ==> Enterable(pk, rows[pk], col)
  }

  ghost predicate CanIndex(m: Store, c: Contents, indexName: Name, tableName: Name, columnName: Name)
    requires Coherent(c)
  {
    tableName in c.ids && indexName !in c.indexes &&
    (var s := c.schemas[c.ids[tableName]];
     var col := FindColumn(s.columns, columnName);
     col >= 0 && s.columns[col].typ.INT64? && AllEnterable(RowsOf(m, s.id), col))
  }

  /** found lists these rows. */
  ghost predicate Listing(found: Found, rows: Rows) {
    Lasting(found, rows) && KeysOf(found) == rows.Keys
  }

  lemma AllListed(found: Found, rows: Rows, columns: seq<ColumnDef>, col: nat)
    requires IsListOf(found, Selected(rows, columns, All)) && forall pk :: pk in rows ==> IsPk(pk)
    ensures Listing(found, rows) && forall i :: 0 <= i < |found| ==> IsPk(found[i].0)
    ensures RowsFitIndex(found, col) <==> forall pk :: pk in rows ==> Enterable(pk, rows[pk], col)
  {
    ListedRows(found, rows, columns, All);
    assert forall pk :: pk in rows ==> Matches(columns, rows[pk], All);
    hide IntAt;
    assert Selected(rows, columns, All).Keys == rows.Keys;
    forall pk | pk in rows && RowsFitIndex(found, col) ensures Enterable(pk, rows[pk], col) {
      assert pk in KeysOf(found);
      var i :| 0 <= i < |found| && found[i].0 == pk;
    }
    if forall pk :: pk in rows ==> Enterable(pk, rows[pk], col) {
      forall i | 0 <= i < |found|
        ensures 0 <= found[i].0 <= SECONDARY_PK_MASK && 0 <= IntAt(found[i].1, col) <= SECONDARY_VALUE_MASK
      {
        assert Enterable(found[i].0, rows[found[i].0], col);
      }
    }
  }

  lemma SmallColumns(c: Contents, s: TableSchema, col: nat)
    requires Coherent(c) && s.id in c.schemas && c.schemas[s.id] == s && col < |s.columns|
    ensures col < TWO_32
  {
    assert TableOk(c, s.id);
  }

  /** The packed entries of the rows found. */
  method CompositesOf(found: Found, col: nat) returns (composites: seq<int>)
    requires RowsFitIndex(found, col)
    ensures ElementsOf(composites) == EntriesFor(found, col) && forall x :: x in composites ==> IsPk(x)
  {
    hide PackComposite, IntAt;
    composites := [];
    for i := 0 to |found|
      invariant |composites| == i
      invariant forall j :: 0 <= j < i ==> composites[j] == PackComposite(IntAt(found[j].1, col), found[j].0) && IsPk(composites[j])
    {
      Composite(IntAt(found[i].1, col), found[i].0);
      composites := composites + [PackComposite(IntAt(found[i].1, col), found[i].0)];
    }
    forall x | x in EntriesFor(found, col) ensures x in composites {
      var i :| 0 <= i < |found| && x == PackComposite(IntAt(found[i].1, col), found[i].0);
      assert composites[i] == x;
    }
  }

  lemma PartTwice(m: Store, m1: Store, m2: Store, t: int)
    requires OnlyPart(m, m1, t) && OnlyPart(m1, m2, t)
    ensures OnlyPart(m, m2, t)
  {
  }

  ghost function ElementsOf(a: seq<int>): set<int> {
    set x | x in a
  }

  lemma MoreElements(a: seq<int>, i: nat)
    requires i < |a|
    ensures ElementsOf(a[..i + 1]) == ElementsOf(a[..i]) + {a[i]}
  {
    var j := i + 1;
    assert a[..j] == a[..i] + [a[i]];
  }

  /** Where x goes among numbers in order: after all that are not larger. */
  method PlaceFor(r: seq<int>, x: int) returns (p: nat)
    ensures p <= |r| && (p > 0 ==> r[p - 1] <= x) && forall q :: p <= q < |r| ==> r[q] > x
  {
    p := |r|;
    while p > 0 && r[p - 1] > x
      invariant p <= |r| && forall q :: p <= q < |r| ==> r[q] > x
    {
      p := p - 1;
    }
  }

  /** The same numbers in increasing order. */
  method SortedInts(a: seq<int>) returns (r: seq<int>)
    ensures multiset(r) == multiset(a) && ElementsOf(r) == ElementsOf(a) && Increasing(r)
    ensures forall x :: x in r ==> x in a
  {
    hide ElementsOf, Increasing;
    r := [];
    NothingIncreases();
    for i := 0 to |a|
      invariant |r| == i
      invariant multiset(r) == multiset(a[..i]) && Increasing(r)
    {
      var p := PlaceFor(r, a[i]);
      InsertedInOrder(r, p, a[i]);
      MorePrefix(a, i);
      r := r[..p] + [a[i]] + r[p..];
    }
    assert a[..|a|] == a;
    SameElements(r, a);
  }

  lemma NothingIncreases()
    ensures Increasing([])
  {
  }

  lemma MorePrefix(a: seq<int>, i: nat)
    requires i < |a|
    ensures multiset(a[..i + 1]) == multiset(a[..i]) + multiset{a[i]}
  {
    assert a[..i + 1] == a[..i] + [a[i]];
  }

  ghost predicate Increasing(r: seq<int>) {
    forall p, q :: 0 <= p < q < |r| ==> r[p] <= r[q]
  }

  lemma InsertedInOrder(r: seq<int>, p: nat, x: int)
    requires Increasing(r) && p <= |r| && (p > 0 ==> r[p - 1] <= x) && forall q :: p <= q < |r| ==> r[q] > x
    ensures Increasing(r[..p] + [x] + r[p..]) && multiset(r[..p] + [x] + r[p..]) == multiset(r) + multiset{x}
  {
    InsertedMultiset(r, p, x);
    forall q | 0 <= q < p ensures r[q] <= x { if q < p - 1 { assert r[q] <= r[p - 1]; } }
    var out := r[..p] + [x] + r[p..];
    forall a, b | 0 <= a < b < |out| ensures out[a] <= out[b] {
      var (a', b') := (if a < p then a else a - 1, if b < p then b else b - 1);
      if a == p { assert out[b] == r[b']; } else if b == p { assert out[a] == r[a']; } else { assert out[a] == r[a'] && out[b] == r[b']; }
    }
  }

  lemma InsertedMultiset(r: seq<int>, p: nat, x: int)
    requires p <= |r|
    ensures multiset(r[..p] + [x] + r[p..]) == multiset(r) + multiset{x}
  {
    assert r == r[..p] + r[p..];
  }

  lemma SameElements(a: seq<int>, b: seq<int>)
    requires multiset(a) == multiset(b)
    ensures ElementsOf(a) == ElementsOf(b) && forall x :: x in a <==> x in b
  {
    forall x ensures x in a <==> x in b {
      assert x in a <==> x in multiset(a);
      assert x in b <==> x in multiset(b);
    }
  }

  /** An index on column col of table s can be built from the rows found. */
  ghost predicate Planned(m: Store, c: Contents, s: TableSchema, col: nat, found: Found) {
    && RowsRight(m, c) && IndexesRight(m, c) && s.id in c.schemas && c.schemas[s.id] == s
    && col < |s.columns| && s.columns[col].typ.INT64? && c.nextId < MAX_TABLES && IsTableId(s.id) && col < TWO_32
    && Listing(found, RowsOf(m, s.id)) && RowsFitIndex(found, col)
  }

  /** Once filled, the new index is right, and everything else is as it was. */
  lemma IndexFilled(m: Store, m1: Store, m2: Store, c: Contents, indexName: Name, s: TableSchema, col: nat, found: Found)
    requires Planned(m, c, s, col, found) && indexName !in c.indexes && |indexName| < TWO_32
    requires RowsRight(m, c) && IndexesRight(m, c) && Coherent(c) && c.nextId < MAX_TABLES && s.id in c.schemas
    requires IsTableId(s.id) && col < TWO_32
    requires OnlyPart(m, m1, CATALOG_TABLE_ID) && OnlyPart(m1, m2, c.nextId)
    requires EntriesOf(m2, c.nextId) == EntriesOf(m1, c.nextId) + EntriesFor(found, col)
    ensures RowsRight(m2, WithIndex(c, indexName, s.id, col)) && IndexesRight(m2, WithIndex(c, indexName, s.id, col))
    ensures forall id :: id in c.schemas ==> RowsOf(m2, id) == RowsOf(m, id)
  {
    hide *;
    var c2 := WithIndex(c, indexName, s.id, col);
    IndexCoherent(c, indexName, s.id, col);
    WithIndexFields(c, indexName, s.id, col);
    AroundNewIndex(m, m1, m2, c);
    StillRight(m, m2, c, c2);
    NewIndexRight(m, m2, c, indexName, s, col, found);
    AllRight(m2, c, c2, indexName);
  }

  lemma WithIndexFields(c: Contents, name: Name, table: int, col: nat)
    ensures var c2 := WithIndex(c, name, table, col);
      && c2.schemas == c.schemas && c2.nextId == c.nextId + 1 && name in c2.indexes
      && forall n :: n in c2.indexes && n != name ==> n in c.indexes && c2.indexes[n] == c.indexes[n]
  {
  }

  /** The catalog has the new index if its name was free, and no table's rows changed. */
  ghost predicate IndexBuilt(m: Store, m2: Store, c: Contents, c2: Contents, name: Name, table: int, col: nat, built: bool) {
    && (built <==> name !in c.indexes)
    && (if built then c2 == WithIndex(c, name, table, col) else c2 == c && m2 == m)
    && forall id :: id in c.schemas ==> RowsOf(m2, id) == RowsOf(m, id)
  }

  lemma NotBuilt(m: Store, c: Contents, name: Name, table: int, col: nat)
    ensures name in c.indexes ==> IndexBuilt(m, m, c, c, name, table, col, false)
  {
  }

  lemma Built(m: Store, m2: Store, c: Contents, c2: Contents, name: Name, table: int, col: nat)
    requires name !in c.indexes && c2 == WithIndex(c, name, table, col)
    requires forall id :: id in c.schemas ==> RowsOf(m2, id) == RowsOf(m, id)
    ensures IndexBuilt(m, m2, c, c2, name, table, col, true)
  {
  }

  /** What creating and filling an index leaves as it was, and what it starts from. */
  lemma AroundNewIndex(m: Store, m1: Store, m2: Store, c: Contents)
    requires RowsRight(m, c) && OnlyPart(m, m1, CATALOG_TABLE_ID) && OnlyPart(m1, m2, c.nextId)
    ensures forall id :: id in c.schemas ==> RowsOf(m2, id) == RowsOf(m, id)
    ensures forall n :: n in c.indexes ==> EntriesOf(m2, c.indexes[n].storage) == EntriesOf(m, c.indexes[n].storage)
    ensures EntriesOf(m1, c.nextId) == {} && forall id :: id > c.nextId ==> RowsOf(m2, id) == map[]
  {
    OnlyCatalogRows(m, m1, c);
    OnlyNewRows(m1, m2, c);
    EmptyId(m, m1, c);
  }

  lemma EmptyId(m: Store, m1: Store, c: Contents)
    requires RowsRight(m, c) && OnlyPart(m, m1, CATALOG_TABLE_ID)
    ensures EntriesOf(m1, c.nextId) == {} && forall id :: id > c.nextId ==> RowsOf(m1, id) == map[]
  {
    hide RowsOf, TableFits, IndexFits;
  }

  lemma NewIndexRight(m: Store, m2: Store, c: Contents, indexName: Name, s: TableSchema, col: nat, found: Found)
    requires Planned(m, c, s, col, found) && RowsOf(m2, s.id) == RowsOf(m, s.id)
    requires EntriesOf(m2, c.nextId) == EntriesFor(found, col)
    ensures var c2 := WithIndex(c, indexName, s.id, col);
      IndexFits(m2, c2, c2.indexes[indexName]) && IndexRight(m2, c2.indexes[indexName])
  {
    var c2 := WithIndex(c, indexName, s.id, col);
    hide RowsOf, RowsRight, IndexesRight, EntriesFor, Listing, RowsFitIndex, Expected;
    EntriesAreExpected(found, RowsOf(m, s.id), col);
    NewIndexFits(m2, c2, c2.indexes[indexName], found);
  }

  lemma AllRight(m2: Store, c: Contents, c2: Contents, indexName: Name)
    requires Coherent(c2) && c2.schemas == c.schemas && c2.nextId == c.nextId + 1 && indexName in c2.indexes
    requires forall n :: n in c2.indexes && n != indexName ==> n in c.indexes && c2.indexes[n] == c.indexes[n]
    requires forall id :: id in c.schemas ==> TableFits(m2, c.schemas[id])
    requires forall n :: n in c.indexes ==> IndexFits(m2, c2, c.indexes[n]) && IndexRight(m2, c.indexes[n])
    requires IndexFits(m2, c2, c2.indexes[indexName]) && IndexRight(m2, c2.indexes[indexName])
    requires forall id :: id > c.nextId ==> RowsOf(m2, id) == map[]
    ensures RowsRight(m2, c2) && IndexesRight(m2, c2)
  {
    hide RowsOf, TableFits, IndexFits, IndexRight, Coherent;
  }

  lemma OnlyNewRows(m1: Store, m2: Store, c: Contents)
    requires Coherent(c) && OnlyPart(m1, m2, c.nextId)
    ensures forall id :: id in c.schemas || id > c.nextId ==> RowsOf(m2, id) == RowsOf(m1, id)
    ensures forall n :: n in c.indexes ==> EntriesOf(m2, c.indexes[n].storage) == EntriesOf(m1, c.indexes[n].storage)
  {
    hide RowsOf;
    forall id | id in c.schemas ensures id != c.nextId { assert Used(c, id); }
    forall n | n in c.indexes ensures c.indexes[n].storage != c.nextId { assert Used(c, c.indexes[n].storage); }
  }

  lemma NewIndexFits(m2: Store, c2: Contents, i: IndexInfo, found: Found)
    requires i.table in c2.schemas && i.col < |c2.schemas[i.table].columns| && c2.schemas[i.table].columns[i.col].typ.INT64?
    requires Listing(found, RowsOf(m2, i.table)) && RowsFitIndex(found, i.col)
    ensures IndexFits(m2, c2, i)
  {
    hide RowsOf, IntAt;
    var rows := RowsOf(m2, i.table);
    forall pk | pk in rows ensures Indexable(pk, rows[pk], i.col) {
      assert pk in KeysOf(found);
      var k :| 0 <= k < |found| && found[k].0 == pk;
    }
  }

  lemma EntriesAreExpected(found: Found, rows: Rows, col: nat)
    requires Listing(found, rows)
    ensures EntriesFor(found, col) == Expected(rows, col)
  {
    hide IntAt, PackComposite;
    forall e | e in Expected(rows, col) ensures e in EntriesFor(found, col) {
      var pk :| pk in rows && e == PackComposite(IntAt(rows[pk], col), pk);
      assert pk in KeysOf(found);
      var i :| 0 <= i < |found| && found[i].0 == pk;
    }
    forall e | e in EntriesFor(found, col) ensures e in Expected(rows, col) {
      var i :| 0 <= i < |found| && e == PackComposite(IntAt(found[i].1, col), found[i].0);
      assert found[i].0 in rows;
    }
  }

  lemma StillRecorded(m1: Store, m2: Store, c: Contents, storage: int)
    requires Recorded(m1, c) && OnlyPart(m1, m2, storage) && storage != CATALOG_TABLE_ID
    ensures Recorded(m2, c)
  {
  }

  ghost function EntriesFor(found: Found, col: nat): set<int> {
    set i | 0 <= i < |found| :: PackComposite(IntAt(found[i].1, col), found[i].0)
  }

  // ---- All of an UPDATE ----

  ghost predicate AsgOk(c: Contents, s: TableSchema, asg: seq<Assignment>) {
    forall i :: 0 <= i < |asg| ==> asg[i].col < |s.columns| && ValueOk(c, s, asg[i].col, asg[i].value) && FitsRow(asg[i].value)
  }

  lemma {:induction false} ResolvedOk(c: Contents, s: TableSchema, sets: seq<(Name, Value)>)
    requires CanAssign(c, s, sets) && forall i :: 0 <= i < |sets| ==> FitsRow(sets[i].1)
    ensures AsgOk(c, s, Resolved(s.columns, sets))
  {
    if sets != [] {
      var n := |sets| - 1;
      forall i | 0 <= i < n ensures Assignable(c, s, sets[..n][i]) { assert Assignable(c, s, sets[i]); }
      ResolvedOk(c, s, sets[..n]);
      assert Assignable(c, s, sets[n]);
    }
  }

  ghost predicate CanUpdate(c: Contents, name: Name, sets: seq<(Name, Value)>, w: Where)
    requires Coherent(c)
  {
    name in c.ids &&
    (var s := c.schemas[c.ids[name]];
     CanAssign(c, s, sets) && WhereOk(s.columns, w))
  }

  /** The matches are rows of the table that can take the assignments. */
  ghost predicate CanStart(m: Store, c: Contents, s: TableSchema, found: Found, asg: seq<Assignment>) {
    && RowsRight(m, c) && IndexesRight(m, c) && s.id in c.schemas && c.schemas[s.id] == s
    && AsgOk(c, s, asg) && Collected(RowsOf(m, s.id), found, asg)
  }

  lemma UpdateStarts(m: Store, c: Contents, s: TableSchema, found: Found, asg: seq<Assignment>, w: Where)
    requires RowsRight(m, c) && IndexesRight(m, c) && s.id in c.schemas && c.schemas[s.id] == s && AsgOk(c, s, asg)
    requires IsListOf(found, Selected(RowsOf(m, s.id), s.columns, w))
    ensures CanStart(m, c, s, found, asg)
  {
    TableFacts(m, c, s);
    ListedRows(found, RowsOf(m, s.id), s.columns, w);
    hide RowsOf, Selected;
    forall i | 0 <= i < |found| ensures Wide(found[i].1, asg) {
      assert RowFits(s.columns, found[i].0, RowsOf(m, s.id)[found[i].0]);
    }
  }

  /** The rows and the entries are where UpdateRows says they are after n matches. */
  ghost predicate UpdatedUpto(m: Store, m1: Store, c: Contents, s: TableSchema, found: Found, asg: seq<Assignment>, n: nat) {
    && n <= |found| && AllWide(found, asg)
    && RowsOf(m1, s.id) == RowsAfter(RowsOf(m, s.id), found, asg, n)
    && OtherTables(m, m1, c, s.id)
    && forall x :: x in c.indexes ==> UpdatedIndex(m, m1, s.id, c.indexes[x], found, asg, n)
  }

  ghost predicate UpdatedIndex(m: Store, m1: Store, id: int, i: IndexInfo, found: Found, asg: seq<Assignment>, n: nat)
    requires n <= |found| && AllWide(found, asg)
  {
    EntriesOf(m1, i.storage) ==
      (if i.table == id then EntriesAfter(RowsOf(m, id), EntriesOf(m, i.storage), found, asg, i.col, n) else EntriesOf(m, i.storage))
  }

  lemma NothingUpdated(m: Store, c: Contents, s: TableSchema, found: Found, asg: seq<Assignment>)
    requires CanStart(m, c, s, found, asg)
    ensures UpdatedUpto(m, m, c, s, found, asg, 0)
  {
    hide RowsOf, EntriesOf, CanStart, OtherTables, UpdatedIndex;
    MatchesAreWide(m, c, s, found, asg);
    SameTables(m, c, s.id);
    forall x | x in c.indexes ensures UpdatedIndex(m, m, s.id, c.indexes[x], found, asg, 0) {
      IndexNotYetUpdated(m, s.id, c.indexes[x], found, asg);
    }
  }

  lemma MatchesAreWide(m: Store, c: Contents, s: TableSchema, found: Found, asg: seq<Assignment>)
    requires CanStart(m, c, s, found, asg)
    ensures AllWide(found, asg)
  {
    hide RowsOf, RowsRight, IndexesRight, AsgOk;
  }

  lemma SameTables(m: Store, c: Contents, id: int)
    ensures OtherTables(m, m, c, id)
  {
    hide RowsOf;
  }

  lemma IndexNotYetUpdated(m: Store, id: int, i: IndexInfo, found: Found, asg: seq<Assignment>)
    requires AllWide(found, asg)
    ensures UpdatedIndex(m, m, id, i, found, asg, 0)
  {
    hide RowsOf, EntriesOf;
  }

  /** A match's new version fits the table and its indexes, and its keys can be packed. */
  lemma MatchReady(m: Store, c: Contents, s: TableSchema, found: Found, asg: seq<Assignment>, i: nat)
    requires CanStart(m, c, s, found, asg) && i < |found|
    ensures Wide(found[i].1, asg) && IsPk(found[i].0) && IsPk(Target(found[i], asg))
    ensures NewRowFits(c, s.id, Target(found[i], asg), Assigned(found[i].1, asg)) && Encodable(Assigned(found[i].1, asg))
    ensures Indexed(c, s.id) ==> 0 <= found[i].0 <= SECONDARY_PK_MASK && 0 <= Target(found[i], asg) <= SECONDARY_PK_MASK
  {
    var (pk, row) := found[i];
    TableFacts(m, c, s);
    RowKeys(m, s.id);
    OldVersionFits(m, c, s.id, pk, row);
    assert RowFits(s.columns, pk, row);
    forall n | n in c.indexes && c.indexes[n].table == s.id
      ensures Indexable(pk, row, c.indexes[n].col) && c.indexes[n].col < |s.columns|
    {
      assert IndexFits(m, c, c.indexes[n]);
    }
    hide RowsOf, RowsRight, IndexesRight, Collected;
    AssignedFits(c, s, pk, row, asg);
  }

  lemma AssignedFits(c: Contents, s: TableSchema, pk: int, row: Row, asg: seq<Assignment>)
    requires s.id in c.schemas && c.schemas[s.id] == s && GoodColumns(s.columns) && IsPk(pk)
    requires AsgOk(c, s, asg) && Wide(row, asg) && RowFits(s.columns, pk, row)
    requires forall n :: n in c.indexes && c.indexes[n].table == s.id ==> Indexable(pk, row, c.indexes[n].col) && c.indexes[n].col < |s.columns|
    ensures IsPk(Target((pk, row), asg)) && NewRowFits(c, s.id, Target((pk, row), asg), Assigned(row, asg))
    ensures Encodable(Assigned(row, asg))
    ensures Indexed(c, s.id) ==> 0 <= Target((pk, row), asg) <= SECONDARY_PK_MASK
  {
    var after, to := Assigned(row, asg), Target((pk, row), asg);
    forall col: nat | col < |row|
      ensures TypeOf(after[col]) == s.columns[col].typ && FitsRow(after[col])
      ensures Assigns(asg, col) ==> ValueOk(c, s, col, after[col])
      ensures !Assigns(asg, col) ==> after[col] == row[col]
    {
      AssignedColumn(row, asg, col);
      if Assigns(asg, col) { LastIsOk(c, s, asg, col); }
    }
    forall n | n in c.indexes && c.indexes[n].table == s.id ensures Indexable(to, after, c.indexes[n].col) {
      var col := c.indexes[n].col;
      assert Indexable(pk, row, col) && Indexed(c, s.id) && HasIndex(c, s.id, col);
      assert Assigns(asg, 0) ==> ValueOk(c, s, 0, after[0]);
      assert Assigns(asg, col) ==> ValueOk(c, s, col, after[col]);
    }
    assert Assigns(asg, 0) ==> ValueOk(c, s, 0, after[0]);
    if Indexed(c, s.id) {
      var n :| n in c.indexes && c.indexes[n].table == s.id;
      assert Indexable(to, after, c.indexes[n].col);
    }
  }

  lemma {:induction false} LastIsOk(c: Contents, s: TableSchema, asg: seq<Assignment>, col: nat)
    requires AsgOk(c, s, asg) && Assigns(asg, col) && col < |s.columns|
    ensures ValueOk(c, s, col, LastValue(asg, col)) && FitsRow(LastValue(asg, col))
  {
    var n := |asg| - 1;
    if asg[n].col != col {
      StillAssigns(asg, col);
      LastIsOk(c, s, asg[..n], col);
    }
  }

  lemma StepKeepsUpdate(m: Store, m1: Store, m2: Store, c: Contents, s: TableSchema, found: Found, asg: seq<Assignment>, i: nat)
    requires i < |found| && CanStart(m, c, s, found, asg) && UpdatedUpto(m, m1, c, s, found, asg, i)
    requires RowsRight(m1, c) && Stepped(m1, m2, c, s.id, found[i], asg)
    requires NewRowFits(c, s.id, Target(found[i], asg), Assigned(found[i].1, asg))
    ensures UpdatedUpto(m, m2, c, s, found, asg, i + 1) && RowsRight(m2, c) && OtherTables(m1, m2, c, s.id)
  {
    hide RowsOf, NewRowFits, RowFits, EntriesStep, RowsRight, Collected, AsgOk;
    OthersStill(m, m1, m2, c, s.id);
    forall pk | pk in RowsOf(m2, s.id) ensures FittingAt(m1, m2, c, s.id, pk) { }
    RowsStayRight(m1, m2, c, s.id);
    forall x | x in c.indexes ensures UpdatedIndex(m, m2, s.id, c.indexes[x], found, asg, i + 1) {
      assert UpdatedIndex(m, m1, s.id, c.indexes[x], found, asg, i) && SteppedIndex(m1, m2, c.indexes[x], s.id, found[i], asg);
    }
  }

  /** What a finished UPDATE has done to the store. */
  ghost predicate Updated(m: Store, m2: Store, c: Contents, s: TableSchema, sets: seq<(Name, Value)>, w: Where,
                          ms: MatchList, asg: seq<Assignment>)
  {
    && IsListOf(ms, Selected(RowsOf(m, s.id), s.columns, w)) && asg == Resolved(s.columns, sets) && AllWide(ms, asg)
    && RowsOf(m2, s.id) == RowsAfter(RowsOf(m, s.id), ms, asg, |ms|)
    && OtherTables(m, m2, c, s.id)
    && (forall n :: n in c.indexes ==> RightUnlessStale(m2, c.indexes[n], s.id, ms, asg))
    && ((Assigns(asg, 0) ==> |ms| <= 1) ==> IndexesRight(m2, c))
  }

  /** The index is right exactly when it is on another table, the primary key is not assigned, or
      the matches leave nothing stale in its column. */
  ghost predicate RightUnlessStale(m2: Store, i: IndexInfo, id: int, ms: MatchList, asg: seq<Assignment>) {
    IndexRight(m2, i) <==>
      !(i.table == id && Assigns(asg, 0) && LastValue(asg, 0).Int? && LeavesStale(ms, asg, i.col, LastValue(asg, 0).v))
  }

  lemma UpdateEnds(m: Store, m2: Store, c: Contents, s: TableSchema, ms: MatchList, asg: seq<Assignment>, w: Where)
    requires CanStart(m, c, s, ms, asg) && UpdatedUpto(m, m2, c, s, ms, asg, |ms|)
    ensures forall n :: n in c.indexes ==> RightUnlessStale(m2, c.indexes[n], s.id, ms, asg)
    ensures (Assigns(asg, 0) ==> |ms| <= 1) ==> IndexesRight(m2, c)
  {
    hide RowsOf, RowFits, LeavesStale, EntriesAfter, RowsAfter;
    forall n | n in c.indexes ensures RightUnlessStale(m2, c.indexes[n], s.id, ms, asg) {
      var i := c.indexes[n];
      assert UpdatedIndex(m, m2, s.id, i, ms, asg, |ms|) && IndexRight(m, i);
      if i.table == s.id { OwnIndexEnds(m, m2, c, s, ms, asg, n); } else { OtherIndexEnds(m, m2, c, s, ms, asg, n); }
    }
    if Assigns(asg, 0) && |ms| <= 1 {
      forall n | n in c.indexes ensures IndexRight(m2, c.indexes[n]) {
        assert RightUnlessStale(m2, c.indexes[n], s.id, ms, asg);
        if LastValue(asg, 0).Int? { FewAreNeverStale(ms, asg, c.indexes[n].col, LastValue(asg, 0).v); }
      }
    } else if !Assigns(asg, 0) {
      forall n | n in c.indexes ensures IndexRight(m2, c.indexes[n]) {
        assert RightUnlessStale(m2, c.indexes[n], s.id, ms, asg);
      }
    }
  }

  lemma FewAreNeverStale(ms: MatchList, asg: seq<Assignment>, col: nat, k: int)
    requires |ms| <= 1
    ensures !LeavesStale(ms, asg, col, k)
  {
  }

  lemma OtherIndexEnds(m: Store, m2: Store, c: Contents, s: TableSchema, ms: MatchList, asg: seq<Assignment>, n: Name)
    requires CanStart(m, c, s, ms, asg) && UpdatedUpto(m, m2, c, s, ms, asg, |ms|) && n in c.indexes && c.indexes[n].table != s.id
    ensures IndexRight(m2, c.indexes[n])
  {
    hide RowsOf;
    var i := c.indexes[n];
    assert UpdatedIndex(m, m2, s.id, i, ms, asg, |ms|) && IndexRight(m, i) && IndexFits(m, c, i);
  }

  lemma OwnIndexEnds(m: Store, m2: Store, c: Contents, s: TableSchema, ms: MatchList, asg: seq<Assignment>, n: Name)
    requires CanStart(m, c, s, ms, asg) && UpdatedUpto(m, m2, c, s, ms, asg, |ms|) && n in c.indexes && c.indexes[n].table == s.id
    ensures RightUnlessStale(m2, c.indexes[n], s.id, ms, asg)
  {
    var i, rows := c.indexes[n], RowsOf(m, s.id);
    TableFacts(m, c, s);
    assert UpdatedIndex(m, m2, s.id, i, ms, asg, |ms|) && IndexRight(m, i) && IndexFits(m, c, i);
    if !Assigns(asg, 0) {
      PackableRows(m, c, i);
      hide *;
      OwnInPlace(rows, m2, i, ms, asg, s.id);
    } else {
      assert Indexed(c, s.id);
      MovedMatches(m, c, s, ms, asg, i);
      hide *;
      OwnMoved(rows, m2, i, ms, asg, s.id);
    }
  }

  lemma PackableRows(m: Store, c: Contents, i: IndexInfo)
    requires IndexFits(m, c, i)
    ensures Packable(RowsOf(m, i.table))
  {
    hide RowsOf;
    forall pk | pk in RowsOf(m, i.table) ensures 0 <= pk <= SECONDARY_PK_MASK {
      assert Indexable(pk, RowsOf(m, i.table)[pk], i.col);
    }
  }

  lemma OwnInPlace(rows: Rows, m2: Store, i: IndexInfo, ms: MatchList, asg: seq<Assignment>, id: int)
    requires Collected(rows, ms, asg) && Packable(rows) && !Assigns(asg, 0) && AllWide(ms, asg)
    requires EntriesOf(m2, i.storage) == EntriesAfter(rows, Expected(rows, i.col), ms, asg, i.col, |ms|)
    requires RowsOf(m2, i.table) == RowsAfter(rows, ms, asg, |ms|)
    ensures RightUnlessStale(m2, i, id, ms, asg)
  {
    hide RowsOf, EntriesAfter, RowsAfter, LeavesStale;
    InPlace(rows, ms, asg, i.col, |ms|);
  }

  lemma OwnMoved(rows: Rows, m2: Store, i: IndexInfo, ms: MatchList, asg: seq<Assignment>, id: int)
    requires Assigns(asg, 0) && LastValue(asg, 0).Int? && CanMove(rows, ms, asg, i.col, LastValue(asg, 0).v) && i.table == id
    requires Assigns(asg, i.col) || forall j :: 0 <= j < |ms| ==> 0 <= IntAt(ms[j].1, i.col) <= SECONDARY_VALUE_MASK
    requires AllWide(ms, asg)
    requires EntriesOf(m2, i.storage) == EntriesAfter(rows, Expected(rows, i.col), ms, asg, i.col, |ms|)
    requires RowsOf(m2, i.table) == RowsAfter(rows, ms, asg, |ms|)
    ensures RightUnlessStale(m2, i, id, ms, asg)
  {
    hide RowsOf, EntriesAfter, RowsAfter, LeavesStale;
    IndexRightExactly(rows, ms, asg, i.col, LastValue(asg, 0).v);
  }

  lemma MovedMatches(m: Store, c: Contents, s: TableSchema, ms: MatchList, asg: seq<Assignment>, i: IndexInfo)
    requires CanStart(m, c, s, ms, asg) && TableFits(m, s) && IndexFits(m, c, i) && i.table == s.id && Assigns(asg, 0)
    requires Indexed(c, s.id)
    ensures LastValue(asg, 0).Int? && CanMove(RowsOf(m, s.id), ms, asg, i.col, LastValue(asg, 0).v)
    ensures Assigns(asg, i.col) || forall j :: 0 <= j < |ms| ==> 0 <= IntAt(ms[j].1, i.col) <= SECONDARY_VALUE_MASK
  {
    NewKeyFits(c, s, asg);
    PackableRows(m, c, i);
    MatchesFit(m, c, s, ms, asg, i);
    hide RowsOf, RowsRight, IndexesRight, TableFits, IndexFits, LastValue, AsgOk, Packable, Indexed;
  }

  /** The primary key an update assigns fits an indexed table. */
  lemma NewKeyFits(c: Contents, s: TableSchema, asg: seq<Assignment>)
    requires AsgOk(c, s, asg) && Assigns(asg, 0) && GoodColumns(s.columns) && Indexed(c, s.id)
    ensures LastValue(asg, 0).Int? && 0 <= LastValue(asg, 0).v <= SECONDARY_PK_MASK
  {
    LastIsOk(c, s, asg, 0);
  }

  lemma MatchesFit(m: Store, c: Contents, s: TableSchema, ms: MatchList, asg: seq<Assignment>, i: IndexInfo)
    requires TableFits(m, s) && IndexFits(m, c, i) && i.table == s.id && c.schemas[s.id] == s && Collected(RowsOf(m, s.id), ms, asg)
    ensures forall j :: 0 <= j < |ms| ==> |ms[j].1| > i.col
    ensures i.col != 0 ==> forall j :: 0 <= j < |ms| ==> 0 <= IntAt(ms[j].1, i.col) <= SECONDARY_VALUE_MASK
  {
    hide RowsOf;
    var rows := RowsOf(m, s.id);
    forall j | 0 <= j < |ms|
      ensures |ms[j].1| > i.col && (i.col != 0 ==> 0 <= IntAt(ms[j].1, i.col) <= SECONDARY_VALUE_MASK)
    {
      assert RowFits(s.columns, ms[j].0, rows[ms[j].0]) && Indexable(ms[j].0, rows[ms[j].0], i.col);
    }
  }

  // ---- One step of an UPDATE ----

  /** The column an assignment names, and its value, can be stored. */
  ghost predicate Assignable(c: Contents, s: TableSchema, a: (Name, Value)) {
    var col := FindColumn(s.columns, a.0);
    col >= 0 && ValueOk(c, s, col, a.1)
  }

  ghost predicate CanAssign(c: Contents, s: TableSchema, sets: seq<(Name, Value)>) {
    forall i :: 0 <= i < |sets| ==> Assignable(c, s, sets[i])
  }

  ghost function Resolved(columns: seq<ColumnDef>, sets: seq<(Name, Value)>): seq<Assignment> {
    if sets == [] then []
    else
      var n := |sets| - 1;
      var col := FindColumn(columns, sets[n].0);
      Resolved(columns, sets[..n]) + [Assignment(if col < 0 then 0 else col, sets[n].1)]
  }

  /** Between m and m' one match was updated: in the table as RowsStep says, in its indexes as
      EntriesStep says, and nowhere else. */
  ghost predicate Stepped(m: Store, m': Store, c: Contents, id: int, one: (int, Row), asg: seq<Assignment>)
    requires Wide(one.1, asg)
  {
    && RowsOf(m', id) == RowsStep(RowsOf(m, id), one, asg)
    && OtherTables(m, m', c, id)
    && forall n :: n in c.indexes ==> SteppedIndex(m, m', c.indexes[n], id, one, asg)
  }

  ghost predicate SteppedIndex(m: Store, m': Store, i: IndexInfo, id: int, one: (int, Row), asg: seq<Assignment>)
    requires Wide(one.1, asg)
  {
    EntriesOf(m', i.storage) ==
      (if i.table == id then EntriesStep(RowsOf(m, id), EntriesOf(m, i.storage), one, asg, i.col) else EntriesOf(m, i.storage))
  }

  /** The entries of the row at newPk are gone, if that is another row's key; nothing else is. */
  ghost predicate Displaced(m: Store, m1: Store, c: Contents, id: int, oldPk: int, newPk: int) {
    && RowsOf(m1, id) == RowsOf(m, id) && OtherTables(m, m1, c, id)
    && forall n :: n in c.indexes ==> SyncReached(m, m1, c.indexes[n], id, DisplacedBy(m, id, oldPk, newPk), NoRow)
  }

  ghost function DisplacedBy(m: Store, id: int, oldPk: int, newPk: int): Version {
    if newPk != oldPk && newPk in RowsOf(m, id) then Version(newPk, RowsOf(m, id)[newPk]) else NoRow
  }

  lemma NothingDisplaced(m: Store, c: Contents, id: int, oldPk: int, newPk: int)
    ensures DisplacedBy(m, id, oldPk, newPk).NoRow? ==> Displaced(m, m, c, id, oldPk, newPk)
  {
  }

  lemma DisplacedCleared(m: Store, m1: Store, c: Contents, id: int, oldPk: int, newPk: int, infos: seq<IndexInfo>)
    requires Coherent(c) && id in c.schemas && OnTable(infos, c.indexes, id)
    requires newPk != oldPk && newPk in RowsOf(m, id)
    requires SyncedUpto(m, m1, infos, |infos|, Version(newPk, RowsOf(m, id)[newPk]), NoRow)
    ensures Displaced(m, m1, c, id, oldPk, newPk)
  {
    SyncReaches(m, m, m1, c, id, infos, Version(newPk, RowsOf(m, id)[newPk]), NoRow);
  }

  /** The row is under its new key, and the indexes followed. */
  ghost predicate RowMoved(m1: Store, m3: Store, c: Contents, id: int, one: (int, Row), newPk: int, moved: bool, row: Row) {
    && RowsOf(m3, id) == (if moved then RowsOf(m1, id) - {one.0} else RowsOf(m1, id))[newPk := row]
    && OtherTables(m1, m3, c, id)
    && forall n :: n in c.indexes ==> SyncReached(m1, m3, c.indexes[n], id, Version(one.0, one.1), Version(newPk, row))
  }

  lemma MoveDone(m1: Store, m2: Store, m3: Store, c: Contents, id: int, one: (int, Row), newPk: int, moved: bool, row: Row,
                 infos: seq<IndexInfo>)
    requires Coherent(c) && id in c.schemas && OnTable(infos, c.indexes, id) && OnlyPart(m1, m2, id)
    requires RowsOf(m2, id) == (if moved then RowsOf(m1, id) - {one.0} else RowsOf(m1, id))[newPk := row]
    requires SyncedUpto(m2, m3, infos, |infos|, Version(one.0, one.1), Version(newPk, row))
    ensures RowMoved(m1, m3, c, id, one, newPk, moved, row)
  {
    SyncReaches(m1, m2, m3, c, id, infos, Version(one.0, one.1), Version(newPk, row));
  }

  lemma StepDone(m: Store, m1: Store, m3: Store, c: Contents, id: int, one: (int, Row), asg: seq<Assignment>)
    requires Wide(one.1, asg) && Displaced(m, m1, c, id, one.0, Target(one, asg))
    requires RowMoved(m1, m3, c, id, one, Target(one, asg), Assigns(asg, 0), Assigned(one.1, asg))
    ensures Stepped(m, m3, c, id, one, asg)
  {
    hide RowsOf, PackComposite, IntAt;
    OthersStill(m, m1, m3, c, id);
    forall n | n in c.indexes ensures SteppedIndex(m, m3, c.indexes[n], id, one, asg) {
      var i := c.indexes[n];
      assert SyncReached(m, m1, i, id, DisplacedBy(m, id, one.0, Target(one, asg)), NoRow);
      assert SyncReached(m1, m3, i, id, Version(one.0, one.1), Version(Target(one, asg), Assigned(one.1, asg)));
    }
  }

  /** The rows listed are there, each once. */
  ghost predicate Lasting(found: Found, rows: Rows) {
    && (forall i :: 0 <= i < |found| ==> found[i].0 in rows && rows[found[i].0] == found[i].1)
    && (forall i, j :: 0 <= i < j < |found| ==> found[i].0 < found[j].0)
  }

  lemma OthersStill(m: Store, m1: Store, m2: Store, c: Contents, id: int)
    requires OtherTables(m, m1, c, id) && OtherTables(m1, m2, c, id)
    ensures OtherTables(m, m2, c, id)
  {
  }

  lemma RowKeys(m: Store, t: int)
    ensures forall pk :: pk in RowsOf(m, t) ==> IsPk(pk)
  {
  }

  /** The primary keys in a list of rows. */
  ghost function KeysOf(found: Found): set<int> {
    set i | 0 <= i < |found| :: found[i].0
  }

  lemma ListedRows(found: Found, rows: Rows, columns: seq<ColumnDef>, w: Where)
    requires IsListOf(found, Selected(rows, columns, w))
    ensures Lasting(found, rows)
    ensures KeysOf(found) == Selected(rows, columns, w).Keys && |found| == |Selected(rows, columns, w)|
  {
    hide Matches;
    MapOfSorted(found);
    forall i | 0 <= i < |found| ensures found[i].0 in rows && rows[found[i].0] == found[i].1 {
      assert found[i].0 in MapOf(found);
    }
    forall pk ensures pk in KeysOf(found) <==> pk in MapOf(found) { MapKeys(found, pk); }
    assert |MapOf(found)| == |found|;
  }

  lemma NextListed(found: Found, rows: Rows, i: nat)
    requires i < |found| && Lasting(found, rows)
    ensures found[i].0 in rows - KeysOf(found[..i]) && (rows - KeysOf(found[..i]))[found[i].0] == found[i].1
    ensures rows - KeysOf(found[..i]) - {found[i].0} == rows - KeysOf(found[..i + 1])
  {
    var j := i + 1;
    assert found[..j][i] == found[i];
    forall e | e in KeysOf(found[..i]) ensures e in KeysOf(found[..j]) && e != found[i].0 {
      var k :| 0 <= k < i && found[..i][k].0 == e;
      assert found[..j][k].0 == e && found[k].0 < found[i].0;
    }
    forall e | e in KeysOf(found[..j]) ensures e in KeysOf(found[..i]) || e == found[i].0 {
      var k :| 0 <= k < j && found[..j][k].0 == e;
      if k < i { assert found[..i][k].0 == e; }
    }
    assert KeysOf(found[..j]) == KeysOf(found[..i]) + {found[i].0};
  }

  /** The statement's table is there, and every value can be stored in its column. */
  ghost predicate CanInsert(c: Contents, name: Name, values: Row)
    requires Coherent(c)
  {
    name in c.ids &&
    (var s := c.schemas[c.ids[name]];
     |values| == |s.columns| && forall i :: 0 <= i < |values| ==> ValueOk(c, s, i, values[i]))
  }

  lemma InsertedFits(m: Store, c: Contents, s: TableSchema, values: Row)
    requires RowsRight(m, c) && s.id in c.schemas && c.schemas[s.id] == s && Encodable(values)
    requires |values| == |s.columns| && forall i :: 0 <= i < |values| ==> ValueOk(c, s, i, values[i])
    ensures values[0].Int? && IsPk(values[0].v) && NewRowFits(c, s.id, values[0].v, values)
  {
    TableFacts(m, c, s);
    assert ValueOk(c, s, 0, values[0]);
    forall n | n in c.indexes && c.indexes[n].table == s.id ensures Indexable(values[0].v, values, c.indexes[n].col) {
      assert IndexFits(m, c, c.indexes[n]);
      assert HasIndex(c, s.id, c.indexes[n].col) && Indexed(c, s.id);
      assert ValueOk(c, s, c.indexes[n].col, values[c.indexes[n].col]);
    }
  }

  lemma OldVersionFits(m: Store, c: Contents, id: int, pk: int, row: Row)
    requires RowsRight(m, c) && pk in RowsOf(m, id)
    ensures Indexed(c, id) ==> VersionFits(Version(pk, row)) && VersionFits(NoRow)
  {
    hide RowsOf;
    if Indexed(c, id) {
      var n :| n in c.indexes && c.indexes[n].table == id;
      assert IndexFits(m, c, c.indexes[n]);
      assert Indexable(pk, RowsOf(m, id)[pk], c.indexes[n].col);
    }
  }

  lemma VersionsFit(m: Store, c: Contents, id: int, pk: int, row: Row, before: Version)
    requires RowsRight(m, c) && id in c.schemas && NewRowFits(c, id, pk, row)
    requires before.Version? ==> before.pk == pk
    ensures Indexed(c, id) ==> VersionFits(before) && VersionFits(Version(pk, row))
    ensures Encodable(row)
  {
    if Indexed(c, id) {
      var n :| n in c.indexes && c.indexes[n].table == id;
      assert Indexable(pk, row, c.indexes[n].col);
    }
  }

  lemma StaysRecorded(m: Store, m2: Store, c: Contents, id: int)
    requires Recorded(m, c) && id in c.schemas && OtherTables(m, m2, c, id)
    ensures Recorded(m2, c)
  {
    assert Used(c, id);
  }

  function RowsOnly(found: Found): seq<Row> {
    if found == [] then [] else RowsOnly(found[..|found| - 1]) + [found[|found| - 1].1]
  }

  lemma SecondaryPkIsPk(c: int)
    ensures IsPk(UnpackSecondaryPk(c))
  {
  }

  lemma NotFirst(columns: seq<ColumnDef>, w: Where)
    requires WhereOk(columns, w) && w.Where? && w.op.EQ? && !OnPrimaryKey(columns, w, EQ)
    ensures FindColumn(columns, w.column) > 0
  {
  }

  lemma TableFacts(m: Store, c: Contents, s: TableSchema)
    requires RowsRight(m, c) && s.id in c.schemas && c.schemas[s.id] == s
    ensures TableFits(m, s) && IsTableId(s.id) && s.id != CATALOG_TABLE_ID
  {
    assert TableFits(m, c.schemas[s.id]) && Used(c, s.id);
  }

  lemma IndexFacts(m: Store, c: Contents, i: IndexInfo)
    requires RowsRight(m, c) && IndexesRight(m, c) && InfoOk(i, c.indexes, i.table)
    ensures IndexFits(m, c, i) && IndexRight(m, i) && IsTableId(i.storage) && IsTableId(i.table)
  {
    var n :| n in c.indexes && c.indexes[n] == i;
    assert IndexOk(c, n) && IndexFits(m, c, c.indexes[n]);
  }

  lemma KnownByName(c: Contents, name: Name)
    requires Coherent(c) && name in c.ids
    ensures c.ids[name] in c.schemas && c.schemas[c.ids[name]].id == c.ids[name]
  {
    assert TableOk(c, c.ids[name]);
  }

  lemma ScannedRowsDecode(scan: Scan, m: Store, s: TableSchema, lo: int, hi: int)
    requires TableFits(m, s) && Lists(scan, m, s.id, lo, hi)
    ensures forall i :: 0 <= i < |scan| ==> Stored(scan[i].1) != []
  {
    forall i | 0 <= i < |scan| ensures Stored(scan[i].1) != [] {
      assert ListsAt(scan[i], m, s.id, lo, hi);
      assert RowFits(s.columns, UnpackPrimaryKey(scan[i].0), Stored(scan[i].1));
    }
  }

  lemma StoragesAreIds(infos: seq<IndexInfo>, c: Contents, table: int)
    requires Coherent(c) && OnTable(infos, c.indexes, table)
    ensures forall i :: 0 <= i < |infos| ==> IsTableId(infos[i].storage)
    ensures forall i, j :: 0 <= i < j < |infos| ==> infos[i].storage != infos[j].storage
  {
    forall i | 0 <= i < |infos| ensures IsTableId(infos[i].storage) {
      assert InfoOk(infos[i], c.indexes, table);
      var n :| n in c.indexes && c.indexes[n] == infos[i];
      assert IndexOk(c, n);
    }
  }
}
