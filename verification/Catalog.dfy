/** The catalog (cpp/catalog.h): table and index descriptions, kept in maps and as rows of table 0
    of the store they describe. Loading reads them back. */
module TableCatalog {
  import opened Bytes
  import opened Slots
  import opened GappedArray
  import opened TableKey
  import opened RowFormat
  import opened TableView

  type Name = seq<byte>

  const CATALOG_TABLE_ID := 0

  datatype ColumnDef = ColumnDef(name: Name, typ: ColumnType)

  datatype TableSchema = TableSchema(id: int, name: Name, columns: seq<ColumnDef>)

  datatype IndexInfo = IndexInfo(name: Name, table: int, col: nat, storage: int)

  /** Everything the catalog knows. */
  datatype Contents = Contents(nextId: int, ids: map<Name, int>, schemas: map<int, TableSchema>, indexes: map<Name, IndexInfo>)

  // ---- Catalog rows ----

  function TypeCode(t: ColumnType): int64 {
    if t.INT64? then 0 else 1
  }

  function ColumnsRow(columns: seq<ColumnDef>): Row {
    if columns == [] then []
    else ColumnsRow(columns[..|columns| - 1]) + [Text(columns[|columns| - 1].name), Int(TypeCode(columns[|columns| - 1].typ))]
  }

  predicate SmallTable(name: Name, columns: seq<ColumnDef>) {
    |name| < TWO_32 && |columns| < TWO_32 && forall i :: 0 <= i < |columns| ==> |columns[i].name| < TWO_32
  }

  function SchemaRow(s: TableSchema): Row
    requires SmallTable(s.name, s.columns)
  {
    [Int(0), Text(s.name), Int(|s.columns|)] + ColumnsRow(s.columns)
  }

  predicate SmallIndex(i: IndexInfo) {
    |i.name| < TWO_32 && i.col < TWO_32 && IsTableId(i.table) && IsTableId(i.storage)
  }

  function IndexRow(i: IndexInfo): Row
    requires SmallIndex(i)
  {
    [Int(1), Text(i.name), Int(i.table), Int(i.col), Int(i.storage)]
  }

  lemma {:induction false} ColumnsRowParts(columns: seq<ColumnDef>)
    ensures |ColumnsRow(columns)| == 2 * |columns|
    ensures forall i :: 0 <= i < |columns| ==>
      ColumnsRow(columns)[2 * i] == Text(columns[i].name) && ColumnsRow(columns)[2 * i + 1] == Int(TypeCode(columns[i].typ))
  {
    if columns != [] { ColumnsRowParts(columns[..|columns| - 1]); }
  }

  // ---- What the store says ----

  /** An id in use, by a table or as an index's storage. */
  ghost predicate Used(c: Contents, id: int) {
    id in c.schemas || exists n :: n in c.indexes && c.indexes[n].storage == id
  }

  /** The maps agree with one another. */
  ghost predicate Coherent(c: Contents) {
    && (forall id :: id in c.schemas ==> TableOk(c, id))
    && (forall n :: n in c.ids ==> c.ids[n] in c.schemas && c.schemas[c.ids[n]].name == n)
    && (forall n :: n in c.indexes ==> IndexOk(c, n))
    && (forall a, b :: a in c.indexes && b in c.indexes && c.indexes[a].storage == c.indexes[b].storage ==> a == b)
    && 1 <= c.nextId <= MAX_TABLES
    && (forall id :: Used(c, id) ==> 1 <= id < c.nextId)
    && (c.nextId > 1 ==> Used(c, c.nextId - 1))
  }

  ghost predicate TableOk(c: Contents, id: int)
    requires id in c.schemas
  {
    var s := c.schemas[id];
    s.id == id && s.name in c.ids && c.ids[s.name] == id && SmallTable(s.name, s.columns)
  }

  ghost predicate IndexOk(c: Contents, n: Name)
    requires n in c.indexes
  {
    var i := c.indexes[n];
    i.name == n && SmallIndex(i) && i.storage !in c.schemas
  }

  /** The rows of table 0 are the catalog's, one for each table and index. */
  ghost predicate Describes(rows: Rows, c: Contents)
    requires Coherent(c)
  {
    && (forall id :: id in rows <==> Used(c, id))
    && (forall id :: id in c.schemas ==> TableRow(rows, c, id))
    && (forall n :: n in c.indexes ==> StorageRow(rows, c, n))
  }

  ghost predicate TableRow(rows: Rows, c: Contents, id: int)
    requires Coherent(c) && id in c.schemas
  {
    assert TableOk(c, id);
    id in rows && rows[id] == SchemaRow(c.schemas[id])
  }

  ghost predicate StorageRow(rows: Rows, c: Contents, n: Name)
    requires Coherent(c) && n in c.indexes
  {
    assert IndexOk(c, n);
    var i := c.indexes[n];
    i.storage in rows && rows[i.storage] == IndexRow(i)
  }

  ghost predicate Recorded(m: Store, c: Contents) {
    Coherent(c) && Describes(RowsOf(m, CATALOG_TABLE_ID), c)
  }

  const EMPTY_CATALOG := Contents(1, map[], map[], map[])

  // ---- Adding ----

  function WithTable(c: Contents, name: Name, columns: seq<ColumnDef>): Contents {
    c.(nextId := c.nextId + 1, ids := c.ids[name := c.nextId], schemas := c.schemas[c.nextId := TableSchema(c.nextId, name, columns)])
  }

  function WithIndex(c: Contents, name: Name, table: int, col: nat): Contents {
    c.(nextId := c.nextId + 1, indexes := c.indexes[name := IndexInfo(name, table, col, c.nextId)])
  }

  lemma AddTable(rows: Rows, c: Contents, name: Name, columns: seq<ColumnDef>)
    requires Coherent(c) && Describes(rows, c) && name !in c.ids && SmallTable(name, columns) && c.nextId < MAX_TABLES
    ensures var c' := WithTable(c, name, columns);
      Coherent(c') && Describes(rows[c.nextId := SchemaRow(TableSchema(c.nextId, name, columns))], c')
  {
    hide Coherent, SchemaRow, IndexRow;
    var id := c.nextId;
    var c' := WithTable(c, name, columns);
    TableCoherent(c, name, columns);
    UsedWithTable(c, name, columns);
    NextIsUnused(c);
    var rows' := rows[id := SchemaRow(c'.schemas[id])];
    forall u | u in c'.schemas ensures TableRow(rows', c', u) { if u != id { assert TableRow(rows, c, u); } }
    forall n | n in c'.indexes ensures StorageRow(rows', c', n) {
      assert StorageRow(rows, c, n) && Used(c, c.indexes[n].storage);
    }
  }

  lemma TableCoherent(c: Contents, name: Name, columns: seq<ColumnDef>)
    requires Coherent(c) && name !in c.ids && SmallTable(name, columns) && c.nextId < MAX_TABLES
    ensures Coherent(WithTable(c, name, columns))
  {
    var id := c.nextId;
    var c' := WithTable(c, name, columns);
    assert !Used(c, id);
    forall u ensures Used(c', u) <==> Used(c, u) || u == id { }
    forall u | u in c'.schemas ensures TableOk(c', u) { if u != id { assert TableOk(c, u); } }
    forall n | n in c'.indexes ensures IndexOk(c', n) { assert IndexOk(c, n); assert Used(c, c.indexes[n].storage); }
  }

  lemma AddIndex(rows: Rows, c: Contents, name: Name, table: int, col: nat)
    requires Coherent(c) && Describes(rows, c) && name !in c.indexes && c.nextId < MAX_TABLES
    requires |name| < TWO_32 && col < TWO_32 && IsTableId(table)
    ensures var c' := WithIndex(c, name, table, col);
      Coherent(c') && Describes(rows[c.nextId := IndexRow(IndexInfo(name, table, col, c.nextId))], c')
  {
    hide Coherent, SchemaRow, IndexRow, Used;
    var id := c.nextId;
    var c' := WithIndex(c, name, table, col);
    IndexCoherent(c, name, table, col);
    UsedWithIndex(c, name, table, col);
    NextIsUnused(c);
    var rows' := rows[id := IndexRow(c'.indexes[name])];
    forall u | u in c'.schemas ensures TableRow(rows', c', u) { assert TableRow(rows, c, u) && Used(c, u); }
    forall n | n in c'.indexes ensures StorageRow(rows', c', n) {
      if n != name { assert StorageRow(rows, c, n) && Used(c, c.indexes[n].storage); }
    }
  }

  lemma NextIsUnused(c: Contents)
    requires Coherent(c)
    ensures !Used(c, c.nextId)
  {
  }

  lemma UsedWithTable(c: Contents, name: Name, columns: seq<ColumnDef>)
    ensures forall u :: Used(WithTable(c, name, columns), u) <==> Used(c, u) || u == c.nextId
  {
  }

  lemma UsedWithIndex(c: Contents, name: Name, table: int, col: nat)
    requires name !in c.indexes
    ensures forall u :: Used(WithIndex(c, name, table, col), u) <==> Used(c, u) || u == c.nextId
  {
    var c' := WithIndex(c, name, table, col);
    assert c'.indexes[name].storage == c.nextId;
    forall u ensures Used(c', u) <==> Used(c, u) || u == c.nextId {
      if Used(c, u) && u !in c.schemas {
        var n :| n in c.indexes && c.indexes[n].storage == u;
        assert n in c'.indexes && c'.indexes[n].storage == u;
      }
    }
  }

  lemma IndexCoherent(c: Contents, name: Name, table: int, col: nat)
    requires Coherent(c) && name !in c.indexes && c.nextId < MAX_TABLES
    requires |name| < TWO_32 && col < TWO_32 && IsTableId(table)
    ensures Coherent(WithIndex(c, name, table, col))
  {
    var id := c.nextId;
    var c' := WithIndex(c, name, table, col);
    UsedWithIndex(c, name, table, col);
    assert !Used(c, id);
    forall u | u in c'.schemas ensures TableOk(c', u) { assert TableOk(c, u); }
    forall n | n in c'.indexes ensures IndexOk(c', n) { if n != name { assert IndexOk(c, n); } }
    forall a, b | a in c'.indexes && b in c'.indexes && c'.indexes[a].storage == c'.indexes[b].storage ensures a == b {
      if a != name { assert Used(c, c.indexes[a].storage); }
      if b != name { assert Used(c, c.indexes[b].storage); }
    }
  }

  lemma FreshId(m: Store, c: Contents)
    requires Recorded(m, c) && c.nextId < MAX_TABLES
    ensures IsTableId(c.nextId)
  {
  }

  /** Writing the new row records the new contents. */
  lemma RecordTable(m: Store, c: Contents, name: Name, columns: seq<ColumnDef>, m': Store)
    requires Recorded(m, c) && name !in c.ids && SmallTable(name, columns) && c.nextId < MAX_TABLES
    requires RowsOf(m', CATALOG_TABLE_ID) == RowsOf(m, CATALOG_TABLE_ID)[c.nextId := SchemaRow(TableSchema(c.nextId, name, columns))]
    ensures Recorded(m', WithTable(c, name, columns))
  {
    AddTable(RowsOf(m, CATALOG_TABLE_ID), c, name, columns);
  }

  lemma RecordIndex(m: Store, c: Contents, name: Name, table: int, col: nat, m': Store)
    requires Recorded(m, c) && name !in c.indexes && c.nextId < MAX_TABLES
    requires |name| < TWO_32 && col < TWO_32 && IsTableId(table) && IsTableId(c.nextId)
    requires RowsOf(m', CATALOG_TABLE_ID) == RowsOf(m, CATALOG_TABLE_ID)[c.nextId := IndexRow(IndexInfo(name, table, col, c.nextId))]
    ensures Recorded(m', WithIndex(c, name, table, col))
  {
    AddIndex(RowsOf(m, CATALOG_TABLE_ID), c, name, table, col);
  }

  // ---- Loading ----

  /** The part of the catalog whose rows have ids below a bound. */
  ghost function Upto(c: Contents, bound: int): Contents {
    Contents(
      NextId(c, bound),
      map n | n in c.ids && c.ids[n] < bound :: c.ids[n],
      map id | id in c.schemas && id < bound :: c.schemas[id],
      map n | n in c.indexes && c.indexes[n].storage < bound :: c.indexes[n])
  }

  /** One past the largest id in use below the bound, at least 1. */
  ghost function NextId(c: Contents, bound: int): int
    decreases if bound < 0 then 0 else bound
  {
    if bound <= 1 then 1 else if Used(c, bound - 1) then bound else NextId(c, bound - 1)
  }

  lemma {:induction false} NextIdSkips(c: Contents, a: int, b: int)
    requires 1 <= a <= b && forall u :: a <= u < b ==> !Used(c, u)
    ensures NextId(c, b) == NextId(c, a)
    decreases b
  {
    if b > a { NextIdSkips(c, a, b - 1); }
  }

  lemma UptoAll(c: Contents)
    requires Coherent(c)
    ensures Upto(c, c.nextId) == c
  {
    forall id | id in c.schemas ensures id < c.nextId { assert Used(c, id); }
    forall n | n in c.indexes ensures c.indexes[n].storage < c.nextId { assert Used(c, c.indexes[n].storage); }
  }

  /** Bounds with no id in use between them give the same part. */
  lemma UptoSkips(c: Contents, a: int, b: int)
    requires Coherent(c) && 1 <= a <= b && forall u :: a <= u < b ==> !Used(c, u)
    ensures Upto(c, b) == Upto(c, a)
  {
    NextIdSkips(c, a, b);
    NobodyBetween(c, a, b);
    hide Coherent, Used, NextId;
  }

  lemma NobodyBetween(c: Contents, a: int, b: int)
    requires Coherent(c) && a <= b && forall u :: a <= u < b ==> !Used(c, u)
    ensures forall id :: id in c.schemas ==> (id < a <==> id < b)
    ensures forall n :: n in c.ids ==> (c.ids[n] < a <==> c.ids[n] < b)
    ensures forall n :: n in c.indexes ==> (c.indexes[n].storage < a <==> c.indexes[n].storage < b)
  {
    forall id | id in c.schemas ensures id < a <==> id < b { assert Used(c, id); }
    forall n | n in c.ids ensures c.ids[n] < a <==> c.ids[n] < b { assert Used(c, c.ids[n]); }
    forall n | n in c.indexes ensures c.indexes[n].storage < a <==> c.indexes[n].storage < b { assert Used(c, c.indexes[n].storage); }
  }

  /** Taking in a table's row. */
  lemma UptoTable(c: Contents, id: int)
    requires Coherent(c) && id in c.schemas
    ensures var (u, s) := (Upto(c, id), c.schemas[id]);
      Upto(c, id + 1) == Contents(id + 1, u.ids[s.name := id], u.schemas[id := s], u.indexes)
  {
    assert TableOk(c, id) && Used(c, id);
    forall n | n in c.indexes ensures c.indexes[n].storage != id { assert IndexOk(c, n); }
    forall n | n in c.ids ensures c.ids[n] == id <==> n == c.schemas[id].name { }
    assert id >= 1 && NextId(c, id + 1) == id + 1;
    hide Coherent, Used, NextId, TableOk, IndexOk;
  }

  /** Taking in an index's row. */
  lemma UptoIndex(c: Contents, n: Name)
    requires Coherent(c) && n in c.indexes
    ensures var (id, u) := (c.indexes[n].storage, Upto(c, c.indexes[n].storage));
      Upto(c, id + 1) == Contents(id + 1, u.ids, u.schemas, u.indexes[n := c.indexes[n]])
  {
    var id := c.indexes[n].storage;
    assert IndexOk(c, n) && Used(c, id);
    forall n' | n' in c.indexes ensures c.indexes[n'].storage == id <==> n' == n { }
    forall n' | n' in c.ids ensures c.ids[n'] != id { }
    assert id >= 1 && NextId(c, id + 1) == id + 1;
    hide Coherent, Used, NextId, TableOk, IndexOk;
  }

  ghost predicate IsTableRow(c: Contents, id: int, row: Row) {
    id in c.schemas && TableOk(c, id) && row == SchemaRow(c.schemas[id])
  }

  ghost predicate IsIndexRow(c: Contents, n: Name, id: int, row: Row) {
    n in c.indexes && IndexOk(c, n) && c.indexes[n].storage == id && row == IndexRow(c.indexes[n])
  }

  /** The kind field tells the row of a table from that of an index. */
  lemma RowOfId(rows: Rows, c: Contents, id: int)
    requires Coherent(c) && Describes(rows, c) && id in rows
    ensures rows[id] != [] && rows[id][0].Int?
    ensures rows[id][0].v == 0 ==> IsTableRow(c, id, rows[id])
    ensures rows[id][0].v != 0 ==> exists n :: IsIndexRow(c, n, id, rows[id])
  {
    assert Used(c, id);
    if id in c.schemas {
      assert TableRow(rows, c, id);
    } else {
      var n :| n in c.indexes && c.indexes[n].storage == id;
      assert StorageRow(rows, c, n);
      assert IsIndexRow(c, n, id, rows[id]);
    }
  }

  lemma UsedIsPk(c: Contents, id: int)
    requires Coherent(c) && Used(c, id)
    ensures IsPk(id) && PackKey(CATALOG_TABLE_ID, id) == id
  {
    ModOfSmall(id, KEY_SPACE);
  }

  /** The columns a table's row lists. */
  method ReadColumns(row: Row, ghost s: TableSchema) returns (columns: seq<ColumnDef>)
    requires SmallTable(s.name, s.columns) && row == SchemaRow(s)
    ensures columns == s.columns
  {
    ColumnsRowParts(s.columns);
    columns := [];
    for i := 0 to row[2].v
      invariant columns == s.columns[..i]
    {
      assert row[3 + i * 2] == ColumnsRow(s.columns)[2 * i] && row[3 + i * 2 + 1] == ColumnsRow(s.columns)[2 * i + 1];
      columns := columns + [ColumnDef(row[3 + i * 2].s, if row[3 + i * 2 + 1].v == 0 then INT64 else TEXT)];
    }
  }

  /** A table's row, column by column. */
  method BuildRow(s: TableSchema) returns (row: Row)
    requires SmallTable(s.name, s.columns)
    ensures row == SchemaRow(s)
  {
    row := [Int(0), Text(s.name), Int(|s.columns|)];
    for i := 0 to |s.columns|
      invariant row == [Int(0), Text(s.name), Int(|s.columns|)] + ColumnsRow(s.columns[..i])
    {
      var j := i + 1;
      assert s.columns[..j][..i] == s.columns[..i];
      row := row + [Text(s.columns[i].name), Int(TypeCode(s.columns[i].typ))];
    }
    assert s.columns[..|s.columns|] == s.columns;
  }

  lemma IndexEncodes(i: IndexInfo)
    requires SmallIndex(i)
    ensures Encodable(IndexRow(i))
  {
  }

  method ReadIndex(row: Row, ghost i: IndexInfo) returns (info: IndexInfo)
    requires SmallIndex(i) && row == IndexRow(i)
    ensures info == i
  {
    info := IndexInfo(row[1].s, row[2].v, row[3].v, row[4].v);
  }

  class Catalog {
    const store: GappedArray<seq<byte>>
    var nextId: int
    var ids: map<Name, int>
    var schemas: map<int, TableSchema>
    var indexes: map<Name, IndexInfo>

    ghost function Now(): Contents
      reads this
    {
      Contents(nextId, ids, schemas, indexes)
    }

    /** The maps say what the store's own rows say. */
    ghost predicate Valid()
      reads this, store
    {
      store.Valid() && Recorded(store.Model(), Now())
    }

    /** Rebuilds the catalog from the rows an earlier one left: the same maps and the same next id. */
    constructor LoadExisting(store: GappedArray<seq<byte>>, ghost c: Contents)
      requires store.Valid() && Coherent(c) && Describes(RowsOf(store.Model(), CATALOG_TABLE_ID), c)
      ensures this.store == store && Valid() && Now() == c
    {
      this.store := store;
      nextId, ids, schemas, indexes := 1, map[], map[], map[];
      new;
      Load(c);
    }

    method Load(ghost c: Contents)
      requires store.Valid() && Coherent(c) && Describes(RowsOf(store.Model(), CATALOG_TABLE_ID), c)
      requires Now() == EMPTY_CATALOG
      modifies this
      ensures Now() == c
    {
      ghost var m := store.Model();
      PackedSize(CATALOG_TABLE_ID, 0);
      var scan := store.RangeScan(PackKey(CATALOG_TABLE_ID, 0), PackKey(CATALOG_TABLE_ID, PRIMARY_KEY_MASK));
      ScanLists(scan, m, CATALOG_TABLE_ID, 0, PRIMARY_KEY_MASK);
      LoadRows(scan, m, c);
    }

    method LoadRows(scan: seq<(int, seq<byte>)>, ghost m: Store, ghost c: Contents)
      requires Coherent(c) && Describes(RowsOf(m, CATALOG_TABLE_ID), c)
      requires Lists(scan, m, CATALOG_TABLE_ID, 0, PRIMARY_KEY_MASK) && Now() == EMPTY_CATALOG
      modifies this
      ensures Now() == c
    {
      hide Coherent, Describes, Lists, Upto, NextId, RowsOf, PackKey, UnpackPrimaryKey, Stored;
      ghost var bound := 1;
      NothingBelowOne(c);
      for i := 0 to |scan|
        invariant Now() == Upto(c, bound) && bound >= 1
        invariant if i == 0 then bound == 1 else bound == UnpackPrimaryKey(scan[i - 1].0) + 1
      {
        NextScanned(scan, m, c, i, bound);
        var id := UnpackPrimaryKey(scan[i].0);
        LoadRow(scan[i].1, id, c, RowsOf(m, CATALOG_TABLE_ID));
        bound := id + 1;
      }
      AllScanned(scan, m, c, bound);
    }

    method LoadRow(raw: seq<byte>, id: int, ghost c: Contents, ghost rows: Rows)
      requires Coherent(c) && Describes(rows, c) && id in rows && Stored(raw) == rows[id]
      requires Now() == Upto(c, id) && NextId(c, id) <= id
      modifies this
      ensures Now() == Upto(c, id + 1)
    {
      RowOfId(rows, c, id);
      var d := DecodeRow(raw);
      var row := d.row;
      assert row == rows[id];
      hide Coherent, Describes, Upto, NextId, IsTableRow, IsIndexRow, Stored;
      if row[0].v == 0 {
        LoadTable(row, id, c);
      } else {
        ghost var n :| IsIndexRow(c, n, id, row);
        LoadIndex(row, id, c, n);
      }
    }

    method NoteTable(schema: TableSchema)
      modifies this
      ensures var c := old(Now());
        Now() == Contents(if schema.id >= c.nextId then schema.id + 1 else c.nextId,
                          c.ids[schema.name := schema.id], c.schemas[schema.id := schema], c.indexes)
    {
      ids := ids[schema.name := schema.id];
      schemas := schemas[schema.id := schema];
      if schema.id >= nextId { nextId := schema.id + 1; }
    }

    method NoteIndex(info: IndexInfo)
      modifies this
      ensures var c := old(Now());
        Now() == Contents(if info.storage >= c.nextId then info.storage + 1 else c.nextId,
                          c.ids, c.schemas, c.indexes[info.name := info])
    {
      indexes := indexes[info.name := info];
      if info.storage >= nextId { nextId := info.storage + 1; }
    }

    method LoadTable(row: Row, id: int, ghost c: Contents)
      requires Coherent(c) && IsTableRow(c, id, row)
      requires Now() == Upto(c, id) && NextId(c, id) <= id
      modifies this
      ensures Now() == Upto(c, id + 1)
    {
      UptoTable(c, id);
      var columns := ReadColumns(row, c.schemas[id]);
      var schema := TableSchema(id, row[1].s, columns);
      assert Now().nextId <= id && schema == c.schemas[id];
      hide *;
      NoteTable(schema);
    }

    method LoadIndex(row: Row, id: int, ghost c: Contents, ghost n: Name)
      requires Coherent(c) && IsIndexRow(c, n, id, row)
      requires Now() == Upto(c, id) && NextId(c, id) <= id
      modifies this
      ensures Now() == Upto(c, id + 1)
    {
      UptoIndex(c, n);
      var info := ReadIndex(row, c.indexes[n]);
      assert Now().nextId <= info.storage == id && info.name == n;
      hide *;
      NoteIndex(info);
    }

    /** Adds a table and gives its id; -1 for a name already in use. */
    method CreateTable(name: Name, columns: seq<ColumnDef>) returns (id: int)
      requires Valid() && nextId < MAX_TABLES && SmallTable(name, columns)
      modifies this, store
      ensures store.Valid() && Recorded(store.Model(), Now())
      ensures name in old(ids) ==> id == -1 && Now() == old(Now()) && store.Model() == old(store.Model())
      ensures name !in old(ids) ==> id == old(nextId) && Now() == WithTable(old(Now()), name, columns)
      ensures name !in old(ids) ==> OnlyPart(old(store.Model()), store.Model(), CATALOG_TABLE_ID)
    {
      if name in ids { return -1; }
      id := nextId;
      var schema := TableSchema(id, name, columns);
      var row := BuildRow(schema);
      SchemaEncodes(schema);
      FreshId(store.Model(), Now());
      ghost var m, c := store.Model(), Now();
      assert c.nextId == id && name !in c.ids;
      hide *;
      Persist(id, row);
      RecordTable(m, c, name, columns, store.Model());
      RememberTable(schema);
    }

    method RememberTable(schema: TableSchema)
      requires schema.id == nextId
      modifies this
      ensures Now() == WithTable(old(Now()), schema.name, schema.columns)
    {
      nextId := nextId + 1;
      ids := ids[schema.name := schema.id];
      schemas := schemas[schema.id := schema];
    }

    /** Writes a catalog row. */
    method Persist(id: int, row: Row)
      requires store.Valid() && IsTableId(id) && Encodable(row)
      modifies store
      ensures store.Valid() && OnlyPart(old(store.Model()), store.Model(), CATALOG_TABLE_ID)
      ensures RowsOf(store.Model(), CATALOG_TABLE_ID) == RowsOf(old(store.Model()), CATALOG_TABLE_ID)[id := row]
    {
      var data := EncodeRow(row);
      RowRoundTrip(row);
      PutChangesOne(store.Model(), CATALOG_TABLE_ID, id, data);
      PackedSize(CATALOG_TABLE_ID, id);
      hide RowsOf, PackKey, EncodedRow, Decoding;
      store.Insert(PackKey(CATALOG_TABLE_ID, id), data);
    }

    /** Adds an index and gives its storage id; -1 for a name already in use. */
    method CreateIndex(name: Name, table: int, col: nat) returns (storage: int)
      requires Valid() && nextId < MAX_TABLES && |name| < TWO_32 && col < TWO_32 && IsTableId(table)
      modifies this, store
      ensures store.Valid() && Recorded(store.Model(), Now())
      ensures name in old(indexes) ==> storage == -1 && Now() == old(Now()) && store.Model() == old(store.Model())
      ensures name !in old(indexes) ==> storage == old(nextId) && Now() == WithIndex(old(Now()), name, table, col)
      ensures name !in old(indexes) ==> OnlyPart(old(store.Model()), store.Model(), CATALOG_TABLE_ID)
    {
      if name in indexes { return -1; }
      storage := nextId;
      var info := IndexInfo(name, table, col, storage);
      var row := IndexRow(info);
      IndexEncodes(info);
      FreshId(store.Model(), Now());
      ghost var m, c := store.Model(), Now();
      assert c.nextId == storage && name !in c.indexes && row == IndexRow(info) && IsTableId(table);
      hide *;
      Persist(storage, row);
      RecordIndex(m, c, name, table, col, store.Model());
      RememberIndex(info);
    }

    method RememberIndex(info: IndexInfo)
      requires info.storage == nextId
      modifies this
      ensures Now() == WithIndex(old(Now()), info.name, info.table, info.col)
    {
      nextId := nextId + 1;
      indexes := indexes[info.name := info];
    }

    method GetTable(name: Name) returns (found: bool, schema: TableSchema)
      requires Coherent(Now())
      ensures found <==> name in ids
      ensures found ==> ids[name] in schemas && schema == schemas[ids[name]] && schema.name == name
    {
      found := name in ids;
      if found { schema := schemas[ids[name]]; } else { schema := TableSchema(0, [], []); }
    }

    /** The indexes on a table, each once, in some order. */
    method IndexesForTable(table: int) returns (infos: seq<IndexInfo>)
      requires Coherent(Now())
      ensures OnTable(infos, indexes, table)
    {
      infos := [];
      var left := indexes.Keys;
      while left != {}
        invariant left <= indexes.Keys
        invariant forall n :: n in indexes && n !in left && indexes[n].table == table ==> indexes[n] in infos
        invariant forall i :: 0 <= i < |infos| ==> InfoOk(infos[i], indexes, table) && infos[i].name !in left
        invariant forall i, j :: 0 <= i < j < |infos| ==> infos[i].storage != infos[j].storage
        decreases |left|
      {
        PickOne(left);
        var n :| n in left;
        if indexes[n].table == table {
          assert IndexOk(Now(), n);
          forall i | 0 <= i < |infos| ensures infos[i].storage != indexes[n].storage {
            var k :| k in indexes && indexes[k] == infos[i];
            assert IndexOk(Now(), k);
          }
          infos := infos + [indexes[n]];
        }
        left := left - {n};
      }
    }

    /** Some index on a column, if there is one. */
    method FindIndexForColumn(table: int, col: int) returns (found: bool, info: IndexInfo)
      ensures found <==> exists n :: n in indexes && indexes[n].table == table && indexes[n].col == col
      ensures found ==> InfoOk(info, indexes, table) && info.col == col
    {
      var left := indexes.Keys;
      while left != {}
        invariant left <= indexes.Keys
        invariant forall n :: n in indexes && n !in left ==> indexes[n].table != table || indexes[n].col != col
        decreases |left|
      {
        PickOne(left);
        var n :| n in left;
        if indexes[n].table == table && indexes[n].col == col { return true, indexes[n]; }
        left := left - {n};
      }
      return false, IndexInfo([], 0, 0, 0);
    }
  }

  ghost predicate InfoOk(info: IndexInfo, indexes: map<Name, IndexInfo>, table: int) {
    info.table == table && exists n :: n in indexes && indexes[n] == info
  }

  ghost predicate OnTable(infos: seq<IndexInfo>, indexes: map<Name, IndexInfo>, table: int) {
    && (forall n :: n in indexes && indexes[n].table == table ==> indexes[n] in infos)
    && (forall i :: 0 <= i < |infos| ==> InfoOk(infos[i], indexes, table))
    && (forall i, j :: 0 <= i < j < |infos| ==> infos[i].storage != infos[j].storage)
  }

  lemma PickOne<T>(s: set<T>)
    requires s != {}
    ensures exists x :: x in s
  {
  }

  lemma SchemaEncodes(s: TableSchema)
    requires SmallTable(s.name, s.columns)
    ensures Encodable(SchemaRow(s))
  {
    ColumnsRowParts(s.columns);
    var cols := ColumnsRow(s.columns);
    forall i | 0 <= i < |cols| ensures FitsRow(cols[i]) {
      assert cols[i] == cols[2 * (i / 2)] || cols[i] == cols[2 * (i / 2) + 1];
    }
  }

  lemma NothingBelowOne(c: Contents)
    requires Coherent(c)
    ensures Upto(c, 1) == EMPTY_CATALOG
  {
    forall id | id in c.schemas ensures id >= 1 { assert Used(c, id); }
    forall n | n in c.indexes ensures c.indexes[n].storage >= 1 { assert Used(c, c.indexes[n].storage); }
  }

  lemma {:induction false} NextIdBound(c: Contents, bound: int)
    requires bound >= 1
    ensures NextId(c, bound) <= bound
    decreases bound
  {
    if bound > 1 { NextIdBound(c, bound - 1); }
  }

  /** Between one scanned row and the next no id is in use. */
  lemma NextScanned(scan: seq<(int, seq<byte>)>, m: Store, c: Contents, i: nat, bound: int)
    requires Coherent(c) && Describes(RowsOf(m, CATALOG_TABLE_ID), c)
    requires Lists(scan, m, CATALOG_TABLE_ID, 0, PRIMARY_KEY_MASK) && i < |scan|
    requires if i == 0 then bound == 1 else bound == UnpackPrimaryKey(scan[i - 1].0) + 1
    ensures var id := UnpackPrimaryKey(scan[i].0);
      && id in RowsOf(m, CATALOG_TABLE_ID) && RowsOf(m, CATALOG_TABLE_ID)[id] == Stored(scan[i].1)
      && id >= bound >= 1 && Upto(c, id) == Upto(c, bound) && NextId(c, id) <= id
  {
    var id := UnpackPrimaryKey(scan[i].0);
    assert ListsAt(scan[i], m, CATALOG_TABLE_ID, 0, PRIMARY_KEY_MASK);
    assert Used(c, id);
    UsedIsPk(c, id);
    if i > 0 {
      assert ListsAt(scan[i - 1], m, CATALOG_TABLE_ID, 0, PRIMARY_KEY_MASK);
      assert Used(c, UnpackPrimaryKey(scan[i - 1].0));
      UsedIsPk(c, UnpackPrimaryKey(scan[i - 1].0));
      assert scan[i - 1].0 < scan[i].0;
    }
    forall u | bound <= u < id ensures !Used(c, u) { NotScannedBetween(scan, m, c, i, bound, u); }
    UptoSkips(c, bound, id);
    NextIdBound(c, id);
  }

  lemma NotScannedBetween(scan: seq<(int, seq<byte>)>, m: Store, c: Contents, i: nat, bound: int, u: int)
    requires Coherent(c) && Describes(RowsOf(m, CATALOG_TABLE_ID), c)
    requires Lists(scan, m, CATALOG_TABLE_ID, 0, PRIMARY_KEY_MASK) && i <= |scan|
    requires i > 0 ==> scan[i - 1].0 < u
    requires u >= 1 && (i < |scan| ==> u < scan[i].0)
    ensures !Used(c, u)
  {
    if Used(c, u) {
      UsedIsPk(c, u);
      assert u in RowsOf(m, CATALOG_TABLE_ID);
      ListedAt(scan, m, u);
    }
    hide Coherent, Describes, Lists, Used, RowsOf;
    NoKeyBetween(scan, i, u);
  }

  lemma ListedAt(scan: seq<(int, seq<byte>)>, m: Store, u: int)
    requires Lists(scan, m, CATALOG_TABLE_ID, 0, PRIMARY_KEY_MASK) && u in RowsOf(m, CATALOG_TABLE_ID) && IsPk(u)
    requires PackKey(CATALOG_TABLE_ID, u) == u
    ensures HasKey(scan, u)
  {
  }

  lemma NoKeyBetween(scan: seq<(int, seq<byte>)>, i: nat, u: int)
    requires SortedEntries(scan) && i <= |scan|
    requires (i > 0 ==> scan[i - 1].0 < u) && (i < |scan| ==> u < scan[i].0)
    ensures !HasKey(scan, u)
  {
    forall j | 0 <= j < |scan| ensures scan[j].0 != u {
      if j < i - 1 { assert scan[j].0 < scan[i - 1].0; }
      if j > i { assert scan[i].0 < scan[j].0; }
    }
  }

  lemma AllScanned(scan: seq<(int, seq<byte>)>, m: Store, c: Contents, bound: int)
    requires Coherent(c) && Describes(RowsOf(m, CATALOG_TABLE_ID), c)
    requires Lists(scan, m, CATALOG_TABLE_ID, 0, PRIMARY_KEY_MASK)
    requires if |scan| == 0 then bound == 1 else bound == UnpackPrimaryKey(scan[|scan| - 1].0) + 1
    ensures Upto(c, bound) == c
  {
    var n := |scan|;
    if n > 0 {
      assert ListsAt(scan[n - 1], m, CATALOG_TABLE_ID, 0, PRIMARY_KEY_MASK);
      assert Used(c, UnpackPrimaryKey(scan[n - 1].0));
      UsedIsPk(c, UnpackPrimaryKey(scan[n - 1].0));
    }
    forall u | bound <= u < c.nextId ensures !Used(c, u) { NotScannedBetween(scan, m, c, n, bound, u); }
    UptoSkips(c, bound, c.nextId);
    UptoAll(c);
  }
}
