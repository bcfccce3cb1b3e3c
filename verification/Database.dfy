/** What the executor keeps true of a store and a catalog (cpp/executor.h): rows that fit their
    tables, and indexes whose entries are exactly the packed pairs of value and primary key of
    the rows; and what a WHERE clause asks for. */
module Database {
  import opened Bytes
  import opened Slots
  import opened TableKey
  import opened RowFormat
  import opened TableView
  import opened TableCatalog

  // ---- WHERE ----

  datatype CompareOp = EQ | LT | GT | LE | GE | BETWEEN

  /** No clause, or a column compared with a literal or two. */
  datatype Where = All | Where(column: Name, op: CompareOp, value: Value, value2: Value)

  /** The first column of that name, or -1. */
  function FindColumn(columns: seq<ColumnDef>, name: Name): (r: int)
    ensures -1 <= r < |columns|
    ensures r >= 0 ==> columns[r].name == name && forall i :: 0 <= i < r ==> columns[i].name != name
    ensures r < 0 ==> forall i :: 0 <= i < |columns| ==> columns[i].name != name
  {
    if columns == [] then -1
    else
      var n := |columns| - 1;
      var before := FindColumn(columns[..n], name);
      if before >= 0 then before else if columns[n].name == name then n else -1
  }

  /** Bytes in dictionary order. */
  function CompareText(a: seq<byte>, b: seq<byte>): int {
    if a == [] then (if b == [] then 0 else -1)
    else if b == [] then 1
    else if a[0] < b[0] then -1
    else if a[0] > b[0] then 1
    else CompareText(a[1..], b[1..])
  }

  /** Two values of one type: negative, zero or positive. */
  function Compare(a: Value, b: Value): int {
    if a.Int? && b.Int? then (if a.v < b.v then -1 else if a.v > b.v then 1 else 0)
    else if a.Text? && b.Text? then CompareText(a.s, b.s)
    else if a.Int? then 1 else -1
  }

  /** The row is asked for. A column that does not exist matches nothing. */
  predicate Matches(columns: seq<ColumnDef>, row: Row, w: Where) {
    if w.All? then true
    else
      var col := FindColumn(columns, w.column);
      if col < 0 || col >= |row| then false
      else
        var v := row[col];
        match w.op
        case EQ => Compare(v, w.value) == 0
        case LT => Compare(v, w.value) < 0
        case GT => Compare(v, w.value) > 0
        case LE => Compare(v, w.value) <= 0
        case GE => Compare(v, w.value) >= 0
        case BETWEEN => Compare(v, w.value) >= 0 && Compare(v, w.value2) <= 0
  }

  /** The clause names a real column and compares it with literals of its type. */
  predicate WhereOk(columns: seq<ColumnDef>, w: Where) {
    w.All? ||
    (var col := FindColumn(columns, w.column);
     col >= 0 && TypeOf(w.value) == columns[col].typ && (w.op.BETWEEN? ==> TypeOf(w.value2) == columns[col].typ))
  }

  /** The rows with primary keys in a range that the clause asks for. */
  ghost function Picked(rows: Rows, lo: int, hi: int, columns: seq<ColumnDef>, w: Where): Rows {
    map pk | pk in rows && lo <= pk <= hi && Matches(columns, rows[pk], w) :: rows[pk]
  }

  /** A filtered scan of the whole table: what every access path must mean. */
  ghost function Selected(rows: Rows, columns: seq<ColumnDef>, w: Where): Rows {
    map pk | pk in rows && Matches(columns, rows[pk], w) :: rows[pk]
  }

  // ---- Rows that fit ----

  ghost predicate RowFits(columns: seq<ColumnDef>, pk: int, row: Row) {
    && |row| == |columns| > 0
    && (forall i :: 0 <= i < |row| ==> TypeOf(row[i]) == columns[i].typ)
    && row[0].Int? && row[0].v == pk
    && Encodable(row)
  }

  /** There is a primary key, column 0, of type INT. */
  predicate GoodColumns(columns: seq<ColumnDef>) {
    |columns| > 0 && columns[0].typ.INT64?
  }

  ghost predicate TableFits(m: Store, s: TableSchema) {
    GoodColumns(s.columns) && forall pk :: pk in RowsOf(m, s.id) ==> RowFits(s.columns, pk, RowsOf(m, s.id)[pk])
  }

  /** A row an index on column col can pack. The primary key itself is never checked against the
      20 bits an index packs values into. */
  ghost predicate Indexable(pk: int, row: Row, col: nat) {
    0 <= pk <= SECONDARY_PK_MASK && (col != 0 ==> 0 <= IntAt(row, col) <= SECONDARY_VALUE_MASK)
  }

  ghost predicate IndexFits(m: Store, c: Contents, i: IndexInfo) {
    && i.table in c.schemas
    && i.col < |c.schemas[i.table].columns| && c.schemas[i.table].columns[i.col].typ.INT64?
    && forall pk :: pk in RowsOf(m, i.table) ==> Indexable(pk, RowsOf(m, i.table)[pk], i.col)
  }

  /** The index's entries are exactly the packed pairs of its rows. */
  ghost predicate IndexRight(m: Store, i: IndexInfo) {
    EntriesOf(m, i.storage) == Expected(RowsOf(m, i.table), i.col)
  }

  ghost predicate RowsRight(m: Store, c: Contents) {
    && Coherent(c)
    && (forall id :: id in c.schemas ==> TableFits(m, c.schemas[id]))
    && (forall n :: n in c.indexes ==> IndexFits(m, c, c.indexes[n]))
    && (forall id :: id >= c.nextId ==> RowsOf(m, id) == map[])
  }

  ghost predicate IndexesRight(m: Store, c: Contents) {
    forall n :: n in c.indexes ==> IndexRight(m, c.indexes[n])
  }

  /** Column col of a table has an index. */
  ghost predicate HasIndex(c: Contents, table: int, col: int) {
    exists n :: n in c.indexes && c.indexes[n].table == table && c.indexes[n].col == col
  }

  ghost predicate Indexed(c: Contents, table: int) {
    exists n :: n in c.indexes && c.indexes[n].table == table
  }

  /** A value the table can store in column col. */
  ghost predicate ValueOk(c: Contents, s: TableSchema, col: int, v: Value)
    requires 0 <= col < |s.columns|
  {
    && TypeOf(v) == s.columns[col].typ
    && (col == 0 && v.Int? ==> 0 <= v.v <= if Indexed(c, s.id) then SECONDARY_PK_MASK else PRIMARY_KEY_MASK)
    && (col != 0 && v.Int? && HasIndex(c, s.id, col) ==> 0 <= v.v <= SECONDARY_VALUE_MASK)
  }

  // ---- What one write changes ----

  /** A table's rows changed to rows that fit, and parts of indexes: the rest stays right. */
  lemma KeepsRows(m: Store, m': Store, c: Contents, id: int)
    requires RowsRight(m, c) && id in c.schemas
    requires forall t :: t != id && (t in c.schemas || t >= c.nextId) ==> RowsOf(m', t) == RowsOf(m, t)
    requires forall pk :: pk in RowsOf(m', id) ==> RowFits(c.schemas[id].columns, pk, RowsOf(m', id)[pk])
    requires forall n :: n in c.indexes && c.indexes[n].table == id ==>
      forall pk :: pk in RowsOf(m', id) ==> Indexable(pk, RowsOf(m', id)[pk], c.indexes[n].col)
    ensures RowsRight(m', c)
  {
    assert TableOk(c, id) && Used(c, id);
    forall t | t in c.schemas ensures TableFits(m', c.schemas[t]) { assert TableOk(c, t) && TableFits(m, c.schemas[t]); }
    forall n | n in c.indexes ensures IndexFits(m', c, c.indexes[n]) { assert IndexFits(m, c, c.indexes[n]); }
  }
}
