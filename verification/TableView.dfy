/** What the store's packed keys mean: each table's rows by primary key, and each index's entries. */
module TableView {
  import opened Bytes
  import opened Slots
  import opened TableKey
  import opened RowFormat

  type Store = map<int, seq<byte>>
  type Rows = map<int, Row>

  /** The row stored bytes decode to. */
  ghost function Stored(data: seq<byte>): Row {
    if Decoding(data).Ok? then Decoding(data).row else []
  }

  ghost function RowsOf(m: Store, t: int): Rows {
    map pk | 0 <= pk <= PRIMARY_KEY_MASK && PackKey(t, pk) in m :: Stored(m[PackKey(t, pk)])
  }

  /** The packed entries under an index's storage id. */
  ghost function EntriesOf(m: Store, s: int): set<int> {
    RowsOf(m, s).Keys
  }

  lemma PutChangesOne(m: Store, t: int, pk: int, data: seq<byte>)
    requires IsPk(pk)
    ensures RowsOf(m[PackKey(t, pk) := data], t) == RowsOf(m, t)[pk := Stored(data)]
    ensures OnlyPart(m, m[PackKey(t, pk) := data], t)
  {
    hide PackKey, Stored, OnlyPart;
    OthersUnchanged(m, m[PackKey(t, pk) := data], t, pk);
    forall q | 0 <= q <= PRIMARY_KEY_MASK ensures PackKey(t, q) == PackKey(t, pk) <==> q == pk { PackOrder(t, q, t, pk); }
  }

  lemma RemoveChangesOne(m: Store, t: int, pk: int)
    requires IsPk(pk)
    ensures RowsOf(m - {PackKey(t, pk)}, t) == RowsOf(m, t) - {pk}
    ensures OnlyPart(m, m - {PackKey(t, pk)}, t)
  {
    hide PackKey, Stored, OnlyPart;
    OthersUnchanged(m, m - {PackKey(t, pk)}, t, pk);
    forall q | 0 <= q <= PRIMARY_KEY_MASK ensures PackKey(t, q) == PackKey(t, pk) <==> q == pk { PackOrder(t, q, t, pk); }
  }

  ghost predicate SameBut(m: Store, m': Store, key: int) {
    m' - {key} == m - {key}
  }

  /** Nothing changes outside one table's part of the store. */
  ghost predicate OnlyPart(m: Store, m': Store, t: int) {
    forall u :: u != t ==> RowsOf(m', u) == RowsOf(m, u)
  }

  /** A key of one table is nobody else's. */
  lemma OthersUnchanged(m: Store, m': Store, t: int, pk: int)
    requires IsPk(pk) && SameBut(m, m', PackKey(t, pk))
    ensures OnlyPart(m, m', t)
  {
    forall u | u != t ensures RowsOf(m', u) == RowsOf(m, u) { OtherUnchanged(m, m', t, pk, u); }
  }

  lemma OtherUnchanged(m: Store, m': Store, t: int, pk: int, u: int)
    requires IsPk(pk) && u != t && SameBut(m, m', PackKey(t, pk))
    ensures RowsOf(m', u) == RowsOf(m, u)
  {
    hide PackKey, Stored;
    var key := PackKey(t, pk);
    forall q | 0 <= q <= PRIMARY_KEY_MASK
      ensures (PackKey(u, q) in m <==> PackKey(u, q) in m') && (PackKey(u, q) in m ==> m[PackKey(u, q)] == m'[PackKey(u, q)])
    {
      PackOrder(u, q, t, pk);
      assert PackKey(u, q) in m <==> PackKey(u, q) in m - {key};
      assert PackKey(u, q) in m' <==> PackKey(u, q) in m' - {key};
      if PackKey(u, q) in m { assert (m - {key})[PackKey(u, q)] == m[PackKey(u, q)]; }
      if PackKey(u, q) in m' { assert (m' - {key})[PackKey(u, q)] == m'[PackKey(u, q)]; }
    }
  }

  // ---- Rows and index entries ----

  function IntAt(row: Row, c: nat): int {
    if c < |row| && row[c].Int? then row[c].v else 0
  }

  /** The entries an index on column c should have. */
  ghost function Expected(rows: Rows, c: nat): set<int> {
    set pk | pk in rows :: PackComposite(IntAt(rows[pk], c), pk)
  }

  ghost predicate Packable(rows: Rows) {
    forall pk :: pk in rows ==> 0 <= pk <= SECONDARY_PK_MASK
  }

  lemma ExpectedRemove(rows: Rows, c: nat, pk: int)
    requires Packable(rows) && pk in rows
    ensures Expected(rows - {pk}, c) == Expected(rows, c) - {PackComposite(IntAt(rows[pk], c), pk)}
    ensures PackComposite(IntAt(rows[pk], c), pk) in Expected(rows, c)
  {
    hide PackComposite, IntAt;
    forall q | q in rows && q != pk
      ensures PackComposite(IntAt(rows[q], c), q) != PackComposite(IntAt(rows[pk], c), pk)
    {
      CompositeOrder(IntAt(rows[q], c), q, IntAt(rows[pk], c), pk);
    }
    var fewer, gone := rows - {pk}, PackComposite(IntAt(rows[pk], c), pk);
    forall e | e in Expected(rows, c) && e != gone ensures e in Expected(fewer, c) {
      var q :| q in rows && e == PackComposite(IntAt(rows[q], c), q);
      assert q in fewer && fewer[q] == rows[q];
    }
    forall e | e in Expected(fewer, c) ensures e in Expected(rows, c) && e != gone {
      var q :| q in fewer && e == PackComposite(IntAt(fewer[q], c), q);
      assert fewer[q] == rows[q];
    }
  }

  lemma ExpectedAdd(rows: Rows, c: nat, pk: int, row: Row)
    requires pk !in rows
    ensures Expected(rows[pk := row], c) == Expected(rows, c) + {PackComposite(IntAt(row, c), pk)}
  {
    hide PackComposite, IntAt;
    var more := rows[pk := row];
    forall q | q in rows ensures q in more && more[q] == rows[q] { }
    assert pk in more && more[pk] == row;
  }

  /** Replacing a row, or adding one. */
  lemma ExpectedPut(rows: Rows, c: nat, pk: int, row: Row)
    requires Packable(rows) && 0 <= pk <= SECONDARY_PK_MASK
    ensures var e := if pk in rows then Expected(rows, c) - {PackComposite(IntAt(rows[pk], c), pk)} else Expected(rows, c);
      Expected(rows[pk := row], c) == e + {PackComposite(IntAt(row, c), pk)}
  {
    hide PackComposite, IntAt;
    var rest := rows - {pk};
    if pk in rows { ExpectedRemove(rows, c, pk); } else { assert rest == rows; }
    ExpectedAdd(rest, c, pk, row);
    assert rest[pk := row] == rows[pk := row];
  }

  /** An entry for a key with another row's value is not expected. */
  lemma OnlyItsOwnEntry(rows: Rows, c: nat, pk: int, v: int)
    requires Packable(rows) && 0 <= pk <= SECONDARY_PK_MASK && PackComposite(v, pk) in Expected(rows, c)
    ensures pk in rows && PackComposite(v, pk) == PackComposite(IntAt(rows[pk], c), pk)
  {
    hide PackComposite, IntAt;
    var q :| q in rows && PackComposite(v, pk) == PackComposite(IntAt(rows[q], c), q);
    CompositeOrder(v, pk, IntAt(rows[q], c), q);
  }

  // ---- Scans ----

  /** The rows a scan between two packed keys of a table lists. */
  ghost predicate Lists(scan: seq<(int, seq<byte>)>, m: Store, t: int, lo: int, hi: int) {
    && SortedEntries(scan)
    && (forall i :: 0 <= i < |scan| ==> ListsAt(scan[i], m, t, lo, hi))
    && (forall pk :: pk in RowsOf(m, t) && lo <= pk <= hi ==> HasKey(scan, PackKey(t, pk)))
  }

  ghost predicate ListsAt(e: (int, seq<byte>), m: Store, t: int, lo: int, hi: int) {
    var pk := UnpackPrimaryKey(e.0);
    e.0 == PackKey(t, pk) && lo <= pk <= hi && pk in RowsOf(m, t) && RowsOf(m, t)[pk] == Stored(e.1)
  }

  /** A range scan between them lists exactly the table's rows in the range. */
  lemma ScanLists(scan: seq<(int, seq<byte>)>, m: Store, t: int, lo: int, hi: int)
    requires IsPk(lo) && IsPk(hi) && SortedEntries(scan)
    requires MapOf(scan) == Restrict(m, PackKey(t, lo), PackKey(t, hi))
    ensures Lists(scan, m, t, lo, hi)
  {
    MapOfSorted(scan);
    forall i | 0 <= i < |scan| ensures ListsAt(scan[i], m, t, lo, hi) {
      assert scan[i].0 in MapOf(scan);
      PackedRange(t, lo, hi, scan[i].0);
    }
    forall pk | pk in RowsOf(m, t) && lo <= pk <= hi ensures HasKey(scan, PackKey(t, pk)) {
      PackedRange(t, lo, hi, PackKey(t, pk));
      Unpacks(t, pk);
      assert PackKey(t, pk) in MapOf(scan);
      MapKeys(scan, PackKey(t, pk));
    }
  }
}
