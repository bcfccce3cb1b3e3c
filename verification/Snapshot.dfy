/** Snapshots (cpp/snapshot.h): the whole store in key order, with a checksum over
    everything after the magic string. Reading is modelled on the whole file's bytes. */
module Snapshot {
  import opened Bytes
  import opened Slots

  type Row = (int, seq<byte>)

  /** "LIDXSNP1" */
  function Magic(): (r: seq<byte>)
    ensures |r| == MAGIC_LEN
  {
    [76, 73, 68, 88, 83, 78, 80, 49]
  }

  const MAGIC_LEN: nat := 8
  const COUNT_LEN: nat := 8
  const ROW_HEADER: nat := 12 // key, value length
  const CRC_LEN: nat := 4

  function RowBytes(row: Row): seq<byte> {
    I64(row.0) + U32(|row.1|) + row.1
  }

  function RowsBytes(rows: seq<Row>): seq<byte> {
    if rows == [] then [] else RowsBytes(rows[..|rows| - 1]) + RowBytes(rows[|rows| - 1])
  }

  function Body(rows: seq<Row>): seq<byte> {
    U64(|rows|) + RowsBytes(rows)
  }

  /** The file write_snapshot produces. */
  function SnapshotBytes(crc: Crc, rows: seq<Row>): seq<byte> {
    Magic() + Body(rows) + U32(crc(Body(rows)))
  }

  /** Appending row by row, as the writer's loop does. */
  method WriteSnapshot(crc: Crc, rows: seq<Row>) returns (buf: seq<byte>)
    ensures buf == SnapshotBytes(crc, rows)
  {
    buf := Magic() + U64(|rows|);
    for i := 0 to |rows|
      invariant buf == Magic() + (U64(|rows|) + RowsBytes(rows[..i]))
    {
      var j := i + 1;
      assert rows[..j][..i] == rows[..i];
      buf := buf + I64(rows[i].0);
      buf := buf + U32(|rows[i].1|);
      buf := buf + rows[i].1;
    }
    assert rows[..|rows|] == rows;
    assert buf[MAGIC_LEN..] == Body(rows);
    buf := buf + U32(crc(buf[MAGIC_LEN..]));
  }

  /** Rows a snapshot can carry: in key order, keys and sizes within their fields. */
  ghost predicate Storable(rows: seq<Row>) {
    && SortedEntries(rows)
    && |rows| < TWO_64
    && forall i :: 0 <= i < |rows| ==> Fits(rows[i])
  }

  ghost predicate Fits(row: Row) {
    -TWO_63 <= row.0 < TWO_63 && |row.1| < TWO_32
  }

  datatype Fault = BAD_HEADER | CHECKSUM_MISMATCH | ENTRY_CUT_SHORT | VALUE_CUT_SHORT | KEYS_OUT_OF_ORDER | TRAILING_BYTES

  datatype Outcome = Damaged(why: Fault) | Loaded(rows: seq<Row>)

  /** What parsing count more rows from rest gives, after the rows read before. */
  function ReadRows(rest: seq<byte>, count: nat, before: seq<Row>): Outcome {
    if count == 0 then (if rest == [] then Loaded(before) else Damaged(TRAILING_BYTES))
    else if |rest| < ROW_HEADER then Damaged(ENTRY_CUT_SHORT)
    else
      var key, len := ReadI64(rest[..8]), ReadU32(rest[8..12]);
      if len > |rest| - ROW_HEADER then Damaged(VALUE_CUT_SHORT)
      else if before != [] && key <= before[|before| - 1].0 then Damaged(KEYS_OUT_OF_ORDER)
      else ReadRows(rest[ROW_HEADER + len..], count - 1, before + [(key, rest[ROW_HEADER..ROW_HEADER + len])])
  }

  /** What reading these bytes gives. ReadsExactly says what that means. */
  function Reading(crc: Crc, buf: seq<byte>): Outcome {
    if |buf| < MAGIC_LEN + COUNT_LEN + CRC_LEN || buf[..MAGIC_LEN] != Magic() then Damaged(BAD_HEADER)
    else
      var end := |buf| - CRC_LEN;
      if ReadU32(buf[end..]) != crc(buf[MAGIC_LEN..end]) then Damaged(CHECKSUM_MISMATCH)
      else ReadRows(buf[16..end], ReadU64(buf[8..16]), [])
  }

  /** The reader's cursor loop. */
  method ReadSnapshot(crc: Crc, buf: seq<byte>) returns (r: Outcome)
    ensures r == Reading(crc, buf)
  {
    if |buf| < MAGIC_LEN + COUNT_LEN + CRC_LEN || buf[..MAGIC_LEN] != Magic() { return Damaged(BAD_HEADER); }
    var bodyEnd := |buf| - CRC_LEN;
    var stored := ReadU32(buf[bodyEnd..]);
    if stored != crc(buf[MAGIC_LEN..bodyEnd]) { return Damaged(CHECKSUM_MISMATCH); }
    var count := ReadU64(buf[8..16]);
    var pos: nat := MAGIC_LEN + COUNT_LEN;
    var rows: seq<Row> := [];
    hide ReadI64, ReadU32, ReadU64;
    for i := 0 to count
      invariant MAGIC_LEN + COUNT_LEN <= pos <= bodyEnd
      invariant ReadRows(buf[pos..bodyEnd], count - i, rows) == Reading(crc, buf)
    {
      if bodyEnd - pos < ROW_HEADER { return Damaged(ENTRY_CUT_SHORT); }
      var key, len := ReadI64(buf[pos..pos + 8]), ReadU32(buf[pos + 8..pos + 12]);
      ReadStep(buf, pos, bodyEnd, count - i, rows);
      pos := pos + ROW_HEADER;
      if len > bodyEnd - pos { return Damaged(VALUE_CUT_SHORT); }
      if rows != [] && key <= rows[|rows| - 1].0 { return Damaged(KEYS_OUT_OF_ORDER); }
      rows := rows + [(key, buf[pos..pos + len])];
      pos := pos + len;
    }
    if pos != bodyEnd { return Damaged(TRAILING_BYTES); }
    return Loaded(rows);
  }

  /** One step of the parse, in terms of the whole buffer. */
  lemma ReadStep(buf: seq<byte>, pos: nat, end: nat, count: nat, before: seq<Row>)
    requires pos + ROW_HEADER <= end <= |buf| && count > 0
    ensures var key, len := ReadI64(buf[pos..pos + 8]), ReadU32(buf[pos + 8..pos + 12]);
      var from := pos + ROW_HEADER;
      ReadRows(buf[pos..end], count, before) ==
      if len > end - from then Damaged(VALUE_CUT_SHORT)
      else if before != [] && key <= before[|before| - 1].0 then Damaged(KEYS_OUT_OF_ORDER)
      else ReadRows(buf[from + len..end], count - 1, before + [(key, buf[from..from + len])])
  {
    hide ReadI64, ReadU32;
    SliceOfSlice(buf, pos, end, 0, 8);
    SliceOfSlice(buf, pos, end, 8, 12);
    var len := ReadU32(buf[pos + 8..pos + 12]);
    if pos + ROW_HEADER + len <= end {
      SliceOfSlice(buf, pos, end, ROW_HEADER, ROW_HEADER + len);
      SliceOfSlice(buf, pos, end, ROW_HEADER + len, end - pos);
    }
  }

  // ---- The reader accepts exactly what the writer writes ----

  /** A file loads as these rows exactly when they are storable and it is their snapshot. */
  lemma ReadsExactly(crc: Crc, buf: seq<byte>, rows: seq<Row>)
    ensures Reading(crc, buf) == Loaded(rows) <==> Storable(rows) && buf == SnapshotBytes(crc, rows)
  {
    if Storable(rows) && buf == SnapshotBytes(crc, rows) { WrittenLoads(crc, rows); }
    if Reading(crc, buf) == Loaded(rows) { LoadedWasWritten(crc, buf, rows); }
  }

  lemma WrittenLoads(crc: Crc, rows: seq<Row>)
    requires Storable(rows)
    ensures Reading(crc, SnapshotBytes(crc, rows)) == Loaded(rows)
  {
    U64RoundTrip(|rows|);
    hide Reading, SnapshotBytes, ReadRows, RowsBytes, U64, ReadU64;
    SnapshotReading(crc, rows);
    AllRowsLoad(rows);
  }

  lemma AllRowsLoad(rows: seq<Row>)
    requires Storable(rows)
    ensures ReadRows(RowsBytes(rows), |rows|, []) == Loaded(rows)
  {
    var rest := RowsBytes(rows);
    assert RowsBytes([]) + rest == rest;
    hide ReadRows, RowsBytes, Storable;
    assert rows[..0] == [];
    RowsLoad(rows, 0, rest);
  }

  lemma SnapshotReading(crc: Crc, rows: seq<Row>)
    ensures Reading(crc, SnapshotBytes(crc, rows)) == ReadRows(RowsBytes(rows), ReadU64(U64(|rows|)), [])
  {
    var check := crc(Body(rows));
    U32RoundTrip(check);
    assert ReadU32(U32(check)) == check;
    hide Reading, U32, U64, ReadU32, ReadU64, ReadRows, RowsBytes, Magic;
    FramedReading(crc, U64(|rows|), RowsBytes(rows), U32(check));
  }

  /** Where the parts of a file lie. */
  lemma Framed(magic: seq<byte>, count: seq<byte>, rows: seq<byte>, check: seq<byte>)
    requires |magic| == MAGIC_LEN && |count| == COUNT_LEN && |check| == CRC_LEN
    ensures var buf := magic + (count + rows) + check;
      var end := |buf| - CRC_LEN;
      && |buf| >= 20 && buf[..MAGIC_LEN] == magic && buf[MAGIC_LEN..end] == count + rows && buf[end..] == check
      && buf[8..16] == count && buf[16..end] == rows
  {
  }

  lemma FramedReading(crc: Crc, count: seq<byte>, rows: seq<byte>, check: seq<byte>)
    requires |count| == COUNT_LEN && |check| == CRC_LEN && ReadU32(check) == crc(count + rows)
    ensures Reading(crc, Magic() + (count + rows) + check) == ReadRows(rows, ReadU64(count), [])
  {
    hide ReadU32, ReadU64, ReadRows;
    Framed(Magic(), count, rows, check);
  }

  lemma Reframed(buf: seq<byte>)
    requires |buf| >= 20
    ensures var end := |buf| - CRC_LEN;
      && buf == buf[..8] + (buf[8..16] + buf[16..end]) + buf[end..]
      && buf[8..16] + buf[16..end] == buf[8..end]
  {
  }

  /** Reading the rows from i on, given the bytes that follow the first i rows. */
  lemma {:induction false} RowsLoad(rows: seq<Row>, i: nat, rest: seq<byte>)
    requires Storable(rows) && i <= |rows| && RowsBytes(rows) == RowsBytes(rows[..i]) + rest
    ensures ReadRows(rest, |rows| - i, rows[..i]) == Loaded(rows)
    decreases |rows| - i
  {
    if i == |rows| {
      assert rows[..i] == rows;
      assert |rest| == 0;
    } else {
      var row := rows[i];
      hide I64, U32, ReadI64, ReadU32, ReadRows, SortedEntries, RowBytes;
      RowsSplit(rows, i, rest);
      var rest' := rest[|RowBytes(row)|..];
      assert i > 0 ==> KeyBelow(rows, i) by { Below(rows, i); }
      RowReads(rest, |rows| - i, rows[..i], row);
      RowsLoad(rows, i + 1, rest');
      assert rows[..i + 1] == rows[..i] + [row];
    }
  }

  ghost predicate KeyBelow(rows: seq<Row>, i: nat)
    requires 0 < i < |rows|
  {
    rows[i - 1].0 < rows[i].0
  }

  lemma Below(rows: seq<Row>, i: nat)
    requires SortedEntries(rows) && i < |rows|
    ensures i > 0 ==> KeyBelow(rows, i)
  {
  }

  /** The bytes after the first i rows start with row i's. */
  lemma RowsSplit(rows: seq<Row>, i: nat, rest: seq<byte>)
    requires i < |rows| && RowsBytes(rows) == RowsBytes(rows[..i]) + rest
    ensures var row := RowBytes(rows[i]);
      |row| <= |rest| && rest[..|row|] == row && RowsBytes(rows) == RowsBytes(rows[..i + 1]) + rest[|row|..]
  {
    var row := RowBytes(rows[i]);
    assert rows[..i + 1][..i] == rows[..i];
    RowsPrefix(rows, i + 1);
    assert RowsBytes(rows[..i + 1]) == RowsBytes(rows[..i]) + row;
    hide RowsBytes, RowBytes;
    CancelPrefix(RowsBytes(rows[..i]), row, rest);
  }

  /** One written row reads back. */
  lemma RowReads(rest: seq<byte>, count: nat, before: seq<Row>, row: Row)
    requires count > 0 && Fits(row) && |RowBytes(row)| <= |rest| && rest[..|RowBytes(row)|] == RowBytes(row)
    requires before == [] || before[|before| - 1].0 < row.0
    ensures ReadRows(rest, count, before) == ReadRows(rest[|RowBytes(row)|..], count - 1, before + [row])
  {
    var b, len := RowBytes(row), |row.1|;
    I64RoundTrip(row.0);
    U32RoundTrip(len);
    hide I64, U32, ReadI64, ReadU32, ReadRows;
    SliceOfSlice(rest, 0, |b|, 0, 8);
    SliceOfSlice(rest, 0, |b|, 8, 12);
    SliceOfSlice(rest, 0, |b|, ROW_HEADER, ROW_HEADER + len);
    RowParts(I64(row.0), U32(len), row.1);
    hide RowBytes;
    RowStep(rest, count, before);
  }

  lemma RowParts(key: seq<byte>, len: seq<byte>, value: seq<byte>)
    requires |key| == 8 && |len| == 4
    ensures var b := key + len + value;
      b[0..8] == key && b[8..12] == len && b[12..12 + |value|] == value
  {
  }

  lemma RowStep(rest: seq<byte>, count: nat, before: seq<Row>)
    requires count > 0 && |rest| >= ROW_HEADER && ReadU32(rest[8..12]) <= |rest| - ROW_HEADER
    requires before == [] || before[|before| - 1].0 < ReadI64(rest[..8])
    ensures var len := ReadU32(rest[8..12]);
      ReadRows(rest, count, before)
      == ReadRows(rest[ROW_HEADER + len..], count - 1, before + [(ReadI64(rest[..8]), rest[ROW_HEADER..ROW_HEADER + len])])
  {
  }

  /** The first rows' bytes are a prefix of all the rows' bytes. */
  lemma {:induction false} RowsPrefix(rows: seq<Row>, i: nat)
    requires i <= |rows|
    ensures |RowsBytes(rows[..i])| <= |RowsBytes(rows)|
    ensures RowsBytes(rows)[..|RowsBytes(rows[..i])|] == RowsBytes(rows[..i])
  {
    if i == |rows| {
      assert rows[..i] == rows;
    } else {
      var n := |rows| - 1;
      RowsPrefix(rows[..n], i);
      assert rows[..n][..i] == rows[..i];
    }
  }

  lemma LoadedWasWritten(crc: Crc, buf: seq<byte>, rows: seq<Row>)
    requires Reading(crc, buf) == Loaded(rows)
    ensures Storable(rows) && buf == SnapshotBytes(crc, rows)
  {
    var end := |buf| - CRC_LEN;
    var count := ReadU64(buf[8..16]);
    WrittenAgain(buf[8..16]);
    WrittenAgain(buf[end..]);
    FromLEBound(buf[8..16]);
    Widths();
    hide LE, FromLE, ReadU32, U32, U64, ReadRows;
    RowsWritten(buf[16..end], count, [], rows);
    hide RowsBytes;
    Reframed(buf);
    assert RowsBytes([]) + buf[16..end] == buf[16..end];
  }

  lemma {:induction false} RowsWritten(rest: seq<byte>, count: nat, before: seq<Row>, rows: seq<Row>)
    requires ReadRows(rest, count, before) == Loaded(rows)
    requires SortedEntries(before) && forall i :: 0 <= i < |before| ==> Fits(before[i])
    ensures |rows| == |before| + count && SortedEntries(rows)
    ensures forall i :: 0 <= i < |rows| ==> Fits(rows[i])
    ensures RowsBytes(rows) == RowsBytes(before) + rest
    decreases count
  {
    if count > 0 {
      var len := ReadU32(rest[8..12]);
      var row: Row := (ReadI64(rest[..8]), rest[ROW_HEADER..ROW_HEADER + len]);
      RowStep(rest, count, before);
      RowWritten(rest, len, row);
      RowsSnoc(before, row);
      SortedSnoc(before, row);
      hide SortedEntries, Fits, I64, U32, ReadI64, ReadU32, ReadRows, RowBytes, RowsBytes;
      var more, after := before + [row], rest[ROW_HEADER + len..];
      RowsWritten(after, count - 1, more, rows);
      ConcatAssoc(RowsBytes(before), RowBytes(row), after);
    }
  }

  lemma SortedSnoc(before: seq<Row>, row: Row)
    requires SortedEntries(before) && Fits(row) && (before == [] || before[|before| - 1].0 < row.0)
    requires forall i :: 0 <= i < |before| ==> Fits(before[i])
    ensures SortedEntries(before + [row])
    ensures var more := before + [row]; forall i :: 0 <= i < |more| ==> Fits(more[i])
  {
  }

  lemma RowsSnoc(rows: seq<Row>, row: Row)
    ensures RowsBytes(rows + [row]) == RowsBytes(rows) + RowBytes(row)
  {
    assert (rows + [row])[..|rows|] == rows;
  }

  /** The bytes a row was read from are the bytes writing it gives. */
  lemma RowWritten(rest: seq<byte>, len: nat, row: Row)
    requires |rest| >= ROW_HEADER && len == ReadU32(rest[8..12]) <= |rest| - ROW_HEADER
    requires row == (ReadI64(rest[..8]), rest[ROW_HEADER..ROW_HEADER + len])
    ensures Fits(row) && rest == RowBytes(row) + rest[ROW_HEADER + len..]
  {
    WrittenAgain(rest[..8]);
    WrittenAgain(rest[8..12]);
    hide I64, U32, ReadI64, ReadU32;
  }
}
