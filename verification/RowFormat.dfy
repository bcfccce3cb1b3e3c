/** The binary row format (cpp/row_format.h): each value is a type tag and its bytes. */
module RowFormat {
  import opened Bytes

  datatype ColumnType = INT64 | TEXT

  datatype Value = Int(v: int64) | Text(s: seq<byte>)

  function TypeOf(v: Value): ColumnType {
    if v.Int? then INT64 else TEXT
  }

  type Row = seq<Value>

  function EncodeValue(v: Value): seq<byte> {
    if v.Int? then [0] + I64(v.v) else [1] + (U32(|v.s|) + v.s)
  }

  function EncodedRow(row: Row): seq<byte> {
    if row == [] then [] else EncodeValue(row[0]) + EncodedRow(row[1..])
  }

  method EncodeRow(values: Row) returns (out: seq<byte>)
    ensures out == EncodedRow(values)
  {
    hide EncodeValue;
    out := [];
    assert values[0..] == values;
    for i := 0 to |values|
      invariant out + EncodedRow(values[i..]) == EncodedRow(values)
    {
      var rest := values[i..];
      assert rest[0] == values[i] && rest[1..] == values[i + 1..];
      ConcatAssoc(out, EncodeValue(values[i]), EncodedRow(rest[1..]));
      out := AppendValue(out, values[i]);
    }
  }

  /** The tag first, then the value's bytes. */
  method AppendValue(before: seq<byte>, v: Value) returns (out: seq<byte>)
    ensures out == before + EncodeValue(v)
  {
    if v.Int? {
      out := before + [0];
      ConcatAssoc(before, [0], I64(v.v));
      out := out + I64(v.v);
    } else {
      out := before + [1];
      ConcatAssoc(before, [1], U32(|v.s|) + v.s);
      ConcatAssoc(before + [1], U32(|v.s|), v.s);
      out := out + U32(|v.s|);
      out := out + v.s;
    }
  }

  datatype Cut = INT_BYTES | TEXT_LENGTH | TEXT_BYTES

  datatype Decoded = Truncated(what: Cut) | Ok(row: Row)

  /** One value off the front: any tag but 0 is read as text. */
  datatype Front = Short(what: Cut) | Front(v: Value, len: nat)

  function FrontValue(data: seq<byte>): (f: Front)
    requires data != []
    ensures f.Front? ==> 0 < f.len <= |data|
  {
    if data[0] == 0 then
      if |data| < 9 then Short(INT_BYTES) else Front(Int(ReadI64(data[1..9])), 9)
    else if |data| < 5 then Short(TEXT_LENGTH)
    else
      var len := ReadU32(data[1..5]);
      if 5 + len > |data| then Short(TEXT_BYTES) else Front(Text(data[5..5 + len]), 5 + len)
  }

  function DecodeFrom(before: Row, data: seq<byte>): Decoded
    decreases |data|
  {
    if data == [] then Ok(before)
    else
      match FrontValue(data)
      case Short(what) => Truncated(what)
      case Front(v, len) => DecodeFrom(before + [v], data[len..])
  }

  /** What decoding these bytes gives; RowRoundTrip says what that means. */
  function Decoding(data: seq<byte>): Decoded {
    DecodeFrom([], data)
  }

  method DecodeRow(data: seq<byte>) returns (d: Decoded)
    ensures d == Decoding(data)
  {
    hide FrontValue;
    var values: Row := [];
    var pos: nat := 0;
    assert data[0..] == data;
    while pos < |data|
      invariant pos <= |data|
      invariant DecodeFrom(values, data[pos..]) == Decoding(data)
    {
      var f := ReadValue(data, pos);
      if f.Short? { return Truncated(f.what); }
      DropDrop(data, pos, f.len);
      values := values + [f.v];
      pos := pos + f.len;
    }
    return Ok(values);
  }

  /** The value at pos: its tag, then as many bytes as the tag and the length ask for. */
  method ReadValue(data: seq<byte>, pos: nat) returns (f: Front)
    requires pos < |data|
    ensures f == FrontValue(data[pos..])
  {
    hide ReadI64, ReadU32;
    assert data[pos..] == data[pos..|data|];
    if data[pos] == 0 {
      if pos + 9 > |data| { return Short(INT_BYTES); }
      SliceOfSlice(data, pos, |data|, 1, 9);
      return Front(Int(ReadI64(data[pos + 1..pos + 9])), 9);
    }
    if pos + 5 > |data| { return Short(TEXT_LENGTH); }
    SliceOfSlice(data, pos, |data|, 1, 5);
    var len: nat := ReadU32(data[pos + 1..pos + 5]);
    if pos + 5 + len > |data| { return Short(TEXT_BYTES); }
    SliceOfSlice(data, pos, |data|, 5, 5 + len);
    return Front(Text(data[pos + 5..pos + 5 + len]), 5 + len);
  }

  // ---- The round trip ----

  predicate FitsRow(v: Value) {
    v.Text? ==> |v.s| < TWO_32
  }

  ghost predicate Encodable(row: Row) {
    forall i :: 0 <= i < |row| ==> FitsRow(row[i])
  }

  /** Decoding undoes encoding exactly for rows whose texts are all under 4 GiB. */
  lemma RowRoundTrip(row: Row)
    ensures Decoding(EncodedRow(row)) == Ok(row) <==> Encodable(row)
  {
    RowDecodes([], row);
    assert [] + row == row;
  }

  lemma {:induction false} RowDecodes(before: Row, row: Row)
    ensures DecodeFrom(before, EncodedRow(row)) == Ok(before + row) <==> Encodable(row)
    decreases row
  {
    if row == [] {
      assert before + row == before;
    } else {
      var v, rest := row[0], EncodedRow(row[1..]);
      var data := EncodeValue(v) + rest;
      FrontOfEncoded(v, rest);
      hide EncodeValue, FrontValue;
      if FitsRow(v) {
        assert data[|EncodeValue(v)|..] == rest;
        RowDecodes(before + [v], row[1..]);
        assert before + [v] + row[1..] == before + row;
        assert Encodable(row) <==> Encodable(row[1..]) by {
          if Encodable(row[1..]) { forall i | 0 <= i < |row| ensures FitsRow(row[i]) { if i > 0 { assert row[1..][i - 1] == row[i]; } } }
          if Encodable(row) { forall i | 0 <= i < |row| - 1 ensures FitsRow(row[1..][i]) { assert row[1..][i] == row[i + 1]; } }
        }
      } else {
        var f := FrontValue(data);
        DecodeKeeps(before + [f.v], data[f.len..]);
        var d := DecodeFrom(before + [f.v], data[f.len..]);
        assert d.Ok? ==> d.row[|before|] == (before + [f.v])[|before|] == f.v;
        assert (before + row)[|before|] == v;
      }
    }
  }

  /** Decoding only adds values. */
  lemma {:induction false} DecodeKeeps(before: Row, data: seq<byte>)
    ensures DecodeFrom(before, data).Ok? ==> before <= DecodeFrom(before, data).row
    decreases |data|
  {
    if data != [] && FrontValue(data).Front? {
      var f := FrontValue(data);
      DecodeKeeps(before + [f.v], data[f.len..]);
    }
  }

  /** Off the front of encoded values comes the first one, unless its text was too long to say so. */
  lemma FrontOfEncoded(v: Value, rest: seq<byte>)
    ensures var f, e := FrontValue(EncodeValue(v) + rest), EncodeValue(v);
      e != [] && f.Front? && (if FitsRow(v) then f == Front(v, |e|) else f.v != v)
  {
    var data := EncodeValue(v) + rest;
    if v.Int? {
      I64RoundTrip(v.v);
      hide I64, ReadI64;
      assert data[1..9] == I64(v.v);
    } else {
      var n := |v.s|;
      U32RoundTrip(n);
      hide U32, ReadU32;
      ConcatAssoc([1], U32(n) + v.s, rest);
      assert data[1..5] == U32(n);
      if n < TWO_32 {
        assert data[5..5 + n] == v.s;
      } else {
        assert ReadU32(data[1..5]) < n;
        assert |FrontValue(data).v.s| < n;
      }
    }
  }
}
