/** The write-ahead log (cpp/write_ahead_log.h): its byte format, scanning and tail-cut
    recovery. The checksum is any function from bytes to 32 bits, so nothing here depends on
    how good it is; what it must do is stated in the checksum module. */
module WriteAheadLog {
  import opened Bytes

  datatype Kind = PUT | DELETE

  datatype WalRecord = WalRecord(kind: Kind, key: int64, value: seq<byte>)

  const MAGIC_LEN: nat := 8
  const HEADER_LEN: nat := 13 // type, key, value length
  const CRC_LEN: nat := 4

  /** "LIDXWAL2" */
  function Magic(): (r: seq<byte>)
    ensures |r| == MAGIC_LEN
  {
    [76, 73, 68, 88, 87, 65, 76, 50]
  }

  function Tag(k: Kind): byte {
    if k.PUT? then 0 else 1
  }

  /** The value as stored: its length goes through a 32-bit cast. */
  function Stored(value: seq<byte>): seq<byte> {
    value[..|value| % TWO_32]
  }

  function Body(r: WalRecord): seq<byte> {
    [Tag(r.kind)] + I64(r.key) + U32(|r.value|) + Stored(r.value)
  }

  function Encode(crc: Crc, r: WalRecord): seq<byte> {
    Body(r) + U32(crc(Body(r)))
  }

  function EncodeAll(crc: Crc, rs: seq<WalRecord>): seq<byte> {
    if rs == [] then [] else Encode(crc, rs[0]) + EncodeAll(crc, rs[1..])
  }

  /** The bytes of a log holding exactly these records. */
  function LogBytes(crc: Crc, rs: seq<WalRecord>): seq<byte> {
    Magic() + EncodeAll(crc, rs)
  }

  datatype First = Bad | Good(r: WalRecord, len: nat)

  /** The record at the front of buf, if it is whole and checks out. */
  function FirstRecord(crc: Crc, buf: seq<byte>): (f: First)
    ensures f.Good? ==> HEADER_LEN + CRC_LEN <= f.len <= |buf|
  {
    if |buf| < HEADER_LEN + CRC_LEN then Bad
    else
      var key, len := ReadI64(buf[1..9]), ReadU32(buf[9..13]);
      if len > |buf| - HEADER_LEN - CRC_LEN then Bad
      else if ReadU32(buf[HEADER_LEN + len..HEADER_LEN + len + CRC_LEN]) != crc(buf[..HEADER_LEN + len]) then Bad
      else if buf[0] != 0 && buf[0] != 1 then Bad
      else Good(WalRecord(if buf[0] == 0 then PUT else DELETE, key, buf[HEADER_LEN..HEADER_LEN + len]),
                HEADER_LEN + len + CRC_LEN)
  }

  datatype Parsed = Parsed(records: seq<WalRecord>, end: nat)

  /** The records that can be read before one is bad, and where they end. */
  function Parse(crc: Crc, buf: seq<byte>): (p: Parsed)
    ensures p.end <= |buf|
  {
    match FirstRecord(crc, buf)
    case Bad => Parsed([], 0)
    case Good(r, len) =>
      var rest := Parse(crc, buf[len..]);
      Parsed([r] + rest.records, len + rest.end)
  }

  // ---- One record ----

  /** Reading back a written record gives what was stored of it, whatever follows. */
  lemma FirstOfEncoded(crc: Crc, r: WalRecord, rest: seq<byte>)
    ensures FirstRecord(crc, Encode(crc, r) + rest) == Good(r.(value := Stored(r.value)), |Encode(crc, r)|)
    ensures |Encode(crc, r)| == HEADER_LEN + |Stored(r.value)| + CRC_LEN
  {
    var v, body := Stored(r.value), Body(r);
    var buf := Encode(crc, r) + rest;
    I64RoundTrip(r.key);
    U32RoundTrip(|r.value|);
    U32RoundTrip(crc(body));
    assert buf[1..9] == I64(r.key);
    assert buf[9..13] == U32(|r.value|);
    assert buf[..HEADER_LEN + |v|] == body;
    assert buf[HEADER_LEN + |v|..HEADER_LEN + |v| + CRC_LEN] == U32(crc(body));
    assert buf[HEADER_LEN..HEADER_LEN + |v|] == v;
  }

  /** A record survives the round trip exactly when its value is shorter than 4 GiB. */
  lemma RecordRoundTrip(crc: Crc, r: WalRecord)
    ensures FirstRecord(crc, Encode(crc, r)) == Good(r, |Encode(crc, r)|) <==> |r.value| < TWO_32
  {
    FirstOfEncoded(crc, r, []);
    assert Encode(crc, r) + [] == Encode(crc, r);
    if |r.value| < TWO_32 { assert Stored(r.value) == r.value; }
    if |r.value| >= TWO_32 { assert |Stored(r.value)| < |r.value|; }
  }

  /** A record cut short anywhere is not read as a record. */
  lemma TornRecordIsBad(crc: Crc, r: WalRecord, n: nat)
    requires n < |Encode(crc, r)|
    ensures FirstRecord(crc, Encode(crc, r)[..n]) == Bad
  {
    var full := Encode(crc, r);
    FirstOfEncoded(crc, r, []);
    if n >= HEADER_LEN + CRC_LEN {
      assert full[..n][9..13] == full[9..13] == U32(|r.value|);
      U32RoundTrip(|r.value|);
    }
  }

  // ---- Whole logs ----

  ghost predicate Storable(rs: seq<WalRecord>) {
    forall i :: 0 <= i < |rs| ==> |rs[i].value| < TWO_32
  }

  /** How many records lie wholly within the first n bytes of their encoding. */
  ghost function WholeRecords(crc: Crc, rs: seq<WalRecord>, n: nat): (m: nat)
    ensures m <= |rs|
  {
    if rs == [] || n < |Encode(crc, rs[0])| then 0
    else 1 + WholeRecords(crc, rs[1..], n - |Encode(crc, rs[0])|)
  }

  /** What WholeRecords means: the longest run of records that fits in n bytes. */
  lemma {:induction false} WholeRecordsIsLongest(crc: Crc, rs: seq<WalRecord>, n: nat)
    ensures var m := WholeRecords(crc, rs, n);
      |EncodeAll(crc, rs[..m])| <= n && (m < |rs| ==> |EncodeAll(crc, rs[..m + 1])| > n)
  {
    if rs != [] {
      var len := |Encode(crc, rs[0])|;
      if n >= len {
        WholeRecordsIsLongest(crc, rs[1..], n - len);
        var m := WholeRecords(crc, rs[1..], n - len);
        TakeStep(crc, rs, m);
        if m < |rs[1..]| { TakeStep(crc, rs, m + 1); }
      } else {
        assert rs[..1][1..] == [];
      }
    }
  }

  /** Scanning any byte prefix of written records returns exactly the wholly contained ones. */
  lemma {:induction false} ParsePrefix(crc: Crc, rs: seq<WalRecord>, n: nat)
    requires Storable(rs) && n <= |EncodeAll(crc, rs)|
    ensures var m := WholeRecords(crc, rs, n);
      Parse(crc, EncodeAll(crc, rs)[..n]) == Parsed(rs[..m], |EncodeAll(crc, rs[..m])|)
  {
    hide Encode, FirstRecord;
    if rs == [] {
      assert EncodeAll(crc, rs)[..n] == [];
    } else if n < |Encode(crc, rs[0])| {
      TornRecordIsBad(crc, rs[0], n);
      assert EncodeAll(crc, rs)[..n] == Encode(crc, rs[0])[..n] && rs[..0] == [];
    } else {
      var first, rest := Encode(crc, rs[0]), EncodeAll(crc, rs[1..]);
      var k := n - |first|;
      var m := WholeRecords(crc, rs[1..], k);
      TakeStep(crc, rs, m);
      ParsePrefix(crc, rs[1..], k);
      EncodedStep(crc, rs[0], rest[..k]);
      assert EncodeAll(crc, rs)[..n] == first + rest[..k];
    }
  }

  lemma TakeStep(crc: Crc, rs: seq<WalRecord>, m: nat)
    requires rs != [] && m < |rs|
    ensures rs[..m + 1] == [rs[0]] + rs[1..][..m]
    ensures EncodeAll(crc, rs[..m + 1]) == Encode(crc, rs[0]) + EncodeAll(crc, rs[1..][..m])
  {
    hide Encode;
    assert rs[..m + 1][1..] == rs[1..][..m];
  }

  /** Parsing a written record and what follows it. */
  lemma EncodedStep(crc: Crc, r: WalRecord, tail: seq<byte>)
    requires |r.value| < TWO_32
    ensures var p := Parse(crc, tail);
      Parse(crc, Encode(crc, r) + tail) == Parsed([r] + p.records, |Encode(crc, r)| + p.end)
  {
    SmallMod(|r.value|, TWO_32);
    assert Stored(r.value) == r.value;
    FirstOfEncoded(crc, r, tail);
    hide FirstRecord, Encode, Parse;
    var e := Encode(crc, r);
    ParseStep(crc, e + tail, r, |e|);
    assert (e + tail)[|e|..] == tail;
  }

  // ---- Arbitrary bytes ----

  /** Good records are decided by their own bytes, whatever follows. */
  lemma FirstIgnoresTail(crc: Crc, buf: seq<byte>, tail: seq<byte>)
    requires FirstRecord(crc, buf).Good?
    ensures FirstRecord(crc, buf + tail) == FirstRecord(crc, buf)
    ensures FirstRecord(crc, buf[..FirstRecord(crc, buf).len] + tail) == FirstRecord(crc, buf)
  {
    var len := FirstRecord(crc, buf).len;
    SameFirst(crc, buf, buf + tail, len);
    SameFirst(crc, buf, buf[..len] + tail, len);
  }

  lemma SameFirst(crc: Crc, a: seq<byte>, b: seq<byte>, len: nat)
    requires FirstRecord(crc, a).Good? && FirstRecord(crc, a).len == len <= |b| && a[..len] == b[..len]
    ensures FirstRecord(crc, b) == FirstRecord(crc, a)
  {
    hide ReadI64, ReadU32;
    assert a[1..9] == a[..len][1..9] == b[..len][1..9] == b[1..9];
    assert a[9..13] == a[..len][9..13] == b[..len][9..13] == b[9..13];
    assert a[0] == a[..len][0] == b[..len][0] == b[0];
    assert a[..len - 4] == a[..len][..len - 4] == b[..len][..len - 4] == b[..len - 4];
    assert a[len - 4..len] == a[..len][len - 4..] == b[..len][len - 4..] == b[len - 4..len];
    assert a[13..len - 4] == a[..len][13..len - 4] == b[..len][13..len - 4] == b[13..len - 4];
  }

  lemma ParseStep(crc: Crc, buf: seq<byte>, r: WalRecord, len: nat)
    requires FirstRecord(crc, buf) == Good(r, len)
    ensures Parse(crc, buf) == Parsed([r] + Parse(crc, buf[len..]).records, len + Parse(crc, buf[len..]).end)
  {
  }

  /** Cutting after the last good record and continuing with anything else parses as the good
      records followed by whatever the rest parses to. */
  lemma {:induction false} CutThenContinue(crc: Crc, buf: seq<byte>, tail: seq<byte>)
    ensures var p, q := Parse(crc, buf), Parse(crc, tail);
      Parse(crc, buf[..p.end] + tail) == Parsed(p.records + q.records, p.end + q.end)
    decreases |buf|
  {
    hide FirstRecord;
    var p, q := Parse(crc, buf), Parse(crc, tail);
    match FirstRecord(crc, buf)
    case Bad =>
      assert buf[..0] + tail == tail;
    case Good(r, len) =>
      var rest := Parse(crc, buf[len..]);
      var kept := buf[len..][..rest.end] + tail;
      var cut := buf[..len] + kept;
      ParseStep(crc, buf, r, len);
      CutThenContinue(crc, buf[len..], tail);
      FirstIgnoresTail(crc, buf, kept);
      CutInTwo(buf, len, rest.end, tail);
      ParseStep(crc, cut, r, len);
  }

  /** Recovery is stable: rescanning the cut file gives the same records and nothing to cut. */
  lemma CutIsStable(crc: Crc, buf: seq<byte>)
    ensures Parse(crc, buf[..Parse(crc, buf).end]) == Parse(crc, buf)
  {
    var p := Parse(crc, buf);
    CutThenContinue(crc, buf, []);
    assert buf[..p.end] + [] == buf[..p.end];
    assert p.records + [] == p.records;
  }

  /** Appending a record to a cut file adds exactly that record. */
  lemma AppendAfterCut(crc: Crc, buf: seq<byte>, r: WalRecord)
    requires |r.value| < TWO_32
    ensures var p := Parse(crc, buf);
      Parse(crc, buf[..p.end] + Encode(crc, r)) == Parsed(p.records + [r], p.end + |Encode(crc, r)|)
  {
    var e := Encode(crc, r);
    CutThenContinue(crc, buf, e);
    EncodedStep(crc, r, []);
    assert Parse(crc, []) == Parsed([], 0);
    hide Parse, Encode;
    assert e + [] == e;
  }

  // ---- The file as a whole ----

  datatype ScanResult = Refused | Scanned(records: seq<WalRecord>, validEnd: nat)

  /** scan(): refuses a file that does not start with the magic string (or a prefix of it). */
  function Scan(crc: Crc, file: seq<byte>): ScanResult {
    if |file| < MAGIC_LEN then (if file == Magic()[..|file|] then Scanned([], 0) else Refused)
    else if file[..MAGIC_LEN] != Magic() then Refused
    else
      var p := Parse(crc, file[MAGIC_LEN..]);
      Scanned(p.records, MAGIC_LEN + p.end)
  }

  /** What the loop has read and what is left make up the whole parse. */
  ghost predicate StillToScan(crc: Crc, buf: seq<byte>, records: seq<WalRecord>, pos: nat)
    requires MAGIC_LEN <= pos <= |buf|
  {
    var whole, rest := Parse(crc, buf[MAGIC_LEN..]), Parse(crc, buf[pos..]);
    records + rest.records == whole.records && pos + rest.end == MAGIC_LEN + whole.end
  }

  lemma ScanStep(crc: Crc, buf: seq<byte>, records: seq<WalRecord>, pos: nat, r: WalRecord, len: nat)
    requires MAGIC_LEN <= pos <= |buf| && StillToScan(crc, buf, records, pos)
    requires FirstRecord(crc, buf[pos..]) == Good(r, len)
    ensures pos + len <= |buf| && StillToScan(crc, buf, records + [r], pos + len)
  {
    hide FirstRecord;
    ParseStep(crc, buf[pos..], r, len);
    var rest := Parse(crc, buf[pos + len..]);
    assert buf[pos..][len..] == buf[pos + len..];
    assert records + ([r] + rest.records) == (records + [r]) + rest.records;
  }

  lemma ScanDone(crc: Crc, buf: seq<byte>, records: seq<WalRecord>, pos: nat)
    requires MAGIC_LEN <= pos <= |buf| && StillToScan(crc, buf, records, pos)
    requires buf[..MAGIC_LEN] == Magic() && FirstRecord(crc, buf[pos..]) == Bad
    ensures Scan(crc, buf) == Scanned(records, pos)
  {
    hide FirstRecord;
    assert records + [] == records;
  }

  /** The parsing loop with its moving position. */
  method ScanFile(crc: Crc, buf: seq<byte>) returns (ok: bool, records: seq<WalRecord>, validEnd: nat)
    ensures ok <==> Scan(crc, buf).Scanned?
    ensures ok ==> Scan(crc, buf) == Scanned(records, validEnd)
  {
    hide ReadI64, ReadU32, Parse;
    records, validEnd := [], 0;
    if |buf| < MAGIC_LEN { return buf == Magic()[..|buf|], [], 0; }
    if buf[..MAGIC_LEN] != Magic() { return false, [], 0; }
    var pos: nat := MAGIC_LEN;
    assert StillToScan(crc, buf, records, pos);
    hide StillToScan, Magic;
    while |buf| - pos >= HEADER_LEN + CRC_LEN
      invariant MAGIC_LEN <= pos <= |buf|
      invariant StillToScan(crc, buf, records, pos)
      decreases |buf| - pos
    {
      var rec := buf[pos..];
      var key, len := ReadI64(rec[1..9]), ReadU32(rec[9..13]);
      // check the length against what is left before trusting it
      if len > |buf| - pos - HEADER_LEN - CRC_LEN { break; }
      var storedCrc := ReadU32(rec[HEADER_LEN + len..HEADER_LEN + len + CRC_LEN]);
      if storedCrc != crc(rec[..HEADER_LEN + len]) { break; }
      if rec[0] != 0 && rec[0] != 1 { break; }
      var r := WalRecord(if rec[0] == 0 then PUT else DELETE, key, rec[HEADER_LEN..HEADER_LEN + len]);
      ScanStep(crc, buf, records, pos, r, HEADER_LEN + len + CRC_LEN);
      records := records + [r];
      pos := pos + HEADER_LEN + len + CRC_LEN;
    }
    ScanDone(crc, buf, records, pos);
    ok, validEnd := true, pos;
  }

  /** recover(): what opening leaves in the file. A short header prefix is rewritten whole,
      anything after the last good record is cut off. */
  function Recovered(crc: Crc, file: seq<byte>): seq<byte>
    requires Scan(crc, file).Scanned?
  {
    if |file| < MAGIC_LEN then Magic() else file[..Scan(crc, file).validEnd]
  }

  /** Opening keeps exactly the scanned records, and a second open changes nothing. */
  lemma RecoverKeepsRecords(crc: Crc, file: seq<byte>)
    requires Scan(crc, file).Scanned?
    ensures var f := Recovered(crc, file);
      && Scan(crc, f) == Scanned(Scan(crc, file).records, |f|)
      && Recovered(crc, f) == f
  {
    var f := Recovered(crc, file);
    if |file| < MAGIC_LEN {
      assert f[MAGIC_LEN..] == [] && f[..MAGIC_LEN] == Magic();
    } else {
      var body := file[MAGIC_LEN..];
      CutIsStable(crc, body);
      assert f[MAGIC_LEN..] == body[..Parse(crc, body).end] && f[..MAGIC_LEN] == Magic();
    }
  }

  /** A recovered log that gets another record holds the old records and the new one. */
  lemma AppendToRecovered(crc: Crc, file: seq<byte>, r: WalRecord)
    requires Scan(crc, file).Scanned? && |r.value| < TWO_32
    ensures var f := Recovered(crc, file) + Encode(crc, r);
      Scan(crc, f) == Scanned(Scan(crc, file).records + [r], |f|)
  {
    hide FirstRecord, Encode, Parse;
    var g := Recovered(crc, file);
    var f := g + Encode(crc, r);
    RecoverKeepsRecords(crc, file);
    var body := g[MAGIC_LEN..];
    assert body[..Parse(crc, body).end] == body;
    AppendAfterCut(crc, body, r);
    assert f[MAGIC_LEN..] == body + Encode(crc, r) && f[..MAGIC_LEN] == g[..MAGIC_LEN];
  }

  /** Any byte prefix of a written log opens, and recovers the wholly contained records. */
  lemma ScanPrefix(crc: Crc, rs: seq<WalRecord>, n: nat)
    requires Storable(rs) && n <= |LogBytes(crc, rs)|
    ensures var m := if n < MAGIC_LEN then 0 else WholeRecords(crc, rs, n - MAGIC_LEN);
      && Scan(crc, LogBytes(crc, rs)[..n]).Scanned?
      && Scan(crc, LogBytes(crc, rs)[..n]).records == rs[..m]
      && Recovered(crc, LogBytes(crc, rs)[..n]) == LogBytes(crc, rs[..m])
  {
    hide Parse, Encode, WholeRecords;
    var file := LogBytes(crc, rs)[..n];
    if n < MAGIC_LEN {
      assert file == Magic()[..n];
      assert EncodeAll(crc, rs[..0]) == [];
    } else {
      assert file[..MAGIC_LEN] == Magic() && file[MAGIC_LEN..] == EncodeAll(crc, rs)[..n - MAGIC_LEN];
      ParsePrefix(crc, rs, n - MAGIC_LEN);
      var m := WholeRecords(crc, rs, n - MAGIC_LEN);
      WholeRecordsIsLongest(crc, rs, n - MAGIC_LEN);
      EncodePrefix(crc, rs, m);
      assert file[..MAGIC_LEN + |EncodeAll(crc, rs[..m])|] == Magic() + EncodeAll(crc, rs)[..|EncodeAll(crc, rs[..m])|];
    }
  }

  lemma {:induction false} EncodePrefix(crc: Crc, rs: seq<WalRecord>, m: nat)
    requires m <= |rs|
    ensures |EncodeAll(crc, rs[..m])| <= |EncodeAll(crc, rs)|
    ensures EncodeAll(crc, rs)[..|EncodeAll(crc, rs[..m])|] == EncodeAll(crc, rs[..m])
  {
    if m > 0 {
      EncodePrefix(crc, rs[1..], m - 1);
      TakeStep(crc, rs, m - 1);
      hide Encode;
    }
  }

  lemma {:induction false} EncodeSnoc(crc: Crc, rs: seq<WalRecord>, r: WalRecord)
    ensures EncodeAll(crc, rs + [r]) == EncodeAll(crc, rs) + Encode(crc, r)
  {
    hide Encode;
    if rs == [] {
      assert [r][1..] == [] && [] + [r] == [r];
      assert EncodeAll(crc, [r]) == Encode(crc, r) + [];
    } else {
      EncodeSnoc(crc, rs[1..], r);
      assert (rs + [r])[1..] == rs[1..] + [r];
      ConcatAssoc(Encode(crc, rs[0]), EncodeAll(crc, rs[1..]), Encode(crc, r));
    }
  }
}
