/** The durability protocol as a state machine (cpp/durable_store.h, cpp/write_ahead_log.h,
    cpp/snapshot.h): every step a write or a checkpoint takes on disk, a process crash or a
    power loss between any two of them, and recovery. State after recovery is compared with the
    history of logged operations.

    A power loss keeps some prefix of a file, at least what was fsync'd; a rename or a truncation
    that was not fsync'd may be undone by it. A process crash keeps everything the system was
    handed. */
module StoreMachine {
  import opened Bytes
  import opened WriteAheadLog
  import opened ApplyLog

  /** A log file the disk may hold. The first two fields are physical. The others say what it
      means: its whole records, how many of them recovery needs (see Explained), and how many
      operations its records reach up to. */
  datatype File = File(bytes: seq<byte>, kept: nat, recs: seq<WalRecord>, floor: nat, at: nat)

  datatype Pc =
    | Idle
    | Writing(r: WalRecord, done: nat) // append: this many bytes handed to the system
    | Written(r: WalRecord)            // append: all of them, fsync still to be decided
    | Logged(r: WalRecord)             // log_put returned, memory not yet updated
    | Renamed                          // checkpoint: snapshot in place, directory not synced
    | Saved                            // checkpoint: snapshot durable, log not yet emptied
    | Emptied                          // checkpoint: log truncated, not fsync'd
    | Down                             // no process
    | Cutting(tail: seq<byte>)         // recovery: torn tail cut off, not fsync'd

  /** The disk (file, snap, and what a power loss may bring back instead), the process (mem, pc,
      unsynced) and the history (ops, acked). ops lists every operation whose record is whole;
      the first acked of them have been applied, so their calls return. */
  datatype State = State(
    file: File, oldFiles: seq<File>,
    snap: Table, oldSnaps: set<Table>,
    mem: Table, pc: Pc, unsynced: nat,
    ops: seq<WalRecord>, acked: nat)

  /** The table after these operations on an empty store. */
  function After(ops: seq<WalRecord>): Table {
    Replay(map[], ops)
  }

  // ---- Steps ----

  ghost predicate Init(s: State) {
    s == State(File(Magic(), MAGIC_LEN, [], 0, 0), [], map[], {}, map[], Idle, 0, [], 0)
  }

  function Synced(f: File): File {
    f.(kept := |f.bytes|)
  }

  /** put(), or remove() of a key that is there: a record starts out. */
  ghost predicate Begin(s: State, s': State) {
    && s.pc.Idle? && s'.pc.Writing? && s'.pc.done == 0
    && |s'.pc.r.value| < TWO_32
    && (s'.pc.r.kind.DELETE? ==> s'.pc.r.key in s.mem)
    && s' == s.(pc := s'.pc)
  }

  /** write() takes some more of the record's bytes. */
  ghost predicate WriteSome(crc: Crc, s: State, s': State) {
    && s.pc.Writing? && s'.pc.Writing? && s'.pc.r == s.pc.r
    && s.pc.done < s'.pc.done < |Encode(crc, s.pc.r)|
    && s' == s.(pc := s'.pc, file := s.file.(bytes := s.file.bytes + Encode(crc, s.pc.r)[s.pc.done..s'.pc.done]))
  }

  /** write() takes the rest: from here on the record is in the log. */
  ghost predicate WriteLast(crc: Crc, s: State, s': State) {
    && s.pc.Writing? && s.pc.done < |Encode(crc, s.pc.r)|
    && var f := s.file;
      s' == s.(pc := Written(s.pc.r), unsynced := s.unsynced + 1, ops := s.ops + [s.pc.r],
               file := f.(bytes := f.bytes + Encode(crc, s.pc.r)[s.pc.done..], recs := f.recs + [s.pc.r], at := f.at + 1))
  }

  /** fsync if sync_every records have gathered. */
  ghost predicate FinishAppend(k: nat, s: State, s': State) {
    && s.pc.Written?
    && s' == (if s.unsynced >= k then s.(pc := Logged(s.pc.r), file := Synced(s.file), oldFiles := [], unsynced := 0)
              else s.(pc := Logged(s.pc.r)))
  }

  ghost predicate ApplyInMemory(s: State, s': State) {
    && s.pc.Logged?
    && s' == s.(pc := Idle, mem := Apply(s.mem, s.pc.r), acked := |s.ops|)
  }

  /** sync(): does nothing when this process has nothing unsynced. */
  ghost predicate SyncCall(s: State, s': State) {
    && s.pc.Idle?
    && s' == if s.unsynced == 0 then s else s.(file := Synced(s.file), oldFiles := [], unsynced := 0)
  }

  /** How many log records a file needs once a snapshot of n operations is in place: replaying ends
      in a state of the history with all of them, or all but one, as long as at most one of the n
      operations is missing. */
  function FloorUnder(f: File, n: nat): nat {
    if f.at + 1 < n then f.floor + |f.recs| + 1
    else if f.floor < |f.recs| then (if f.at < n then |f.recs| else |f.recs| - 1)
    else f.floor
  }

  function Under(f: File, n: nat): File {
    f.(floor := FloorUnder(f, n))
  }

  function AllUnder(fs: seq<File>, n: nat): (r: seq<File>)
    ensures |r| == |fs| && forall i :: 0 <= i < |fs| ==> r[i] == Under(fs[i], n)
  {
    if fs == [] then [] else [Under(fs[0], n)] + AllUnder(fs[1..], n)
  }

  /** checkpoint(): the complete snapshot is renamed into place. The log is not synced first. */
  ghost predicate Rename(s: State, s': State) {
    && s.pc.Idle?
    && s' == s.(pc := Renamed, snap := s.mem, oldSnaps := s.oldSnaps + {s.snap},
                file := Under(s.file, |s.ops|), oldFiles := AllUnder(s.oldFiles, |s.ops|))
  }

  ghost predicate SyncDirectory(s: State, s': State) {
    s.pc.Renamed? && s' == s.(pc := Saved, oldSnaps := {})
  }

  ghost predicate Truncate(s: State, s': State) {
    && s.pc.Saved?
    && s' == s.(pc := Emptied, oldFiles := s.oldFiles + [s.file],
                file := File(Magic(), MAGIC_LEN, [], 0, |s.ops|))
  }

  ghost predicate SyncTruncate(s: State, s': State) {
    s.pc.Emptied? && s' == s.(pc := Idle, oldFiles := [], file := Synced(s.file), unsynced := 0)
  }

  ghost predicate ProcessCrash(s: State, s': State) {
    s' == s.(pc := Down, mem := map[], unsynced := 0)
  }

  /** What the current file held before an unfinished cut. */
  function Torn(s: State): seq<byte> {
    if s.pc.Cutting? then s.pc.tail else []
  }

  /** The files the disk may turn out to hold. */
  function Files(s: State): (r: seq<File>)
    ensures |r| > 0
  {
    [s.file.(bytes := s.file.bytes + Torn(s))] + s.oldFiles
  }

  ghost predicate Possible(s: State, t: Table) {
    t == s.snap || t in s.oldSnaps
  }

  /** The table startup loads from a snapshot and a log file. */
  function Loaded(crc: Crc, snap: Table, bytes: seq<byte>): Table {
    Replay(snap, ScannedRecords(crc, bytes))
  }

  function ScannedRecords(crc: Crc, bytes: seq<byte>): seq<WalRecord> {
    var r := Scan(crc, bytes);
    if r.Scanned? then r.records else []
  }

  /** The history cut back to a table it explains, if there is one. */
  ghost predicate Rebased(ops: seq<WalRecord>, table: Table, ops': seq<WalRecord>) {
    if IsPrefixState(ops, table) then ops' <= ops && After(ops') == table else ops' == ops
  }

  /** table is the result of the first operations, up to some point. */
  ghost predicate IsPrefixState(ops: seq<WalRecord>, table: Table) {
    exists m: nat :: m <= |ops| && After(ops[..m]) == table
  }

  /** What a power loss can leave: a possible snapshot, and a possible file cut anywhere after
      its fsync'd part. */
  ghost predicate Outcome(s: State, t: Table, i: nat, n: nat) {
    && Possible(s, t) && i < |Files(s)|
    && Files(s)[i].kept <= n <= |Files(s)[i].bytes|
  }

  ghost predicate PowerLossTo(crc: Crc, s: State, s': State, i: nat, n: nat) {
    && Outcome(s, s'.snap, i, n)
    && var bytes := Files(s)[i].bytes[..n];
      && s'.file.bytes == bytes && s'.file.kept == n
      && s'.file.recs == ScannedRecords(crc, bytes) && s'.file.floor == |s'.file.recs|
      && Rebased(s.ops, Loaded(crc, s'.snap, bytes), s'.ops)
      && s'.file.at == |s'.ops|
      && s' == State(s'.file, [], s'.snap, {}, map[], Down, 0, s'.ops, if s.acked < |s'.ops| then s.acked else |s'.ops|)
  }

  ghost predicate PowerLoss(crc: Crc, s: State, s': State) {
    exists i: nat, n: nat :: PowerLossTo(crc, s, s', i, n)
  }

  /** Opening a log with nothing to cut: no fsync. */
  ghost predicate OpenClean(crc: Crc, s: State, s': State) {
    && s.pc.Down? && Scan(crc, s.file.bytes).Scanned? && Recovered(crc, s.file.bytes) == s.file.bytes
    && s' == s.(pc := Idle, mem := Loaded(crc, s.snap, s.file.bytes))
  }

  ghost predicate CutTail(crc: Crc, s: State, s': State) {
    && s.pc.Down? && Scan(crc, s.file.bytes).Scanned? && Recovered(crc, s.file.bytes) != s.file.bytes
    && var cut := Recovered(crc, s.file.bytes);
      && |cut| <= |s.file.bytes|
      && s' == s.(pc := Cutting(s.file.bytes[|cut|..]),
                  file := s.file.(bytes := cut, kept := if s.file.kept < |cut| then s.file.kept else |cut|))
  }

  ghost predicate OpenCut(crc: Crc, s: State, s': State) {
    && s.pc.Cutting?
    && s' == s.(pc := Idle, file := Synced(s.file), oldFiles := [], mem := Loaded(crc, s.snap, s.file.bytes))
  }

  /** A step of the running program. */
  ghost predicate ProgramStep(crc: Crc, k: nat, s: State, s': State) {
    || Begin(s, s') || WriteSome(crc, s, s') || WriteLast(crc, s, s') || FinishAppend(k, s, s')
    || ApplyInMemory(s, s') || SyncCall(s, s')
    || Rename(s, s') || SyncDirectory(s, s') || Truncate(s, s') || SyncTruncate(s, s')
    || OpenClean(crc, s, s') || CutTail(crc, s, s') || OpenCut(crc, s, s')
  }

  // ---- What every step keeps ----

  /** The bytes after the last whole record hold no record, however they are cut. */
  ghost predicate NoRecord(crc: Crc, torn: seq<byte>) {
    forall w :: 0 <= w <= |torn| ==> NoRecordIn(crc, torn, w)
  }

  ghost predicate NoRecordIn(crc: Crc, torn: seq<byte>, w: nat)
    requires w <= |torn|
  {
    FirstRecord(crc, torn[..w]) == Bad
  }

  ghost predicate FileOk(crc: Crc, f: File) {
    && Storable(f.recs)
    && LogBytes(crc, f.recs) <= f.bytes
    && NoRecord(crc, f.bytes[|LogBytes(crc, f.recs)|..])
    && MAGIC_LEN <= f.kept <= |f.bytes|
  }

  /** The first m operations are all that f reaches but at most one for each record after the j-th. */
  ghost predicate Reaches(f: File, ops: seq<WalRecord>, j: nat, m: nat)
    requires j <= |f.recs|
  {
    m <= |ops| && f.at <= m + (|f.recs| - j)
  }

  /** With the first j records of the file, replay ends in a state of the history, having lost at
      most one of the operations the file reaches for each record missing. */
  ghost predicate ExplainedAt(t: Table, f: File, ops: seq<WalRecord>, j: nat)
    requires j <= |f.recs| && f.at <= |ops|
  {
    exists m: nat :: Reaches(f, ops, j, m) && Replay(t, f.recs[..j]) == After(ops[..m])
  }

  ghost predicate Explained(t: Table, f: File, ops: seq<WalRecord>) {
    && f.at <= |ops|
    && forall j: nat :: f.floor <= j <= |f.recs| ==> ExplainedAt(t, f, ops, j)
  }

  /** Where the process and the file stand at each point of the program. */
  ghost predicate PcOk(crc: Crc, s: State) {
    var whole := LogBytes(crc, s.file.recs);
    match s.pc
    case Idle => s.file.bytes == whole && s.mem == After(s.ops)
    case Writing(r, done) =>
      && done < |Encode(crc, r)| && |r.value| < TWO_32
      && s.file.bytes == whole + Encode(crc, r)[..done] && s.mem == After(s.ops)
    case Written(r) => s.file.bytes == whole && Apply(s.mem, r) == After(s.ops) && s.acked < |s.ops|
    case Logged(r) => s.file.bytes == whole && Apply(s.mem, r) == After(s.ops) && s.acked < |s.ops|
    case Renamed => s.file.bytes == whole && s.mem == s.snap == After(s.ops)
    case Saved => s.file.bytes == whole && s.mem == s.snap == After(s.ops) && s.oldSnaps == {}
    case Emptied => s.file.bytes == whole && s.mem == s.snap == After(s.ops) && s.oldSnaps == {} && s.file.recs == []
    case Down => true
    case Cutting(tail) => s.file.bytes == whole && NoRecord(crc, tail)
  }

  ghost predicate Inv(crc: Crc, s: State) {
    && PcOk(crc, s)
    && s.acked <= |s.ops| == s.file.at
    && s.file.floor <= |s.file.recs|
    && FileOk(crc, s.file)
    && (forall i :: 0 <= i < |s.oldFiles| ==> FileOk(crc, s.oldFiles[i]))
    && AllExplained(s.file, s)
    && (forall i :: 0 <= i < |s.oldFiles| ==> AllExplained(s.oldFiles[i], s))
  }

  ghost predicate AllExplained(f: File, s: State) {
    forall t :: Possible(s, t) ==> Explained(t, f, s.ops)
  }

  /** How many of a file's records a power loss cannot take. */
  ghost function Durable(crc: Crc, f: File): (d: nat)
    ensures d <= |f.recs|
  {
    WholeRecords(crc, f.recs, if f.kept < MAGIC_LEN then 0 else f.kept - MAGIC_LEN)
  }

  /** The fsync'd part of every possible file has the records recovery needs. */
  ghost predicate SafeToLose(crc: Crc, s: State) {
    forall i :: 0 <= i < |Files(s)| ==> Files(s)[i].floor <= Durable(crc, Files(s)[i])
  }

  // ---- Scanning a possible file ----

  lemma {:induction false} WholeMonotone(crc: Crc, rs: seq<WalRecord>, a: nat, b: nat)
    requires a <= b
    ensures WholeRecords(crc, rs, a) <= WholeRecords(crc, rs, b)
  {
    if rs != [] && a >= |Encode(crc, rs[0])| {
      WholeMonotone(crc, rs[1..], a - |Encode(crc, rs[0])|, b - |Encode(crc, rs[0])|);
    }
  }

  lemma {:induction false} WholeOfAll(crc: Crc, rs: seq<WalRecord>, n: nat)
    requires n >= |EncodeAll(crc, rs)|
    ensures WholeRecords(crc, rs, n) == |rs|
  {
    if rs != [] {
      WholeOfAll(crc, rs[1..], n - |Encode(crc, rs[0])|);
    }
  }

  /** Cut anywhere after its header, a file scans as the records wholly before the cut. */
  lemma ScanCut(crc: Crc, f: File, n: nat)
    requires FileOk(crc, f) && MAGIC_LEN <= n <= |f.bytes|
    ensures var m := WholeRecords(crc, f.recs, n - MAGIC_LEN);
      Scan(crc, f.bytes[..n]) == Scanned(f.recs[..m], |LogBytes(crc, f.recs[..m])|)
  {
    hide FirstRecord, Encode, Parse;
    var whole := LogBytes(crc, f.recs);
    if n <= |whole| {
      assert f.bytes[..n] == whole[..n];
      ScanPrefix(crc, f.recs, n);
    } else {
      var tail := f.bytes[|whole|..][..n - |whole|];
      assert f.bytes[..n] == whole + tail;
      assert NoRecordIn(crc, f.bytes[|whole|..], n - |whole|);
      ScanWithTorn(crc, f.recs, tail);
      WholeOfAll(crc, f.recs, n - MAGIC_LEN);
      assert f.recs[..|f.recs|] == f.recs;
    }
  }

  lemma ScanWithTorn(crc: Crc, rs: seq<WalRecord>, tail: seq<byte>)
    requires Storable(rs) && FirstRecord(crc, tail) == Bad
    ensures Scan(crc, LogBytes(crc, rs) + tail) == Scanned(rs, |LogBytes(crc, rs)|)
  {
    var all := EncodeAll(crc, rs);
    WholeOfAll(crc, rs, |all|);
    ParsePrefix(crc, rs, |all|);
    assert Parse(crc, tail) == Parsed([], 0);
    hide FirstRecord, Encode, Parse, EncodeAll, WholeRecords, Scan, Magic;
    assert all[..|all|] == all && rs[..|rs|] == rs && rs + [] == rs;
    CutThenContinue(crc, all, tail);
    ConcatAssoc(Magic(), all, tail);
    ScanBody(crc, all + tail);
  }

  lemma ScanBody(crc: Crc, body: seq<byte>)
    ensures Scan(crc, Magic() + body) == Scanned(Parse(crc, body).records, MAGIC_LEN + Parse(crc, body).end)
  {
    hide Parse, Magic;
    var file := Magic() + body;
    assert file[..MAGIC_LEN] == Magic() && file[MAGIC_LEN..] == body;
  }

  lemma EmptyIsTorn(crc: Crc)
    ensures NoRecord(crc, [])
  {
    var e: seq<byte> := [];
    assert e[..0] == e && FirstRecord(crc, e) == Bad;
  }

  /** A record cut short leaves no record behind, wherever it is cut again. */
  lemma TornHoldsNothing(crc: Crc, r: WalRecord, done: nat)
    requires done < |Encode(crc, r)|
    ensures NoRecord(crc, Encode(crc, r)[..done])
  {
    var torn := Encode(crc, r)[..done];
    forall w | 0 <= w <= |torn| ensures NoRecordIn(crc, torn, w) {
      TornRecordIsBad(crc, r, w);
      assert torn[..w] == Encode(crc, r)[..w];
    }
  }

  // ---- Explanations under each change ----

  lemma AfterSnoc(ops: seq<WalRecord>, r: WalRecord)
    ensures After(ops + [r]) == Apply(After(ops), r)
  {
    assert (ops + [r])[..|ops + [r]| - 1] == ops;
  }

  lemma ReplaySnoc(t: Table, recs: seq<WalRecord>, r: WalRecord)
    ensures Replay(t, recs + [r]) == Apply(Replay(t, recs), r)
  {
    assert (recs + [r])[..|recs + [r]| - 1] == recs;
  }

  /** A whole explained file replays to at least the operations it reaches. */
  lemma WholeFile(t: Table, f: File, ops: seq<WalRecord>) returns (m: nat)
    requires Explained(t, f, ops) && f.floor <= |f.recs|
    ensures f.at <= m <= |ops| && Replay(t, f.recs) == After(ops[..m])
  {
    assert ExplainedAt(t, f, ops, |f.recs|);
    assert f.recs[..|f.recs|] == f.recs;
    m :| Reaches(f, ops, |f.recs|, m) && Replay(t, f.recs[..|f.recs|]) == After(ops[..m]);
  }

  /** More history does not unexplain a file. */
  lemma MoreHistory(t: Table, f: File, ops: seq<WalRecord>, r: WalRecord)
    requires Explained(t, f, ops)
    ensures Explained(t, f, ops + [r])
  {
    forall j: nat | f.floor <= j <= |f.recs| ensures ExplainedAt(t, f, ops + [r], j) {
      assert ExplainedAt(t, f, ops, j);
      var m: nat :| Reaches(f, ops, j, m) && Replay(t, f.recs[..j]) == After(ops[..m]);
      assert (ops + [r])[..m] == ops[..m] && Reaches(f, ops + [r], j, m);
    }
  }

  /** A record in the log explains one more operation. */
  lemma MoreLog(t: Table, f: File, ops: seq<WalRecord>, r: WalRecord, f': File)
    requires Explained(t, f, ops) && f.at == |ops| && f.floor <= |f.recs|
    requires f'.recs == f.recs + [r] && f'.at == f.at + 1 && f'.floor == f.floor
    ensures Explained(t, f', ops + [r])
  {
    hide Replay;
    var all := WholeFile(t, f, ops);
    forall j: nat | f'.floor <= j <= |f'.recs| ensures ExplainedAt(t, f', ops + [r], j) {
      if j <= |f.recs| {
        assert ExplainedAt(t, f, ops, j);
        var m: nat :| Reaches(f, ops, j, m) && Replay(t, f.recs[..j]) == After(ops[..m]);
        assert (ops + [r])[..m] == ops[..m] && f'.recs[..j] == f.recs[..j];
        assert Reaches(f', ops + [r], j, m);
      } else {
        assert f'.recs[..j] == f.recs + [r];
        ReplaySnoc(t, f.recs, r);
        assert ops[..f.at] == ops;
        AfterSnoc(ops, r);
        assert (ops + [r])[..f'.at] == ops + [r] && Reaches(f', ops + [r], j, f'.at);
      }
    }
  }

  /** Explanations do not look at the bytes or at how much of them is fsync'd. */
  lemma SameMeaning(t: Table, f: File, f': File, ops: seq<WalRecord>)
    requires Explained(t, f, ops) && f'.recs == f.recs && f'.at == f.at && f'.floor >= f.floor
    ensures Explained(t, f', ops)
  {
    forall j: nat | f'.floor <= j <= |f'.recs| ensures ExplainedAt(t, f', ops, j) {
      assert ExplainedAt(t, f, ops, j);
      var m: nat :| Reaches(f, ops, j, m) && Replay(t, f.recs[..j]) == After(ops[..m]);
      assert Reaches(f', ops, j, m);
    }
  }

  /** The heart of checkpointing: replaying the log, or all of it but its last record, on top of
      a snapshot that already holds all of it ends where the old snapshot and those records or
      where the whole log would have ended. */
  lemma ReplayOverNewer(t: Table, log: seq<WalRecord>)
    requires log != []
    ensures var shorter := log[..|log| - 1];
      Replay(Replay(t, log), shorter) == Replay(t, shorter) || Replay(Replay(t, log), shorter) == Replay(t, log)
  {
    var n := |log| - 1;
    var shorter, x := log[..n], log[n];
    var newer := Replay(t, log);
    var target := if LastFor(shorter, x.key) < 0 then newer else Replay(t, shorter);
    forall k ensures At(Replay(newer, shorter), k) == At(target, k) {
      LastWriteWins(newer, shorter, k);
      LastWriteWins(t, shorter, k);
      LastWriteWins(t, log, k);
    }
    SameTable(Replay(newer, shorter), target);
  }

  /** A snapshot of everything so far explains each file down to its floor under it. */
  lemma NewerSnapshot(t: Table, t': Table, f: File, ops: seq<WalRecord>)
    requires Explained(t, f, ops) && t' == After(ops)
    ensures Explained(t', Under(f, |ops|), ops)
  {
    var g := Under(f, |ops|);
    forall j: nat | g.floor <= j <= |g.recs| ensures ExplainedAt(t', g, ops, j) {
      if j == |f.recs| { NothingLost(t, t', f, ops); } else { OneLost(t, t', f, ops); }
    }
  }

  /** The whole file, which reaches all of the operations or all but the last. */
  lemma NothingLost(t: Table, t': Table, f: File, ops: seq<WalRecord>)
    requires Explained(t, f, ops) && f.at + 1 >= |ops| && t' == After(ops) && f.floor <= |f.recs|
    ensures ExplainedAt(t', Under(f, |ops|), ops, |f.recs|)
  {
    var g, j := Under(f, |ops|), |f.recs|;
    var m := WholeFile(t, f, ops);
    assert f.recs[..j] == f.recs && ops[..|ops|] == ops;
    if m == |ops| {
      ReplayTwice(t, f.recs);
      assert Replay(t', g.recs[..j]) == After(ops[..m]) && Reaches(g, ops, j, m);
    } else {
      var n := |ops| - 1;
      var log := f.recs + [ops[n]];
      assert ops == ops[..n] + [ops[n]];
      AfterSnoc(ops[..n], ops[n]);
      ReplaySnoc(t, f.recs, ops[n]);
      assert log[..|log| - 1] == f.recs;
      ReplayOverNewer(t, log);
      assert Reaches(g, ops, j, n) && Reaches(g, ops, j, |ops|);
    }
  }

  lemma OneLost(t: Table, t': Table, f: File, ops: seq<WalRecord>)
    requires Explained(t, f, ops) && f.at == |ops| && t' == After(ops)
    requires f.floor < |f.recs|
    ensures ExplainedAt(t', Under(f, |ops|), ops, |f.recs| - 1)
  {
    var g, j := Under(f, |ops|), |f.recs| - 1;
    var all := WholeFile(t, f, ops);
    assert ops[..all] == ops;
    ReplayOverNewer(t, f.recs);
    if Replay(t', f.recs[..j]) == After(ops) {
      assert Reaches(g, ops, j, all) && Replay(t', g.recs[..j]) == After(ops[..all]);
    } else {
      assert ExplainedAt(t, f, ops, j);
      var m: nat :| Reaches(f, ops, j, m) && Replay(t, f.recs[..j]) == After(ops[..m]);
      assert Reaches(g, ops, j, m) && Replay(t', g.recs[..j]) == After(ops[..m]);
    }
  }

  // ---- Each step keeps the invariant ----

  lemma InitInv(crc: Crc, s: State)
    requires Init(s)
    ensures Inv(crc, s)
  {
    var f := s.file;
    assert LogBytes(crc, []) == Magic();
    assert f.bytes[|LogBytes(crc, f.recs)|..] == [];
    EmptyIsTorn(crc);
    assert Replay(s.snap, f.recs[..0]) == After(s.ops[..0]) && Reaches(f, s.ops, 0, 0);
    assert ExplainedAt(s.snap, f, s.ops, 0);
  }

  lemma BeginInv(crc: Crc, s: State, s': State)
    requires Inv(crc, s) && Begin(s, s')
    ensures Inv(crc, s')
  {
    var r := s'.pc.r;
    assert Encode(crc, r)[..0] == [];
    assert s.file.bytes + [] == s.file.bytes;
  }

  lemma WriteSomeInv(crc: Crc, s: State, s': State)
    requires Inv(crc, s) && WriteSome(crc, s, s')
    ensures Inv(crc, s')
  {
    hide FirstRecord, Explained, Storable;
    var e, whole := Encode(crc, s.pc.r), LogBytes(crc, s.file.recs);
    hide LogBytes, Encode;
    assert e[..s.pc.done] + e[s.pc.done..s'.pc.done] == e[..s'.pc.done];
    ConcatAssoc(whole, e[..s.pc.done], e[s.pc.done..s'.pc.done]);
    TornHoldsNothing(crc, s.pc.r, s'.pc.done);
    assert s'.file.bytes[|whole|..] == e[..s'.pc.done];
    SameFile(s, s');
  }

  /** Only the file's bytes or fsync'd length changed. */
  lemma SameFile(s: State, s': State)
    requires AllExplained(s.file, s)
    requires s'.file.recs == s.file.recs && s'.file.at == s.file.at && s'.file.floor == s.file.floor
    requires s'.snap == s.snap && s'.oldSnaps <= s.oldSnaps && s'.ops == s.ops
    ensures AllExplained(s'.file, s')
  {
    forall t | Possible(s', t) ensures Explained(t, s'.file, s'.ops) {
      assert Possible(s, t);
      SameMeaning(t, s.file, s'.file, s.ops);
    }
  }

  lemma WriteLastInv(crc: Crc, s: State, s': State)
    requires Inv(crc, s) && WriteLast(crc, s, s')
    ensures Inv(crc, s')
  {
    var r, e, f, f' := s.pc.r, Encode(crc, s.pc.r), s.file, s'.file;
    EncodeSnoc(crc, f.recs, r);
    EmptyIsTorn(crc);
    hide FirstRecord, Encode, EncodeAll, Explained;
    assert e[..s.pc.done] + e[s.pc.done..] == e;
    ConcatAssoc(LogBytes(crc, f.recs), e[..s.pc.done], e[s.pc.done..]);
    ConcatAssoc(Magic(), EncodeAll(crc, f.recs), e);
    assert f'.bytes == LogBytes(crc, f'.recs);
    assert f'.bytes[|LogBytes(crc, f'.recs)|..] == [];
    AfterSnoc(s.ops, r);
    forall t | Possible(s', t) ensures Explained(t, f', s'.ops) {
      assert Possible(s, t);
      MoreLog(t, f, s.ops, r, f');
    }
    forall i | 0 <= i < |s'.oldFiles| ensures AllExplained(s'.oldFiles[i], s') {
      assert AllExplained(s.oldFiles[i], s);
      forall t | Possible(s', t) ensures Explained(t, s'.oldFiles[i], s'.ops) {
        assert Possible(s, t);
        MoreHistory(t, s.oldFiles[i], s.ops, r);
      }
    }
  }

  /** fsync: the same file, all of it safe, and nothing older can come back. */
  lemma SyncKeeps(crc: Crc, s: State, s': State)
    requires Inv(crc, s) && s'.file == Synced(s.file) && s'.oldFiles == []
    requires s'.snap == s.snap && s'.oldSnaps == s.oldSnaps && s'.ops == s.ops && s'.acked == s.acked
    requires PcOk(crc, s')
    ensures Inv(crc, s')
  {
    SameFile(s, s');
  }

  lemma FinishAppendInv(crc: Crc, k: nat, s: State, s': State)
    requires Inv(crc, s) && FinishAppend(k, s, s')
    ensures Inv(crc, s')
  {
    if s.unsynced >= k { SyncKeeps(crc, s, s'); }
  }

  lemma ApplyInMemoryInv(crc: Crc, s: State, s': State)
    requires Inv(crc, s) && ApplyInMemory(s, s')
    ensures Inv(crc, s')
  {
  }

  lemma SyncCallInv(crc: Crc, s: State, s': State)
    requires Inv(crc, s) && SyncCall(s, s')
    ensures Inv(crc, s')
  {
    if s.unsynced > 0 { SyncKeeps(crc, s, s'); }
  }

  lemma RenameInv(crc: Crc, s: State, s': State)
    requires Inv(crc, s) && Rename(s, s')
    ensures Inv(crc, s')
  {
    UnderAll(s, s', s.file);
    forall i | 0 <= i < |s'.oldFiles| ensures AllExplained(s'.oldFiles[i], s') && FileOk(crc, s'.oldFiles[i]) {
      UnderAll(s, s', s.oldFiles[i]);
    }
  }

  lemma UnderAll(s: State, s': State, f: File)
    requires AllExplained(f, s) && s'.snap == After(s.ops) && s'.ops == s.ops && s'.oldSnaps == s.oldSnaps + {s.snap}
    ensures AllExplained(Under(f, |s.ops|), s')
  {
    forall t | Possible(s', t) ensures Explained(t, Under(f, |s.ops|), s'.ops) {
      assert Possible(s, s.snap);
      if t == s'.snap {
        NewerSnapshot(s.snap, t, f, s.ops);
      } else {
        assert Possible(s, t);
        SameMeaning(t, f, Under(f, |s.ops|), s.ops);
      }
    }
  }

  lemma SyncDirectoryInv(crc: Crc, s: State, s': State)
    requires Inv(crc, s) && SyncDirectory(s, s')
    ensures Inv(crc, s')
  {
    SameFile(s, s');
    forall i | 0 <= i < |s'.oldFiles| ensures AllExplained(s'.oldFiles[i], s') {
      assert AllExplained(s.oldFiles[i], s);
    }
  }

  lemma TruncateInv(crc: Crc, s: State, s': State)
    requires Inv(crc, s) && Truncate(s, s')
    ensures Inv(crc, s')
  {
    var f := s'.file;
    assert LogBytes(crc, []) == Magic();
    assert f.bytes[|LogBytes(crc, f.recs)|..] == [];
    EmptyIsTorn(crc);
    assert s.ops[..f.at] == s.ops;
    assert Replay(s.snap, f.recs[..0]) == After(s'.ops[..f.at]) && Reaches(f, s'.ops, 0, f.at);
    assert ExplainedAt(s.snap, f, s'.ops, 0);
    forall i | 0 <= i < |s'.oldFiles| ensures AllExplained(s'.oldFiles[i], s') && FileOk(crc, s'.oldFiles[i]) {
      var g := if i < |s.oldFiles| then s.oldFiles[i] else s.file;
      assert AllExplained(g, s);
      assert s'.oldFiles[i] == g;
      forall t | Possible(s', t) ensures Explained(t, g, s'.ops) { assert Possible(s, t); }
    }
  }

  lemma SyncTruncateInv(crc: Crc, s: State, s': State)
    requires Inv(crc, s) && SyncTruncate(s, s')
    ensures Inv(crc, s')
  {
    SyncKeeps(crc, s, s');
  }

  lemma ProcessCrashInv(crc: Crc, s: State, s': State)
    requires Inv(crc, s) && ProcessCrash(s, s')
    ensures Inv(crc, s')
  {
  }

  /** What the disk holds right now means the whole history: what a process crash leaves. */
  lemma DiskMeansHistory(crc: Crc, s: State)
    requires Inv(crc, s)
    ensures Scan(crc, s.file.bytes) == Scanned(s.file.recs, |LogBytes(crc, s.file.recs)|)
    ensures Loaded(crc, s.snap, s.file.bytes) == After(s.ops)
  {
    hide Scan, Explained, WholeRecords, EncodeAll, Replay, After;
    var n := |s.file.bytes|;
    assert s.file.bytes[..n] == s.file.bytes;
    ScanCut(crc, s.file, n);
    WholeOfAll(crc, s.file.recs, n - MAGIC_LEN);
    assert s.file.recs[..|s.file.recs|] == s.file.recs;
    assert Possible(s, s.snap);
    var m := WholeFile(s.snap, s.file, s.ops);
    assert s.ops[..m] == s.ops;
  }

  lemma OpenCleanInv(crc: Crc, s: State, s': State)
    requires Inv(crc, s) && OpenClean(crc, s, s')
    ensures Inv(crc, s')
  {
    DiskMeansHistory(crc, s);
    var whole := LogBytes(crc, s.file.recs);
    assert s.file.bytes[..|whole|] == whole;
  }

  lemma LogIsWhole(crc: Crc, recs: seq<WalRecord>)
    ensures |LogBytes(crc, recs)| >= MAGIC_LEN
  {
  }

  lemma CutTailInv(crc: Crc, s: State, s': State)
    requires Inv(crc, s) && CutTail(crc, s, s')
    ensures Inv(crc, s')
  {
    hide FirstRecord, Encode, Parse, NoRecord, Scan, Explained, LogBytes, Storable;
    DiskMeansHistory(crc, s);
    EmptyIsTorn(crc);
    var whole := LogBytes(crc, s.file.recs);
    LogIsWhole(crc, s.file.recs);
    assert s.file.bytes[..|whole|] == whole && whole[|whole|..] == [];
    assert Recovered(crc, s.file.bytes) == whole;
    SameFile(s, s');
  }

  lemma OpenCutInv(crc: Crc, s: State, s': State)
    requires Inv(crc, s) && OpenCut(crc, s, s')
    ensures Inv(crc, s')
  {
    DiskMeansHistory(crc, s);
    SyncKeeps(crc, s, s');
  }

  lemma ProgramStepInv(crc: Crc, k: nat, s: State, s': State)
    requires Inv(crc, s) && ProgramStep(crc, k, s, s')
    ensures Inv(crc, s')
  {
    hide Inv;
    if Begin(s, s') { BeginInv(crc, s, s'); }
    if WriteSome(crc, s, s') { WriteSomeInv(crc, s, s'); }
    if WriteLast(crc, s, s') { WriteLastInv(crc, s, s'); }
    if FinishAppend(k, s, s') { FinishAppendInv(crc, k, s, s'); }
    if ApplyInMemory(s, s') { ApplyInMemoryInv(crc, s, s'); }
    if SyncCall(s, s') { SyncCallInv(crc, s, s'); }
    if Rename(s, s') { RenameInv(crc, s, s'); }
    if SyncDirectory(s, s') { SyncDirectoryInv(crc, s, s'); }
    if Truncate(s, s') { TruncateInv(crc, s, s'); }
    if SyncTruncate(s, s') { SyncTruncateInv(crc, s, s'); }
    if OpenClean(crc, s, s') { OpenCleanInv(crc, s, s'); }
    if CutTail(crc, s, s') { CutTailInv(crc, s, s'); }
    if OpenCut(crc, s, s') { OpenCutInv(crc, s, s'); }
  }

  // ---- Power loss ----

  /** Records a power loss may take. */
  ghost function Loose(crc: Crc, f: File): nat {
    |f.recs| - Durable(crc, f)
  }

  /** table is the state after some of the operations: all but at most lost of those f reaches. */
  ghost predicate LostAtMost(ops: seq<WalRecord>, table: Table, at: nat, lost: nat)
    requires at <= |ops|
  {
    exists m: nat :: m <= |ops| && at <= m + lost && table == After(ops[..m])
  }

  lemma FilesOk(crc: Crc, s: State, i: nat)
    requires Inv(crc, s) && i < |Files(s)|
    ensures FileOk(crc, Files(s)[i]) && AllExplained(Files(s)[i], s)
  {
    if i == 0 {
      var f, whole := Files(s)[0], LogBytes(crc, s.file.recs);
      if s.pc.Cutting? {
        assert f.bytes[|whole|..] == Torn(s);
      } else {
        assert f.bytes == s.file.bytes;
      }
      forall t | Possible(s, t) ensures Explained(t, f, s.ops) { SameMeaning(t, s.file, f, s.ops); }
    }
  }

  /** Any outcome of a power loss at a safe moment is a state of the history, and has lost no more
      operations than the file had records that were not fsync'd. */
  lemma KeptInside(crc: Crc, f: File)
    requires FileOk(crc, f)
    ensures MAGIC_LEN <= f.kept <= |f.bytes|
  {
  }

  lemma SafeOutcome(crc: Crc, s: State, t: Table, i: nat, n: nat)
    requires Inv(crc, s) && SafeToLose(crc, s) && Outcome(s, t, i, n)
    ensures var f := Files(s)[i];
      f.at <= |s.ops| && LostAtMost(s.ops, Loaded(crc, t, f.bytes[..n]), f.at, Loose(crc, f))
  {
    hide FileOk, Scan, WholeRecords, Replay, After, LogBytes, Inv;
    var f := Files(s)[i];
    FilesOk(crc, s, i);
    KeptInside(crc, f);
    ScanCut(crc, f, n);
    WholeMonotone(crc, f.recs, f.kept - MAGIC_LEN, n - MAGIC_LEN);
    var j := WholeRecords(crc, f.recs, n - MAGIC_LEN);
    assert f.floor <= Durable(crc, f) <= j;
    assert Explained(t, f, s.ops);
    assert ExplainedAt(t, f, s.ops, j);
    var m: nat :| Reaches(f, s.ops, j, m) && Replay(t, f.recs[..j]) == After(s.ops[..m]);
    assert f.at <= m + Loose(crc, f);
  }

  lemma LostIsPrefix(ops: seq<WalRecord>, table: Table, at: nat, lost: nat)
    requires at <= |ops| && LostAtMost(ops, table, at, lost)
    ensures IsPrefixState(ops, table)
  {
    var m: nat :| m <= |ops| && at <= m + lost && table == After(ops[..m]);
  }

  /** What is left after a cut is whole records and then no record. */
  lemma CutIsFile(crc: Crc, f: File, n: nat)
    requires FileOk(crc, f) && MAGIC_LEN <= n <= |f.bytes|
    ensures var recs := f.recs[..WholeRecords(crc, f.recs, n - MAGIC_LEN)];
      Storable(recs) && LogBytes(crc, recs) <= f.bytes[..n] && NoRecord(crc, f.bytes[..n][|LogBytes(crc, recs)|..])
  {
    var m := WholeRecords(crc, f.recs, n - MAGIC_LEN);
    WholeRecordsIsLongest(crc, f.recs, n - MAGIC_LEN);
    assert f.recs[..|f.recs|] == f.recs;
    hide WholeRecords, Encode, EncodeAll;
    if m < |f.recs| { CutInside(crc, f, n, m); } else { CutPast(crc, f, n); }
  }

  lemma CutInside(crc: Crc, f: File, n: nat, m: nat)
    requires FileOk(crc, f) && MAGIC_LEN <= n <= |f.bytes| && m < |f.recs|
    requires |EncodeAll(crc, f.recs[..m])| <= n - MAGIC_LEN < |EncodeAll(crc, f.recs[..m + 1])|
    ensures var recs := f.recs[..m];
      Storable(recs) && LogBytes(crc, recs) <= f.bytes[..n] && NoRecord(crc, f.bytes[..n][|LogBytes(crc, recs)|..])
  {
    PrefixBytes(crc, f.recs, m);
    PrefixBytes(crc, f.recs, m + 1);
    OneMore(crc, f.recs, m);
    hide LogBytes, Encode, EncodeAll, NoRecord;
    TornTail(crc, f.bytes, LogBytes(crc, f.recs[..m]), f.recs[m], n);
  }

  lemma CutPast(crc: Crc, f: File, n: nat)
    requires FileOk(crc, f) && |LogBytes(crc, f.recs)| <= n <= |f.bytes|
    ensures var recs := f.recs[..|f.recs|];
      Storable(recs) && LogBytes(crc, recs) <= f.bytes[..n] && NoRecord(crc, f.bytes[..n][|LogBytes(crc, recs)|..])
  {
    var whole := LogBytes(crc, f.recs);
    var k := |whole|;
    assert f.recs[..|f.recs|] == f.recs;
    hide LogBytes, NoRecord, Storable;
    assert whole == f.bytes[..k] == f.bytes[..n][..k];
    PrefixHoldsNothing(crc, f.bytes[k..], n - k);
    DropOfTake(f.bytes, k, n);
  }

  lemma PrefixBytes(crc: Crc, rs: seq<WalRecord>, m: nat)
    requires m <= |rs|
    ensures LogBytes(crc, rs[..m]) <= LogBytes(crc, rs)
    ensures |LogBytes(crc, rs[..m])| == MAGIC_LEN + |EncodeAll(crc, rs[..m])|
  {
    EncodePrefix(crc, rs, m);
    hide EncodeAll;
    var a, b := EncodeAll(crc, rs[..m]), EncodeAll(crc, rs);
    assert b == a + b[|a|..];
    ConcatAssoc(Magic(), a, b[|a|..]);
  }

  lemma OneMore(crc: Crc, rs: seq<WalRecord>, m: nat)
    requires m < |rs|
    ensures LogBytes(crc, rs[..m + 1]) == LogBytes(crc, rs[..m]) + Encode(crc, rs[m])
  {
    assert rs[..m + 1] == rs[..m] + [rs[m]];
    EncodeSnoc(crc, rs[..m], rs[m]);
    ConcatAssoc(Magic(), EncodeAll(crc, rs[..m]), Encode(crc, rs[m]));
  }

  lemma TornTail(crc: Crc, bytes: seq<byte>, kept: seq<byte>, r: WalRecord, n: nat)
    requires |kept| <= n <= |bytes| && kept + Encode(crc, r) <= bytes && n < |kept + Encode(crc, r)|
    ensures NoRecord(crc, bytes[..n][|kept|..])
  {
    var e := Encode(crc, r);
    TornHoldsNothing(crc, r, n - |kept|);
    hide Encode, NoRecord;
    assert bytes[..n][|kept|..] == e[..n - |kept|] by {
      assert bytes[..|kept + e|] == kept + e;
      assert bytes[..n] == (kept + e)[..n];
    }
  }

  lemma PrefixHoldsNothing(crc: Crc, torn: seq<byte>, n: nat)
    requires NoRecord(crc, torn) && n <= |torn|
    ensures NoRecord(crc, torn[..n])
  {
    forall w | 0 <= w <= n ensures NoRecordIn(crc, torn[..n], w) {
      assert NoRecordIn(crc, torn, w);
      assert torn[..n][..w] == torn[..w];
    }
  }

  lemma PowerLossInv(crc: Crc, s: State, s': State, i: nat, n: nat)
    requires Inv(crc, s) && SafeToLose(crc, s) && PowerLossTo(crc, s, s', i, n)
    ensures Inv(crc, s') && Durable(crc, s'.file) == |s'.file.recs|
    ensures IsPrefixState(s.ops, After(s'.ops))
  {
    LossKeepsFile(crc, s, s', i, n);
    LossKeepsMeaning(crc, s, s', i, n);
    assert s'.pc == Down && s'.oldFiles == [] && s'.acked <= |s'.ops| == s'.file.at && s'.file.floor == |s'.file.recs|;
    hide Inv, PowerLossTo, SafeToLose;
    DownInv(crc, s');
  }

  lemma DownInv(crc: Crc, s: State)
    requires s.pc.Down? && s.oldFiles == [] && s.acked <= |s.ops| == s.file.at && s.file.floor == |s.file.recs|
    requires FileOk(crc, s.file) && AllExplained(s.file, s)
    ensures Inv(crc, s)
  {
  }

  lemma LossKeepsFile(crc: Crc, s: State, s': State, i: nat, n: nat)
    requires Inv(crc, s) && PowerLossTo(crc, s, s', i, n)
    ensures FileOk(crc, s'.file) && Durable(crc, s'.file) == |s'.file.recs|
  {
    var f, f' := Files(s)[i], s'.file;
    FilesOk(crc, s, i);
    ScanCut(crc, f, n);
    CutIsFile(crc, f, n);
    hide NoRecord, Scan, Storable, Inv;
    assert |LogBytes(crc, f'.recs)| == MAGIC_LEN + |EncodeAll(crc, f'.recs)|;
    WholeOfAll(crc, f'.recs, n - MAGIC_LEN);
  }

  lemma LossKeepsMeaning(crc: Crc, s: State, s': State, i: nat, n: nat)
    requires Inv(crc, s) && SafeToLose(crc, s) && PowerLossTo(crc, s, s', i, n)
    ensures IsPrefixState(s.ops, After(s'.ops)) && AllExplained(s'.file, s')
  {
    var f := Files(s)[i];
    var table := Loaded(crc, s'.snap, f.bytes[..n]);
    SafeOutcome(crc, s, s'.snap, i, n);
    assert table == Replay(s'.snap, s'.file.recs);
    hide Loaded, ScannedRecords, Inv, SafeToLose, Loose, Explained, Outcome;
    LostIsPrefix(s.ops, table, f.at, Loose(crc, f));
    WholeExplained(s'.snap, s'.file, s'.ops);
  }

  lemma WholeExplained(t: Table, f: File, ops: seq<WalRecord>)
    requires f.floor == |f.recs| && f.at == |ops| && Replay(t, f.recs) == After(ops)
    ensures Explained(t, f, ops)
  {
    assert f.recs[..|f.recs|] == f.recs && ops[..f.at] == ops;
    assert Replay(t, f.recs[..|f.recs|]) == After(ops[..f.at]) && Reaches(f, ops, |f.recs|, f.at);
    assert ExplainedAt(t, f, ops, |f.recs|);
  }
}
