/** The durable store (cpp/durable_store.h): a gapped array behind a log and a snapshot. Each
    method is a sequence of the durability protocol's steps, recorded as it goes, so everything
    proved about the protocol's runs holds between any two of them. */
module Durable {
  import opened Bytes
  import opened Slots
  import opened EvenLayout
  import opened Relays
  import opened GappedArray
  import opened ApplyLog
  import opened WriteAheadLog
  import opened StoreMachine
  import opened StoreRuns
  import Snapshot

  datatype SnapshotFile = NoSnapshot | SnapshotFile(bytes: seq<byte>)

  /** The rows of a snapshot file: none if there is no file. */
  function SnapshotReading(crc: Crc, file: SnapshotFile): Snapshot.Outcome {
    if file.NoSnapshot? then Snapshot.Loaded([]) else Snapshot.Reading(crc, file.bytes)
  }

  ghost predicate Holds(crc: Crc, file: SnapshotFile, table: Table) {
    SnapshotReading(crc, file).Loaded? && MapOf(SnapshotReading(crc, file).rows) == table
  }

  /** Keys and values the files and the index can carry: int64 keys below the empty-slot marker,
      values under 4 GiB. */
  ghost predicate Fits(table: Table) {
    forall k :: k in table ==> -TWO_63 <= k < EMPTY_SLOT && |table[k]| < TWO_32
  }

  lemma FitsAfter(table: Table, r: WalRecord)
    requires Fits(table) && r.key < EMPTY_SLOT && |r.value| < TWO_32
    ensures Fits(Apply(table, r))
  {
  }

  // ---- Startup ----

  datatype Startup = NotALog | DamagedSnapshot(why: Snapshot.Fault) | Ready(log: seq<byte>, rows: seq<Row>, loaded: nat, replayed: nat)

  /** What startup makes of the two files, whatever they hold: refusals, or the recovered log and
      the snapshot's rows with the log applied. */
  method ReadFiles(crc: Crc, log: seq<byte>, snapshot: SnapshotFile) returns (r: Startup)
    ensures r.NotALog? <==> Scan(crc, log).Refused?
    ensures r.DamagedSnapshot? <==> Scan(crc, log).Scanned? && SnapshotReading(crc, snapshot).Damaged?
    ensures r.DamagedSnapshot? ==> r.why == SnapshotReading(crc, snapshot).why
    ensures r.Ready? ==> r.log == Recovered(crc, log) && SortedEntries(r.rows)
    ensures r.Ready? ==> MapOf(r.rows) == Replay(MapOf(SnapshotReading(crc, snapshot).rows), Scan(crc, log).records)
    ensures r.Ready? ==> r.loaded == |SnapshotReading(crc, snapshot).rows| && r.replayed == |Scan(crc, log).records|
  {
    hide FirstRecord, Parse, Encode;
    var ok, records, validEnd := ScanFile(crc, log);
    if !ok { return NotALog; }
    var rows: seq<Row> := [];
    if snapshot.SnapshotFile? {
      var read := Snapshot.ReadSnapshot(crc, snapshot.bytes);
      if read.Damaged? { return DamagedSnapshot(read.why); }
      Snapshot.ReadsExactly(crc, snapshot.bytes, read.rows);
      rows := read.rows;
    }
    var recovered := if |log| < MAGIC_LEN then Magic() else log[..validEnd];
    var merged := ApplyLog.ApplyLog(rows, records);
    return Ready(recovered, merged, |rows|, |records|);
  }

  /** Splits rows into the two lists the index is built from. */
  method Unzip(rows: seq<Row>) returns (keys: seq<int>, values: seq<Value>)
    requires SortedEntries(rows) && Fits(MapOf(rows))
    ensures |keys| == |values| == |rows| && Zip(keys, values) == rows && StrictKeys(keys)
  {
    keys, values := [], [];
    for i := 0 to |rows|
      invariant |keys| == |values| == i
      invariant forall j :: 0 <= j < i ==> keys[j] == rows[j].0 && values[j] == rows[j].1
    {
      keys, values := keys + [rows[i].0], values + [rows[i].1];
    }
    MapOfSorted(rows);
    forall i | 0 <= i < |keys| ensures keys[i] < EMPTY_SLOT { assert rows[i].0 in MapOf(rows); }
  }

  /** Startup on files a crash left behind: never refused, and the rows are the whole history. */
  method ReadHistory(crc: Crc, log: seq<byte>, snapshot: SnapshotFile, ghost down: State)
    returns (start: Startup, keys: seq<int>, values: seq<Value>)
    requires Inv(crc, down) && down.file.bytes == log && Holds(crc, snapshot, down.snap) && Fits(After(down.ops))
    ensures start.Ready? && start.log == Recovered(crc, log)
    ensures |keys| == |values| && StrictKeys(keys) && MapOf(Zip(keys, values)) == After(down.ops)
  {
    DiskMeansHistory(crc, down);
    hide Inv, Scan, Replay, MapOf, Recovered, Snapshot.Reading, Fits, SortedEntries;
    start := ReadFiles(crc, log, snapshot);
    keys, values := Unzip(start.rows);
  }

  // ---- The trail of protocol steps ----

  ghost predicate TrailStep(crc: Crc, k: nat, trail: seq<State>, i: nat)
    requires i + 1 < |trail|
  {
    ProgramStep(crc, k, trail[i], trail[i + 1])
  }

  ghost predicate Trail(crc: Crc, k: nat, trail: seq<State>) {
    |trail| > 0 && forall i: nat :: i + 1 < |trail| ==> TrailStep(crc, k, trail, i)
  }

  lemma TrailGrows(crc: Crc, k: nat, trail: seq<State>, s: State)
    requires Trail(crc, k, trail) && ProgramStep(crc, k, trail[|trail| - 1], s)
    ensures Trail(crc, k, trail + [s])
  {
    hide ProgramStep;
    var longer := trail + [s];
    forall i: nat | i + 1 < |longer| ensures TrailStep(crc, k, longer, i) {
      if i + 1 < |trail| { assert TrailStep(crc, k, trail, i); }
    }
  }

  /** What a store does continues any run of the protocol that led to its start, step by step: a
      crash between any two of its steps is a crash of that run. */
  lemma TrailsContinueRuns(crc: Crc, k: nat, c: Crashes, ss: seq<State>, trail: seq<State>)
    requires Run(crc, k, c, ss) && Trail(crc, k, trail) && Last(ss) == trail[0]
    ensures forall n: nat :: n < |trail| ==> ContinuesTo(crc, k, c, ss, trail, n)
  {
    hide ProgramStep, ProcessCrash, PowerLoss;
    forall n: nat | n < |trail| ensures ContinuesTo(crc, k, c, ss, trail, n) {
      var longer := ss + trail[1..n + 1];
      assert longer[0] == ss[0] && Last(longer) == trail[n];
      forall i: nat | i + 1 < |longer| ensures StepAt(crc, k, c, longer, i) {
        if i + 1 < |ss| {
          assert StepAt(crc, k, c, ss, i);
        } else {
          assert TrailStep(crc, k, trail, i + 1 - |ss|);
        }
      }
    }
  }

  ghost predicate ContinuesTo(crc: Crc, k: nat, c: Crashes, ss: seq<State>, trail: seq<State>, n: nat)
    requires |ss| > 0 && n < |trail|
  {
    var longer := ss + trail[1..n + 1];
    Run(crc, k, c, longer) && Last(longer) == trail[n]
  }

  /** All rows of a table that fits are storable and in the range a checkpoint scans. */
  lemma RowsStorable(rows: seq<Row>)
    requires SortedEntries(rows) && Fits(MapOf(rows))
    ensures Snapshot.Storable(rows)
  {
    MapOfSorted(rows);
    forall i | 0 <= i < |rows| ensures Snapshot.Fits(rows[i]) { assert rows[i].0 in MapOf(rows); }
    if rows != [] {
      KeysSpread(rows, |rows| - 1);
      assert Snapshot.Fits(rows[0]) && Snapshot.Fits(rows[|rows| - 1]);
    }
  }

  lemma {:induction false} KeysSpread(rows: seq<Row>, i: nat)
    requires SortedEntries(rows) && i < |rows|
    ensures rows[i].0 >= rows[0].0 + i
  {
    if i > 0 { KeysSpread(rows, i - 1); }
  }

  lemma RestrictsNothing(table: Table)
    requires Fits(table)
    ensures Restrict(table, -TWO_63, EMPTY_SLOT - 1) == table
  {
  }

  lemma RenameFrom(s: State) returns (renamed: State)
    requires s.pc.Idle?
    ensures Rename(s, renamed) && renamed.file.bytes == s.file.bytes
    ensures renamed.snap == renamed.mem == s.mem && renamed.unsynced == s.unsynced
  {
    renamed := s.(pc := Renamed, snap := s.mem, oldSnaps := s.oldSnaps + {s.snap},
                  file := Under(s.file, |s.ops|), oldFiles := AllUnder(s.oldFiles, |s.ops|));
  }

  class DurableStore {
    const crc: Crc
    const syncEvery: nat
    const checkpointEvery: nat
    const index: GappedArray<Value>

    // the two files
    var log: seq<byte>
    var snapshot: SnapshotFile

    var unsynced: nat
    var writesSinceCheckpoint: nat
    var checkpoints: nat
    var snapshotEntries: nat
    var recoveredEntries: nat

    ghost var trail: seq<State>

    ghost function Now(): State
      reads this
      requires |trail| > 0
    {
      trail[|trail| - 1]
    }

    /** The files and counters are where the protocol is. */
    ghost predicate InStep()
      reads this
    {
      && syncEvery >= 1
      && Trail(crc, syncEvery, trail) && Inv(crc, Now())
      && Now().file.bytes == log && Now().unsynced == unsynced
      && Holds(crc, snapshot, Now().snap)
      && Fits(Now().mem)
    }

    ghost predicate Valid()
      reads this, index
    {
      index.Valid() && InStep() && Now().pc.Idle? && index.Model() == Now().mem
    }

    /** Takes one protocol step. */
    ghost method Go(s: State)
      requires |trail| > 0 && Trail(crc, syncEvery, trail) && Inv(crc, Now())
      requires ProgramStep(crc, syncEvery, Now(), s)
      modifies this`trail
      ensures trail == old(trail) + [s] && Now() == s
      ensures Trail(crc, syncEvery, trail) && Inv(crc, s)
    {
      ProgramStepInv(crc, syncEvery, Now(), s);
      TrailGrows(crc, syncEvery, trail, s);
      trail := trail + [s];
    }

    /** Starts a store on the files a crash left behind. Whatever step the crash interrupted, they
        are never refused, and every operation in the history is back. */
    constructor Open(crc: Crc, log: seq<byte>, snapshot: SnapshotFile, density: real, eps: nat,
                     checkpointEvery: nat, syncEvery: nat, ghost down: State)
      requires 0.0 < density
      requires down.pc.Down? && Inv(crc, down) && down.unsynced == 0
      requires down.file.bytes == log && Holds(crc, snapshot, down.snap) && Fits(After(down.ops))
      ensures Valid() && trail[0] == down
      ensures index.Model() == After(down.ops) && Now().ops == down.ops
      ensures this.log == Recovered(crc, log)
      ensures fresh(index)
    {
      hide Inv, After, MapOf, Recovered, SnapshotReading, Fits, Zip, StrictKeys, LaidOut, SegmentsKept, SortedSlots,
        Entries, Trail, Holds;
      this.crc, this.checkpointEvery := crc, checkpointEvery;
      var k := if syncEvery == 0 then 1 else syncEvery;
      this.syncEvery := k;
      var start, keys, values := ReadHistory(crc, log, snapshot, down);
      this.index := new GappedArray.Build(keys, values, density, eps, []);
      this.log, this.snapshot := start.log, snapshot;
      this.unsynced, this.writesSinceCheckpoint, this.checkpoints := 0, start.replayed, 0;
      this.snapshotEntries, this.recoveredEntries := start.loaded, start.replayed;
      this.trail := [down];
      new;
      StartTrail(down);
    }

    /** Recovery's steps: open the log as it is, or cut its torn tail and fsync. */
    ghost method StartTrail(down: State)
      requires down.pc.Down? && Inv(crc, down) && down.unsynced == 0 && trail == [down] && syncEvery >= 1
      modifies this`trail
      ensures |trail| > 0 && trail[0] == down && Trail(crc, syncEvery, trail) && Inv(crc, Now())
      ensures var s := Now();
        && s.pc.Idle? && s.mem == After(down.ops) && s.ops == down.ops && s.snap == down.snap && s.unsynced == 0
        && s.file.bytes == Recovered(crc, down.file.bytes)
    {
      hide Inv, Scan, Replay, LogBytes, After;
      DiskMeansHistory(crc, down);
      CutIsShorter(crc, down);
      var mem, cut, bytes := After(down.ops), Recovered(crc, down.file.bytes), down.file.bytes;
      if cut == bytes {
        Go(down.(pc := Idle, mem := mem));
      } else {
        var f := down.file.(bytes := cut, kept := if down.file.kept < |cut| then down.file.kept else |cut|);
        Go(down.(pc := Cutting(bytes[|cut|..]), file := f));
        DiskMeansHistory(crc, Now());
        Go(Now().(pc := Idle, file := Synced(f), oldFiles := [], mem := mem));
      }
    }

    /** append(): the record goes out in one write and is fsync'd if enough have gathered. The
        index does not change yet. */
    method Append(r: WalRecord)
      requires Valid()
      requires r.key < EMPTY_SLOT && |r.value| < TWO_32 && (r.kind.DELETE? ==> r.key in index.Model())
      modifies this`log, this`unsynced, this`trail
      ensures InStep() && old(trail) <= trail
      ensures Now().pc == Logged(r) && Now().ops == old(Now().ops) + [r] && Now().mem == old(Now().mem)
    {
      WriteRecord(r);
      SyncIfDue(r);
    }

    method WriteRecord(r: WalRecord)
      requires Valid()
      requires r.key < EMPTY_SLOT && |r.value| < TWO_32 && (r.kind.DELETE? ==> r.key in index.Model())
      modifies this`log, this`unsynced, this`trail
      ensures InStep() && old(trail) <= trail
      ensures Now().pc == Written(r) && Now().ops == old(Now().ops) + [r] && Now().mem == old(Now().mem)
    {
      hide Inv, Encode, Holds, Fits, MapOf, Entries, SortedSlots, Run, Step;
      FirstOfEncoded(crc, r, []);
      assert |trail| > 0;
      ghost var s := Now();
      ghost var e := Encode(crc, r);
      assert e[0..] == e;
      ghost var begun := s.(pc := Writing(r, 0));
      ghost var written := s.(pc := Written(r), unsynced := s.unsynced + 1, ops := s.ops + [r],
        file := s.file.(bytes := s.file.bytes + e, recs := s.file.recs + [r], at := s.file.at + 1));
      assert Begin(s, begun);
      Go(begun);
      log := log + Encode(crc, r);
      unsynced := unsynced + 1;
      assert WriteLast(crc, begun, written);
      Go(written);
    }

    method SyncIfDue(r: WalRecord)
      requires |trail| > 0 && InStep() && Now().pc == Written(r)
      modifies this`unsynced, this`trail
      ensures InStep() && trail == old(trail) + [Now()] && FinishAppend(syncEvery, old(Now()), Now())
    {
      hide Inv, Trail, Holds, Fits;
      ghost var s := Now();
      ghost var logged := s.(pc := Logged(s.pc.r));
      if unsynced >= syncEvery {
        unsynced := 0;
        logged := logged.(file := Synced(s.file), oldFiles := [], unsynced := 0);
      }
      assert FinishAppend(syncEvery, s, logged);
      Go(logged);
    }

    /** The in-memory half of a write, after its record is logged. */
    ghost method Applied(r: WalRecord)
      requires index.Valid() && InStep() && Now().pc == Logged(r) && index.Model() == Apply(Now().mem, r)
      requires r.key < EMPTY_SLOT && |r.value| < TWO_32
      modifies this`trail
      ensures Valid() && old(trail) <= trail && Now().ops == old(Now().ops) && Now().acked == |Now().ops|
    {
      FitsAfter(Now().mem, r);
      assert |trail| > 0;
      hide Inv, Trail, Holds, Fits;
      ghost var s := Now();
      Go(s.(pc := Idle, mem := Apply(s.mem, r), acked := |s.ops|));
    }

    /** Logged first, then applied; maybe a checkpoint. */
    method Put(key: int64, value: Value)
      requires Valid() && key < EMPTY_SLOT && |value| < TWO_32
      modifies this, index
      ensures Valid() && old(trail) <= trail
      ensures index.Model() == old(index.Model())[key := value]
      ensures Now().ops == old(Now().ops) + [WalRecord(PUT, key, value)] && Now().acked == |Now().ops|
    {
      var r := WalRecord(PUT, key, value);
      Append(r);
      hide Inv, Trail, Holds, Fits;
      index.Insert(key, value);
      Applied(r);
      AfterWrite();
    }

    /** Nothing at all for a key that is not there. */
    method Remove(key: int64) returns (removed: bool)
      requires Valid() && key < EMPTY_SLOT
      modifies this, index
      ensures Valid() && old(trail) <= trail
      ensures removed == (key in old(index.Model())) && index.Model() == old(index.Model()) - {key}
      ensures !removed ==> trail == old(trail) && log == old(log)
      ensures removed ==> Now().ops == old(Now().ops) + [WalRecord(DELETE, key, [])] && Now().acked == |Now().ops|
    {
      var idx;
      removed, idx := index.Search(key);
      if !removed { return; }
      var r := WalRecord(DELETE, key, []);
      Append(r);
      hide Inv, Trail, Holds, Fits;
      removed := index.Remove(key);
      Applied(r);
      AfterWrite();
    }

    method AfterWrite()
      requires Valid()
      modifies this
      ensures Valid() && old(trail) <= trail
      ensures index.Model() == old(index.Model())
      ensures Now().ops == old(Now().ops) && Now().acked == old(Now().acked)
    {
      hide Inv, Trail, Holds, Fits;
      if checkpointEvery > 0 {
        writesSinceCheckpoint := writesSinceCheckpoint + 1;
        if writesSinceCheckpoint >= checkpointEvery {
          Checkpoint();
        }
      }
    }

    /** The whole store into a snapshot, then the log emptied. */
    method Checkpoint()
      requires Valid()
      modifies this
      ensures Valid() && old(trail) <= trail
      ensures index.Model() == old(index.Model())
      ensures Now().ops == old(Now().ops) && Now().acked == old(Now().acked)
      ensures log == Magic() && Holds(crc, snapshot, index.Model())
      ensures writesSinceCheckpoint == 0 && checkpoints == old(checkpoints) + 1 && unsynced == 0
    {
      hide Inv, Trail, Holds, Fits;
      SaveAndEmpty();
      writesSinceCheckpoint := 0;
      checkpoints := checkpoints + 1;
    }

    method SaveAndEmpty()
      requires Valid()
      modifies this`log, this`snapshot, this`unsynced, this`trail
      ensures Valid() && old(trail) <= trail
      ensures Now().ops == old(Now().ops) && Now().acked == old(Now().acked)
      ensures log == Magic() && Holds(crc, snapshot, index.Model()) && unsynced == 0
    {
      hide InStep, Holds;
      ghost var model := index.Model();
      var bytes := WriteRows();
      Save(bytes);
      EmptyLog();
      assert index.Model() == model && snapshot == SnapshotFile(bytes);
    }

    /** The bytes of a snapshot of everything in the index. */
    method WriteRows() returns (bytes: seq<byte>)
      requires Valid()
      ensures Holds(crc, SnapshotFile(bytes), index.Model())
    {
      hide Trail, Inv, Snapshot.SnapshotBytes, Restrict, RangeOf;
      var rows := index.RangeScan(-TWO_63, EMPTY_SLOT - 1);
      RestrictsNothing(index.Model());
      bytes := Snapshot.WriteSnapshot(crc, rows);
      RowsStorable(rows);
      Snapshot.ReadsExactly(crc, bytes, rows);
    }

    /** write_snapshot(): renamed into place, then the directory synced. */
    method Save(bytes: seq<byte>)
      requires Valid() && Holds(crc, SnapshotFile(bytes), index.Model())
      modifies this`snapshot, this`trail
      ensures InStep() && old(trail) <= trail && snapshot == SnapshotFile(bytes)
      ensures Now().pc.Saved? && Now().ops == old(Now().ops) && Now().acked == old(Now().acked)
      ensures index.Valid() && index.Model() == Now().mem
    {
      RenameIntoPlace(bytes);
      hide InStep;
      SyncDirectoryEntry();
    }

    method RenameIntoPlace(bytes: seq<byte>)
      requires Valid() && Holds(crc, SnapshotFile(bytes), index.Model())
      modifies this`snapshot, this`trail
      ensures InStep() && trail == old(trail) + [Now()] && snapshot == SnapshotFile(bytes)
      ensures Rename(old(Now()), Now())
    {
      assert |trail| > 0;
      hide Inv, Trail, Holds, Fits, Rename;
      ghost var renamed := RenameFrom(Now());
      snapshot := SnapshotFile(bytes);
      Go(renamed);
    }

    ghost method SyncDirectoryEntry()
      requires |trail| > 0 && InStep() && Now().pc.Renamed?
      modifies this`trail
      ensures InStep() && trail == old(trail) + [Now()] && SyncDirectory(old(Now()), Now())
    {
      hide Inv, Trail, Holds, Fits;
      Go(Now().(pc := Saved, oldSnaps := {}));
    }

    /** reset(): truncated to its header, then fsync'd. */
    method EmptyLog()
      requires index.Valid() && InStep() && Now().pc.Saved? && index.Model() == Now().mem
      modifies this`log, this`unsynced, this`trail
      ensures Valid() && old(trail) <= trail && log == Magic() && unsynced == 0
      ensures Now().ops == old(Now().ops) && Now().acked == old(Now().acked)
    {
      TruncateLog();
      hide InStep;
      SyncEmptied();
    }

    method TruncateLog()
      requires InStep() && Now().pc.Saved?
      modifies this`log, this`trail
      ensures InStep() && trail == old(trail) + [Now()] && log == Magic() && Truncate(old(Now()), Now())
    {
      assert |trail| > 0;
      hide Inv, Trail, Holds, Fits;
      ghost var s := Now();
      log := Magic();
      Go(s.(pc := Emptied, oldFiles := s.oldFiles + [s.file], file := File(Magic(), MAGIC_LEN, [], 0, |s.ops|)));
    }

    method SyncEmptied()
      requires |trail| > 0 && InStep() && Now().pc.Emptied?
      modifies this`unsynced, this`trail
      ensures InStep() && trail == old(trail) + [Now()] && unsynced == 0 && SyncTruncate(old(Now()), Now())
    {
      hide Inv, Trail, Holds, Fits;
      ghost var s := Now();
      unsynced := 0;
      Go(s.(pc := Idle, oldFiles := [], file := Synced(s.file), unsynced := 0));
    }

    /** Forces the records this process has not fsync'd yet to disk, if it counts any. */
    method Sync()
      requires Valid()
      modifies this`unsynced, this`trail
      ensures Valid() && old(trail) <= trail && unsynced == 0
      ensures Now().ops == old(Now().ops)
      ensures old(unsynced) > 0 ==> Now().file.kept == |log|
    {
      assert |trail| > 0;
      hide Inv, Trail, Holds, Fits;
      ghost var s := Now();
      if unsynced > 0 {
        unsynced := 0;
        Go(s.(file := Synced(s.file), oldFiles := [], unsynced := 0));
      }
    }

    /** What a key holds is what the history of operations last said about it. */
    method Get(key: int64) returns (found: bool, value: Value)
      requires Valid() && key < EMPTY_SLOT
      ensures found <==> LastFor(Now().ops, key) >= 0 && Now().ops[LastFor(Now().ops, key)].kind.PUT?
      ensures found ==> value == Now().ops[LastFor(Now().ops, key)].value
    {
      found, value := index.Get(key);
      LastWriteWins(map[], Now().ops, key);
    }

    /** All entries with keys in [lo, hi], in key order. */
    method RangeScan(lo: int, hi: int) returns (rows: seq<Row>)
      requires Valid() && lo < EMPTY_SLOT
      ensures SortedEntries(rows) && MapOf(rows) == Restrict(index.Model(), lo, hi)
    {
      rows := index.RangeScan(lo, hi);
    }
  }

  lemma CutIsShorter(crc: Crc, s: State)
    requires Inv(crc, s)
    ensures Scan(crc, s.file.bytes).Scanned? && |Recovered(crc, s.file.bytes)| <= |s.file.bytes|
  {
    DiskMeansHistory(crc, s);
  }
}
