/** Whole runs of the durability protocol: what survives when only processes crash, when only
    the power fails, and with sync_every = 1 when both do; and the sync_every for which a
    checkpoint is safe against power loss. */
module StoreRuns {
  import opened Bytes
  import opened WriteAheadLog
  import opened ApplyLog
  import opened StoreMachine

  /** Which crashes a run contains besides the program's own steps. */
  datatype Crashes = Crashes(process: bool, power: bool)

  ghost predicate Step(crc: Crc, k: nat, c: Crashes, s: State, s': State) {
    || ProgramStep(crc, k, s, s')
    || (c.process && ProcessCrash(s, s'))
    || (c.power && PowerLoss(crc, s, s'))
  }

  ghost predicate StepAt(crc: Crc, k: nat, c: Crashes, ss: seq<State>, i: nat)
    requires i + 1 < |ss|
  {
    Step(crc, k, c, ss[i], ss[i + 1])
  }

  ghost predicate Run(crc: Crc, k: nat, c: Crashes, ss: seq<State>) {
    && |ss| > 0 && Init(ss[0])
    && forall i: nat :: i + 1 < |ss| ==> StepAt(crc, k, c, ss, i)
  }

  lemma Earlier(crc: Crc, k: nat, c: Crashes, ss: seq<State>)
    requires Run(crc, k, c, ss) && |ss| > 1
    ensures var n := |ss| - 1; Run(crc, k, c, ss[..n]) && Step(crc, k, c, ss[n - 1], ss[n])
  {
    var n := |ss| - 1;
    forall i: nat | i + 1 < n ensures StepAt(crc, k, c, ss[..n], i) {
      assert StepAt(crc, k, c, ss, i);
    }
    assert StepAt(crc, k, c, ss, n - 1);
  }

  ghost function Last(ss: seq<State>): State
    requires |ss| > 0
  {
    ss[|ss| - 1]
  }

  /** table is the state after the first m operations for some m that leaves out at most lost of
      the acknowledged ones. */
  ghost predicate KeepsAllBut(s: State, table: Table, lost: nat) {
    exists m: nat :: m <= |s.ops| && s.acked <= m + lost && table == After(s.ops[..m])
  }

  // ---- Process crashes only ----

  /** However often the process crashes, wherever it crashes and whatever sync_every is, startup
      loads every operation whose record is whole, all the acknowledged ones among them. */
  lemma {:induction false} ProcessCrashesLoseNothing(crc: Crc, k: nat, ss: seq<State>)
    requires Run(crc, k, Crashes(true, false), ss)
    ensures Inv(crc, Last(ss))
    ensures var s := Last(ss); Loaded(crc, s.snap, s.file.bytes) == After(s.ops) && s.acked <= |s.ops|
    decreases |ss|
  {
    hide Inv, ProgramStep, ProcessCrash, PowerLoss, Loaded, After;
    var s := Last(ss);
    if |ss| == 1 {
      InitInv(crc, s);
    } else {
      Earlier(crc, k, Crashes(true, false), ss);
      var before := ss[|ss| - 2];
      ProcessCrashesLoseNothing(crc, k, ss[..|ss| - 1]);
      if ProcessCrash(before, s) { ProcessCrashInv(crc, before, s); } else { ProgramStepInv(crc, k, before, s); }
    }
    DiskMeansHistory(crc, s);
    AckedInHistory(crc, s);
  }

  /** 1 between the last byte of a record and the return of its call. */
  function InFlight(s: State): nat {
    if s.pc.Written? || s.pc.Logged? then 1 else 0
  }

  /** How many process crashes hit an operation in flight. */
  ghost function Interrupted(ss: seq<State>): nat {
    if |ss| < 2 then 0 else Interrupted(ss[..|ss| - 1]) + (if ss[|ss| - 1].pc.Down? then InFlight(ss[|ss| - 2]) else 0)
  }

  /** And no others but the ones in flight at a crash, one for each: after one crash, at most one. */
  lemma {:induction false} OnlyInFlightUnacked(crc: Crc, k: nat, ss: seq<State>)
    requires Run(crc, k, Crashes(true, false), ss)
    ensures |Last(ss).ops| <= Last(ss).acked + Interrupted(ss) + InFlight(Last(ss))
    decreases |ss|
  {
    if |ss| > 1 {
      Earlier(crc, k, Crashes(true, false), ss);
      hide Run, ProgramStep, ProcessCrash;
      OnlyInFlightUnacked(crc, k, ss[..|ss| - 1]);
      StepUnacked(crc, k, ss[|ss| - 2], Last(ss), Interrupted(ss[..|ss| - 1]));
    }
  }

  lemma StepUnacked(crc: Crc, k: nat, s: State, s': State, n: nat)
    requires ProcessCrash(s, s') || ProgramStep(crc, k, s, s')
    requires |s.ops| <= s.acked + n + InFlight(s)
    ensures |s'.ops| <= s'.acked + n + (if s'.pc.Down? then InFlight(s) else 0) + InFlight(s')
  {
    hide Loaded, Encode, Scan, AllUnder, Under, Recovered;
  }

  lemma AckedInHistory(crc: Crc, s: State)
    requires Inv(crc, s)
    ensures s.acked <= |s.ops|
  {
  }

  // ---- Power losses only ----

  ghost predicate InCheckpoint(pc: Pc) {
    pc.Renamed? || pc.Saved? || pc.Emptied?
  }

  /** A file that survives losing everything not fsync'd, or all but its last record does. */
  ghost predicate NearlySafe(crc: Crc, f: File) {
    f.floor <= Durable(crc, f) || f.floor < |f.recs|
  }

  /** With no process crash, what is not fsync'd is what this process has counted. */
  ghost predicate Counted(crc: Crc, k: nat, s: State) {
    && Loose(crc, s.file) <= s.unsynced
    && (if s.pc.Written? then s.unsynced <= k else s.unsynced < k)
    && (InCheckpoint(s.pc) || s.file.floor <= Durable(crc, s.file))
    && NearlySafe(crc, s.file)
    && (if s.pc.Emptied? then |s.oldFiles| == 1 && OldCounted(crc, k, s.oldFiles[0], s) else s.oldFiles == [])
    && (s.pc.Down? || s.pc.Cutting? ==> Loose(crc, s.file) == s.unsynced == 0)
  }

  ghost predicate OldCounted(crc: Crc, k: nat, f: File, s: State) {
    f.at == |s.ops| && NearlySafe(crc, f) && Loose(crc, f) < k
  }

  lemma {:induction false} WholeAppend(crc: Crc, rs: seq<WalRecord>, r: WalRecord, n: nat)
    ensures WholeRecords(crc, rs, n) <= WholeRecords(crc, rs + [r], n)
  {
    if rs != [] && n >= |Encode(crc, rs[0])| {
      WholeAppend(crc, rs[1..], r, n - |Encode(crc, rs[0])|);
      assert (rs + [r])[1..] == rs[1..] + [r];
    }
  }

  lemma SyncedIsDurable(crc: Crc, f: File)
    requires f.bytes == LogBytes(crc, f.recs)
    ensures Loose(crc, Synced(f)) == 0
  {
    WholeOfAll(crc, f.recs, |EncodeAll(crc, f.recs)|);
  }

  lemma WritingCounted(crc: Crc, k: nat, s: State, s': State)
    requires k >= 1 && Inv(crc, s) && Counted(crc, k, s)
    requires Begin(s, s') || WriteSome(crc, s, s') || WriteLast(crc, s, s')
    ensures Counted(crc, k, s')
  {
    hide Inv, Encode, WholeRecords;
    if WriteLast(crc, s, s') {
      WholeAppend(crc, s.file.recs, s.pc.r, if s.file.kept < MAGIC_LEN then 0 else s.file.kept - MAGIC_LEN);
    }
  }

  lemma SyncingCounted(crc: Crc, k: nat, s: State, s': State)
    requires k >= 1 && Inv(crc, s) && Counted(crc, k, s)
    requires FinishAppend(k, s, s') || ApplyInMemory(s, s') || SyncCall(s, s') || SyncTruncate(s, s')
    ensures Counted(crc, k, s')
  {
    if s.file.bytes == LogBytes(crc, s.file.recs) { SyncedIsDurable(crc, s.file); }
  }

  lemma CheckpointCounted(crc: Crc, k: nat, s: State, s': State)
    requires k >= 1 && Inv(crc, s) && Counted(crc, k, s)
    requires Rename(s, s') || SyncDirectory(s, s') || Truncate(s, s')
    ensures Counted(crc, k, s')
  {
    hide WholeRecords, PcOk, FileOk, AllExplained;
    assert |AllUnder([], |s.ops|)| == 0;
  }

  lemma OpeningCounted(crc: Crc, k: nat, s: State, s': State)
    requires k >= 1 && Inv(crc, s) && Counted(crc, k, s)
    requires OpenClean(crc, s, s') || CutTail(crc, s, s') || OpenCut(crc, s, s')
    ensures Counted(crc, k, s')
  {
    DiskMeansHistory(crc, s);
    if OpenCut(crc, s, s') {
      SyncedIsDurable(crc, s.file);
    } else if CutTail(crc, s, s') {
      CutLoosensNothing(crc, s, s');
    }
  }

  /** Cutting a torn tail costs no record its fsync. */
  lemma CutLoosensNothing(crc: Crc, s: State, s': State)
    requires Inv(crc, s) && CutTail(crc, s, s')
    ensures Loose(crc, s'.file) == Loose(crc, s.file)
  {
    hide *;
    var rs, kept := s.file.recs, s.file.kept;
    var whole := |EncodeAll(crc, rs)|;
    CutBytes(crc, s, s', whole);
    if kept >= MAGIC_LEN + whole { CapKept(crc, rs, kept - MAGIC_LEN); }
    LooseIs(crc, s.file);
    LooseIs(crc, s'.file);
  }

  lemma CapKept(crc: Crc, rs: seq<WalRecord>, n: nat)
    requires n >= |EncodeAll(crc, rs)|
    ensures WholeRecords(crc, rs, n) == WholeRecords(crc, rs, |EncodeAll(crc, rs)|)
  {
    WholeOfAll(crc, rs, n);
    WholeOfAll(crc, rs, |EncodeAll(crc, rs)|);
  }

  lemma LooseIs(crc: Crc, f: File)
    requires f.kept >= MAGIC_LEN
    ensures Loose(crc, f) == |f.recs| - WholeRecords(crc, f.recs, f.kept - MAGIC_LEN)
  {
  }

  lemma CutBytes(crc: Crc, s: State, s': State, whole: nat)
    requires Inv(crc, s) && CutTail(crc, s, s') && whole == |EncodeAll(crc, s.file.recs)|
    ensures s.file.kept >= MAGIC_LEN && s'.file.recs == s.file.recs
    ensures s'.file.kept == if s.file.kept < MAGIC_LEN + whole then s.file.kept else MAGIC_LEN + whole
  {
    DiskMeansHistory(crc, s);
  }

  lemma ProgramStepCounted(crc: Crc, k: nat, s: State, s': State)
    requires k >= 1 && Inv(crc, s) && Counted(crc, k, s) && ProgramStep(crc, k, s, s')
    ensures Counted(crc, k, s')
  {
    hide Inv, Counted;
    if Begin(s, s') || WriteSome(crc, s, s') || WriteLast(crc, s, s') {
      WritingCounted(crc, k, s, s');
    } else if FinishAppend(k, s, s') || ApplyInMemory(s, s') || SyncCall(s, s') || SyncTruncate(s, s') {
      SyncingCounted(crc, k, s, s');
    } else if Rename(s, s') || SyncDirectory(s, s') || Truncate(s, s') {
      CheckpointCounted(crc, k, s, s');
    } else {
      OpeningCounted(crc, k, s, s');
    }
  }

  /** Moments at which a counted state can lose power: any, if at most one record at a time waits
      for its fsync; otherwise any outside a checkpoint. */
  ghost predicate CalmMoment(k: nat, s: State) {
    k <= 2 || !InCheckpoint(s.pc)
  }

  lemma CalmIsSafe(crc: Crc, k: nat, s: State)
    requires k >= 1 && Inv(crc, s) && Counted(crc, k, s) && CalmMoment(k, s)
    ensures SafeToLose(crc, s)
  {
    hide Inv, WholeRecords;
    forall i | 0 <= i < |Files(s)| ensures Files(s)[i].floor <= Durable(crc, Files(s)[i]) {
      if i == 0 {
        assert Durable(crc, Files(s)[0]) == Durable(crc, s.file);
      }
    }
  }

  lemma LooseIsFew(crc: Crc, k: nat, s: State, i: nat)
    requires k >= 1 && Inv(crc, s) && Counted(crc, k, s) && i < |Files(s)|
    ensures var f := Files(s)[i]; f.at == |s.ops| && Loose(crc, f) <= k - 1 + (|s.ops| - s.acked)
  {
    hide WholeRecords, FileOk, AllExplained;
  }

  /** A power loss at a calm moment of such a run loses at most sync_every - 1 acknowledged
      operations, and always the latest ones. */
  lemma CalmLoss(crc: Crc, k: nat, s: State, t: Table, i: nat, n: nat)
    requires k >= 1 && Inv(crc, s) && Counted(crc, k, s) && CalmMoment(k, s) && Outcome(s, t, i, n)
    ensures KeepsAllBut(s, Loaded(crc, t, Files(s)[i].bytes[..n]), k - 1)
  {
    CalmIsSafe(crc, k, s);
    SafeOutcome(crc, s, t, i, n);
    LooseIsFew(crc, k, s, i);
    var f := Files(s)[i];
    hide Inv, Counted, Outcome, Loose, Loaded, Files, SafeToLose, CalmMoment;
    var table := Loaded(crc, t, f.bytes[..n]);
    var m: nat :| m <= |s.ops| && f.at <= m + Loose(crc, f) && table == After(s.ops[..m]);
    assert s.acked <= m + (k - 1);
  }

  /** Power losses at calm moments only. */
  ghost predicate CalmRun(crc: Crc, k: nat, ss: seq<State>) {
    && Run(crc, k, Crashes(false, true), ss)
    && forall i: nat :: i + 1 < |ss| ==> CalmAt(crc, k, ss, i)
  }

  ghost predicate CalmAt(crc: Crc, k: nat, ss: seq<State>, i: nat)
    requires i + 1 < |ss|
  {
    PowerLoss(crc, ss[i], ss[i + 1]) ==> CalmMoment(k, ss[i])
  }

  lemma {:induction false} CalmRunsStayCounted(crc: Crc, k: nat, ss: seq<State>)
    requires k >= 1 && CalmRun(crc, k, ss)
    ensures Inv(crc, Last(ss)) && Counted(crc, k, Last(ss))
    decreases |ss|
  {
    hide Inv, ProgramStep, PowerLoss, CalmMoment;
    var s := Last(ss);
    if |ss| == 1 {
      InitInv(crc, s);
      InitCounted(crc, k, s);
    } else {
      hide Counted, Init;
      var n := |ss| - 1;
      Earlier(crc, k, Crashes(false, true), ss);
      forall i: nat | i + 1 < n ensures CalmAt(crc, k, ss[..n], i) { assert CalmAt(crc, k, ss, i); }
      CalmRunsStayCounted(crc, k, ss[..n]);
      var before := ss[n - 1];
      if PowerLoss(crc, before, s) {
        assert CalmAt(crc, k, ss, n - 1);
        LossCounted(crc, k, before, s);
      } else {
        ProgramStepInv(crc, k, before, s);
        ProgramStepCounted(crc, k, before, s);
      }
    }
  }

  lemma InitCounted(crc: Crc, k: nat, s: State)
    requires k >= 1 && Init(s)
    ensures Counted(crc, k, s)
  {
  }

  lemma LossCounted(crc: Crc, k: nat, s: State, s': State)
    requires k >= 1 && Inv(crc, s) && Counted(crc, k, s) && CalmMoment(k, s) && PowerLoss(crc, s, s')
    ensures Inv(crc, s') && Counted(crc, k, s')
  {
    CalmIsSafe(crc, k, s);
    var i: nat, n: nat :| PowerLossTo(crc, s, s', i, n);
    PowerLossInv(crc, s, s', i, n);
  }

  /** The whole guarantee against power loss. In every run whose power losses fall on calm
      moments, any further power loss at a calm moment leaves the state after a prefix of the
      operations that misses at most sync_every - 1 acknowledged ones; with sync_every = 1 every
      moment is calm and none is missed. */
  lemma PowerLossesKeepPrefix(crc: Crc, k: nat, ss: seq<State>, t: Table, i: nat, n: nat)
    requires k >= 1 && CalmRun(crc, k, ss)
    requires CalmMoment(k, Last(ss)) && Outcome(Last(ss), t, i, n)
    ensures KeepsAllBut(Last(ss), Loaded(crc, t, Files(Last(ss))[i].bytes[..n]), k - 1)
  {
    CalmRunsStayCounted(crc, k, ss);
    CalmLoss(crc, k, Last(ss), t, i, n);
  }

  // ---- sync_every = 1 under both kinds of crash ----

  /** Every acknowledged operation is in the fsync'd part of every file that may come back. */
  ghost predicate AckedAreDurable(crc: Crc, s: State) {
    && s.acked + Loose(crc, s.file) <= |s.ops|
    && (forall i :: 0 <= i < |s.oldFiles| ==> OldAcked(crc, s.oldFiles[i], s.acked))
    && (s.pc.Written? ==> s.unsynced >= 1)
    && (s.pc.Logged? ==> Loose(crc, s.file) == 0 && s.oldFiles == [])
  }

  ghost predicate OldAcked(crc: Crc, f: File, acked: nat) {
    acked + Loose(crc, f) <= f.at
  }

  lemma WritingAcked(crc: Crc, s: State, s': State)
    requires Inv(crc, s) && AckedAreDurable(crc, s)
    requires Begin(s, s') || WriteSome(crc, s, s') || WriteLast(crc, s, s')
    ensures AckedAreDurable(crc, s')
  {
    hide Inv, Encode, WholeRecords;
    if WriteLast(crc, s, s') {
      WholeAppend(crc, s.file.recs, s.pc.r, if s.file.kept < MAGIC_LEN then 0 else s.file.kept - MAGIC_LEN);
    }
  }

  lemma SyncingAcked(crc: Crc, s: State, s': State)
    requires Inv(crc, s) && AckedAreDurable(crc, s)
    requires FinishAppend(1, s, s') || ApplyInMemory(s, s') || SyncCall(s, s') || SyncTruncate(s, s')
    ensures AckedAreDurable(crc, s')
  {
    if s.file.bytes == LogBytes(crc, s.file.recs) { SyncedIsDurable(crc, s.file); }
  }

  lemma CheckpointAcked(crc: Crc, s: State, s': State)
    requires Inv(crc, s) && AckedAreDurable(crc, s)
    requires Rename(s, s') || SyncDirectory(s, s') || Truncate(s, s')
    ensures AckedAreDurable(crc, s')
  {
    hide WholeRecords, PcOk, FileOk, AllExplained;
    forall i | 0 <= i < |s'.oldFiles| ensures OldAcked(crc, s'.oldFiles[i], s'.acked) {
      assert i < |s.oldFiles| ==> OldAcked(crc, s.oldFiles[i], s.acked);
    }
  }

  lemma OpeningAcked(crc: Crc, s: State, s': State)
    requires Inv(crc, s) && AckedAreDurable(crc, s)
    requires OpenClean(crc, s, s') || CutTail(crc, s, s') || OpenCut(crc, s, s')
    ensures AckedAreDurable(crc, s')
  {
    if CutTail(crc, s, s') {
      CutLoosensNothing(crc, s, s');
    } else if OpenCut(crc, s, s') {
      SyncedIsDurable(crc, s.file);
    }
  }

  lemma ProgramStepAcked(crc: Crc, s: State, s': State)
    requires Inv(crc, s) && AckedAreDurable(crc, s) && ProgramStep(crc, 1, s, s')
    ensures AckedAreDurable(crc, s')
  {
    hide Inv, AckedAreDurable;
    if Begin(s, s') || WriteSome(crc, s, s') || WriteLast(crc, s, s') {
      WritingAcked(crc, s, s');
    } else if FinishAppend(1, s, s') || ApplyInMemory(s, s') || SyncCall(s, s') || SyncTruncate(s, s') {
      SyncingAcked(crc, s, s');
    } else if Rename(s, s') || SyncDirectory(s, s') || Truncate(s, s') {
      CheckpointAcked(crc, s, s');
    } else {
      OpeningAcked(crc, s, s');
    }
  }

  ghost predicate Sound(crc: Crc, s: State) {
    Inv(crc, s) && AckedAreDurable(crc, s)
  }

  lemma SafeStepSound(crc: Crc, s: State, s': State)
    requires Sound(crc, s) && Step(crc, 1, Crashes(true, true), s, s')
    requires PowerLoss(crc, s, s') ==> SafeToLose(crc, s)
    ensures Sound(crc, s')
  {
    hide Inv, ProgramStep, SafeToLose;
    if PowerLoss(crc, s, s') {
      var i: nat, n: nat :| PowerLossTo(crc, s, s', i, n);
      PowerLossInv(crc, s, s', i, n);
    } else if ProgramStep(crc, 1, s, s') {
      ProgramStepInv(crc, 1, s, s');
      ProgramStepAcked(crc, s, s');
    } else {
      ProcessCrashInv(crc, s, s');
    }
  }

  /** Everything on disk is fsync'd. */
  predicate AllSynced(s: State) {
    s.file.kept == |s.file.bytes| && s.oldFiles == []
  }

  /** How many appends a process crash has cut off, each between its record's last byte and its
      fsync, since everything was last fsync'd. */
  ghost function CutOff(ss: seq<State>): nat {
    if |ss| < 2 then 0 else CutOffAfter(CutOff(ss[..|ss| - 1]), ss[|ss| - 2], ss[|ss| - 1])
  }

  ghost function CutOffAfter(c: nat, s: State, s': State): nat {
    if AllSynced(s') then 0 else if s.pc.Written? && s'.pc.Down? then c + 1 else c
  }

  /** A run with sync_every = 1 and both kinds of crash in which the number of appends cut off since
      the last fsync never exceeds c. */
  ghost predicate CutsAtMost(crc: Crc, c: nat, ss: seq<State>) {
    && Run(crc, 1, Crashes(true, true), ss)
    && forall i: nat :: 0 < i <= |ss| ==> CutOff(ss[..i]) <= c
  }

  function OneIfWritten(s: State): nat {
    if s.pc.Written? then 1 else 0
  }

  /** c appends have been cut off: what a power loss can take from any file that may come back, and
      what that file does not reach, is no more than that and the record just written. */
  ghost predicate Few(crc: Crc, c: nat, s: State) {
    && Sound(crc, s)
    && Loose(crc, s.file) <= c + OneIfWritten(s) && s.file.floor <= Durable(crc, s.file)
    && forall i :: 0 <= i < |s.oldFiles| ==> OldFew(crc, c, s.oldFiles[i], s)
  }

  ghost predicate OldFew(crc: Crc, c: nat, f: File, s: State) {
    Loose(crc, f) + |s.ops| <= f.at + c + OneIfWritten(s) && f.floor <= Durable(crc, f)
  }

  lemma FewIsSafe(crc: Crc, c: nat, s: State)
    requires Few(crc, c, s)
    ensures SafeToLose(crc, s)
  {
    hide Sound, WholeRecords;
    forall i | 0 <= i < |Files(s)| ensures Files(s)[i].floor <= Durable(crc, Files(s)[i]) {
      if i == 0 {
        assert Durable(crc, Files(s)[0]) == Durable(crc, s.file);
      } else {
        assert OldFew(crc, c, s.oldFiles[i - 1], s);
      }
    }
  }

  /** With everything fsync'd there is nothing to count. */
  lemma AllSyncedIsFew(crc: Crc, s: State)
    requires Sound(crc, s) && AllSynced(s)
    ensures Few(crc, 0, s)
  {
    hide AllExplained, PcOk, NoRecord, Storable;
    assert LogBytes(crc, s.file.recs) <= s.file.bytes;
    WholeOfAll(crc, s.file.recs, s.file.kept - MAGIC_LEN);
  }

  lemma WritingFew(crc: Crc, c: nat, s: State, s': State)
    requires Few(crc, c, s) && Sound(crc, s')
    requires Begin(s, s') || WriteSome(crc, s, s') || WriteLast(crc, s, s')
    ensures Few(crc, c, s')
  {
    hide Sound, Encode, WholeRecords;
    if WriteLast(crc, s, s') {
      WholeAppend(crc, s.file.recs, s.pc.r, if s.file.kept < MAGIC_LEN then 0 else s.file.kept - MAGIC_LEN);
    }
    forall i | 0 <= i < |s'.oldFiles| ensures OldFew(crc, c, s'.oldFiles[i], s') {
      assert OldFew(crc, c, s.oldFiles[i], s);
    }
  }

  lemma CheckpointFew(crc: Crc, c: nat, s: State, s': State)
    requires c <= 1 && Few(crc, c, s) && Sound(crc, s')
    requires Rename(s, s') || SyncDirectory(s, s') || Truncate(s, s')
    ensures Few(crc, c, s')
  {
    hide WholeRecords, Inv, Replay, After, EncodeAll;
    InvReach(crc, s);
    forall i | 0 <= i < |s'.oldFiles| ensures OldFew(crc, c, s'.oldFiles[i], s') {
      assert i < |s.oldFiles| ==> OldFew(crc, c, s.oldFiles[i], s);
    }
  }

  lemma OpeningFew(crc: Crc, c: nat, s: State, s': State)
    requires Few(crc, c, s) && Sound(crc, s')
    requires OpenClean(crc, s, s') || CutTail(crc, s, s') || ApplyInMemory(s, s')
    ensures Few(crc, c, s')
  {
    if CutTail(crc, s, s') { CutLoosensNothing(crc, s, s'); }
    assert s'.file.recs == s.file.recs && s'.file.floor == s.file.floor;
    hide Sound, WholeRecords, Scan, Recovered, Loaded;
    forall i | 0 <= i < |s'.oldFiles| ensures OldFew(crc, c, s'.oldFiles[i], s') {
      assert OldFew(crc, c, s.oldFiles[i], s);
    }
  }

  lemma CrashFew(crc: Crc, c: nat, s: State, s': State)
    requires Few(crc, c, s) && Sound(crc, s') && ProcessCrash(s, s')
    ensures Few(crc, c + OneIfWritten(s), s')
  {
    hide Sound, WholeRecords;
    forall i | 0 <= i < |s'.oldFiles| ensures OldFew(crc, c + OneIfWritten(s), s'.oldFiles[i], s') {
      assert OldFew(crc, c, s.oldFiles[i], s);
    }
  }

  /** The steps that fsync leave everything fsync'd. */
  lemma SyncedAfter(crc: Crc, s: State, s': State)
    requires Sound(crc, s)
    requires FinishAppend(1, s, s') || SyncTruncate(s, s') || OpenCut(crc, s, s') || PowerLoss(crc, s, s')
    ensures AllSynced(s')
  {
    hide Inv;
    if PowerLoss(crc, s, s') {
      var i: nat, n: nat :| PowerLossTo(crc, s, s', i, n);
    }
  }

  /** While at most one append has been cut off, every step keeps count. */
  lemma StepFew(crc: Crc, c: nat, s: State, s': State)
    requires c <= 1 && Few(crc, c, s) && Step(crc, 1, Crashes(true, true), s, s')
    ensures Few(crc, CutOffAfter(c, s, s'), s')
  {
    FewIsSafe(crc, c, s);
    SafeStepSound(crc, s, s');
    if AllSynced(s') {
      AllSyncedIsFew(crc, s');
    } else if FinishAppend(1, s, s') || SyncTruncate(s, s') || OpenCut(crc, s, s') || PowerLoss(crc, s, s') {
      SyncedAfter(crc, s, s');
    } else if Begin(s, s') || WriteSome(crc, s, s') || WriteLast(crc, s, s') {
      WritingFew(crc, c, s, s');
    } else if Rename(s, s') || SyncDirectory(s, s') || Truncate(s, s') {
      CheckpointFew(crc, c, s, s');
    } else if ProcessCrash(s, s') {
      CrashFew(crc, c, s, s');
    } else if !SyncCall(s, s') {
      hide Few;
      OpeningFew(crc, c, s, s');
    }
  }

  lemma {:induction false} FewAlong(crc: Crc, ss: seq<State>)
    requires CutsAtMost(crc, 1, ss)
    ensures Few(crc, CutOff(ss), Last(ss))
    decreases |ss|
  {
    hide ProgramStep, ProcessCrash, PowerLoss;
    if |ss| == 1 {
      InitFew(crc, Last(ss));
    } else {
      hide Few, Init, CutOffAfter;
      var n := |ss| - 1;
      Earlier(crc, 1, Crashes(true, true), ss);
      forall i: nat | 0 < i <= n ensures CutOff(ss[..n][..i]) <= 1 { assert ss[..n][..i] == ss[..i]; }
      FewAlong(crc, ss[..n]);
      StepFew(crc, CutOff(ss[..n]), ss[n - 1], ss[n]);
    }
  }

  lemma InitFew(crc: Crc, s: State)
    requires Init(s)
    ensures Few(crc, 0, s)
  {
    InitInv(crc, s);
  }

  /** With sync_every = 1, process crashes and power losses mixed in any order, and never more than
      one append cut off by a process crash since the last fsync: whatever a power loss leaves, at
      any moment, is a state of the history with every acknowledged operation in it. */
  lemma SyncedWritesSurvive(crc: Crc, ss: seq<State>, t: Table, i: nat, n: nat)
    requires CutsAtMost(crc, 1, ss) && Outcome(Last(ss), t, i, n)
    ensures KeepsAllBut(Last(ss), Loaded(crc, t, Files(Last(ss))[i].bytes[..n]), 0)
  {
    var s := Last(ss);
    FewAlong(crc, ss);
    FewIsSafe(crc, CutOff(ss), s);
    SafeOutcome(crc, s, t, i, n);
    var f := Files(s)[i];
    assert s.acked + Loose(crc, f) <= f.at by {
      hide Inv, WholeRecords;
      assert i > 0 ==> OldAcked(crc, s.oldFiles[i - 1], s.acked);
      assert Loose(crc, Files(s)[0]) == Loose(crc, s.file);
      InvReach(crc, s);
    }
    hide Sound, CutsAtMost, SafeToLose, Outcome, Loose, Loaded, Files;
    var table := Loaded(crc, t, f.bytes[..n]);
    var m: nat :| m <= |s.ops| && f.at <= m + Loose(crc, f) && table == After(s.ops[..m]);
    assert s.acked <= m + 0;
  }

  /** The current log reaches the whole history, older ones no more than that. */
  lemma InvReach(crc: Crc, s: State)
    requires Inv(crc, s)
    ensures s.file.at == |s.ops| && forall i :: 0 <= i < |s.oldFiles| ==> s.oldFiles[i].at <= |s.ops|
  {
    assert Possible(s, s.snap);
    forall i | 0 <= i < |s.oldFiles| ensures s.oldFiles[i].at <= |s.ops| {
      assert AllExplained(s.oldFiles[i], s);
    }
  }
}
