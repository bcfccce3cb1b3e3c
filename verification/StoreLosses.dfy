/** What can be lost. A checkpoint renames its snapshot into place without syncing the log first,
    so with sync_every >= 3 a power loss can mix two states; a restart forgets which records the
    process before it had not fsync'd; and with sync_every = 1 two appends cut off by process
    crashes are two records a checkpoint takes for fsync'd. */
module StoreLosses {
  import opened Bytes
  import opened WriteAheadLog
  import opened ApplyLog
  import opened StoreMachine
  import opened StoreRuns

  const POWER_ONLY := Crashes(false, true)
  const PROCESS_ONLY := Crashes(true, false)

  lemma Extend(crc: Crc, k: nat, c: Crashes, ss: seq<State>, s: State) returns (longer: seq<State>)
    requires Run(crc, k, c, ss) && Step(crc, k, c, Last(ss), s)
    ensures |longer| > 0 && Run(crc, k, c, longer) && Last(longer) == s
  {
    longer := ss + [s];
    forall i: nat | i + 1 < |longer| ensures StepAt(crc, k, c, longer, i) {
      if i + 1 < |ss| { assert StepAt(crc, k, c, ss, i); }
    }
  }

  /** The state after one more put, if it is not the one that triggers an fsync. */
  function AfterPut(crc: Crc, s: State, r: WalRecord): State {
    s.(file := s.file.(bytes := s.file.bytes + Encode(crc, r), recs := s.file.recs + [r], at := s.file.at + 1),
       unsynced := s.unsynced + 1, ops := s.ops + [r], mem := Apply(s.mem, r), acked := |s.ops| + 1)
  }

  lemma RunPut(crc: Crc, k: nat, c: Crashes, ss: seq<State>, r: WalRecord) returns (longer: seq<State>)
    requires Run(crc, k, c, ss) && Last(ss).pc.Idle? && Last(ss).unsynced + 1 < k
    requires r.kind.PUT? && |r.value| < TWO_32
    ensures |longer| > 0 && Run(crc, k, c, longer) && Last(longer) == AfterPut(crc, Last(ss), r)
  {
    var s := Last(ss);
    var a := s.(pc := Writing(r, 0));
    FirstOfEncoded(crc, r, []);
    var e := Encode(crc, r);
    assert e[0..] == e;
    hide Encode, Run;
    var b := s.(pc := Written(r), unsynced := s.unsynced + 1, ops := s.ops + [r],
                file := s.file.(bytes := s.file.bytes + e, recs := s.file.recs + [r], at := s.file.at + 1));
    var d := b.(pc := Logged(r));
    assert Begin(s, a);
    longer := Extend(crc, k, c, ss, a);
    assert WriteLast(crc, a, b);
    longer := Extend(crc, k, c, longer, b);
    assert FinishAppend(k, b, d);
    longer := Extend(crc, k, c, longer, d);
    assert ApplyInMemory(d, AfterPut(crc, s, r));
    longer := Extend(crc, k, c, longer, AfterPut(crc, s, r));
  }

  function InitState(): State {
    State(File(Magic(), MAGIC_LEN, [], 0, 0), [], map[], {}, map[], Idle, 0, [], 0)
  }

  lemma RunInit(crc: Crc, k: nat, c: Crashes) returns (ss: seq<State>)
    ensures |ss| > 0 && Run(crc, k, c, ss) && Last(ss) == InitState()
  {
    ss := [InitState()];
  }

  // ---- sync_every >= 3: a checkpoint can mix two states ----

  /** Every power loss in a run without process crashes leaves a state of the history. */
  ghost predicate PowerSafe(crc: Crc, k: nat) {
    forall ss, t, i: nat, n: nat :: Run(crc, k, POWER_ONLY, ss) && Outcome(Last(ss), t, i, n) ==>
      IsPrefixState(Last(ss).ops, Loaded(crc, t, Files(Last(ss))[i].bytes[..n]))
  }

  const A1 := WalRecord(PUT, 1, [1])
  const A2 := WalRecord(PUT, 1, [2])
  const B1 := WalRecord(PUT, 2, [1])

  /** Key 1's first put is fsync'd, its second one and key 2's are not, and a checkpoint has just
      renamed a snapshot of all three into place. */
  ghost predicate HalfSynced(crc: Crc, s: State) {
    && s.ops == [A1, A2, B1] && s.snap == map[1 := [2], 2 := [1]] && !s.pc.Cutting?
    && s.file.bytes == ((Magic() + Encode(crc, A1)) + Encode(crc, A2)) + Encode(crc, B1)
    && s.file.kept == |Magic() + Encode(crc, A1)|
  }

  /** Then a power loss can leave a state the store was never in: key 1 with its first value beside
      key 2. */
  lemma HalfSyncedCanMix(crc: Crc, s: State) returns (n: nat)
    requires HalfSynced(crc, s)
    ensures Outcome(s, s.snap, 0, n) && !IsPrefixState(s.ops, Loaded(crc, s.snap, Files(s)[0].bytes[..n]))
  {
    n := s.file.kept;
    var bytes := Files(s)[0].bytes[..n];
    assert Outcome(s, s.snap, 0, n);
    FirstScan(crc, bytes);
    hide Encode, Magic, Scan;
    var t := Loaded(crc, s.snap, bytes);
    assert bytes == Magic() + Encode(crc, A1);
    MixedTable();
    assert t == Replay(map[1 := [2], 2 := [1]], [A1]);
  }

  /** With sync_every = 3 or more, two puts can wait for an fsync when a checkpoint starts. */
  lemma MixedRun(crc: Crc, k: nat) returns (ss: seq<State>)
    requires k >= 3
    ensures |ss| > 0 && Run(crc, k, POWER_ONLY, ss) && HalfSynced(crc, Last(ss))
  {
    hide Run, Encode, Magic;
    ss := RunInit(crc, k, POWER_ONLY);
    ss := RunPut(crc, k, POWER_ONLY, ss, A1);
    var s := Last(ss);
    var synced := s.(file := Synced(s.file), oldFiles := [], unsynced := 0);
    assert SyncCall(s, synced);
    ss := Extend(crc, k, POWER_ONLY, ss, synced);
    ss := RunPut(crc, k, POWER_ONLY, ss, A2);
    ss := RunPut(crc, k, POWER_ONLY, ss, B1);
    s := Last(ss);
    assert Rename(s, Renaming(s));
    ss := Extend(crc, k, POWER_ONLY, ss, Renaming(s));
    assert s.mem == map[1 := [2], 2 := [1]];
  }

  function Renaming(s: State): State {
    s.(pc := Renamed, snap := s.mem, oldSnaps := s.oldSnaps + {s.snap},
       file := Under(s.file, |s.ops|), oldFiles := AllUnder(s.oldFiles, |s.ops|))
  }

  /** So a checkpoint is not safe against power loss. */
  lemma CheckpointCanMix(crc: Crc, k: nat)
    requires k >= 3
    ensures !PowerSafe(crc, k)
  {
    var ss := MixedRun(crc, k);
    var n := HalfSyncedCanMix(crc, Last(ss));
    hide Run, HalfSynced, Outcome;
  }

  lemma FirstScan(crc: Crc, bytes: seq<byte>)
    ensures bytes == Magic() + Encode(crc, A1) ==> ScannedRecords(crc, bytes) == [A1]
  {
    if bytes == Magic() + Encode(crc, A1) {
      EncodedStep(crc, A1, []);
      hide Encode;
      assert Encode(crc, A1) + [] == Encode(crc, A1);
      assert Parse(crc, []) == Parsed([], 0);
      assert bytes[MAGIC_LEN..] == Encode(crc, A1) && bytes[..MAGIC_LEN] == Magic();
    }
  }

  lemma MixedTable()
    ensures !IsPrefixState([A1, A2, B1], Replay(map[1 := [2], 2 := [1]], [A1]))
  {
    var ops, t := [A1, A2, B1], Replay(map[1 := [2], 2 := [1]], [A1]);
    ReplaySnoc(map[1 := [2], 2 := [1]], [], A1);
    assert [] + [A1] == [A1];
    assert t == Apply(map[1 := [2], 2 := [1]], A1);
    assert t[1] == [1] && t[2] == [1];
    var one, two := [A1], [A1, A2];
    assert ops[..0] == [] && ops[..1] == one && ops[..2] == two && ops[..3] == ops;
    AfterSnoc([], A1);
    AfterSnoc(one, A2);
    AfterSnoc(two, B1);
    assert [] + [A1] == one && one + [A2] == two && two + [B1] == ops;
    hide Replay;
    assert After([]) == map[];
    forall m: nat | m <= |ops| ensures After(ops[..m]) != t {
      assert m == 0 || m == 1 || m == 2 || m == 3;
    }
  }

  /** Checkpoints are safe against power loss exactly for sync_every up to 2. */
  lemma PowerSafeExactly(crc: Crc, k: nat)
    requires k >= 1
    ensures PowerSafe(crc, k) <==> k <= 2
  {
    if k > 2 {
      CheckpointCanMix(crc, k);
    } else {
      forall ss, t, i: nat, n: nat | Run(crc, k, POWER_ONLY, ss) && Outcome(Last(ss), t, i, n)
        ensures IsPrefixState(Last(ss).ops, Loaded(crc, t, Files(Last(ss))[i].bytes[..n]))
      {
        forall j: nat | j + 1 < |ss| ensures CalmAt(crc, k, ss, j) { }
        PowerLossesKeepPrefix(crc, k, ss, t, i, n);
      }
    }
  }

  // ---- sync_every = 1 with process crashes: what two cut-off appends can do ----

  /** With sync_every = 1, in every run of process crashes and power losses in which no more than c
      appends have been cut off since the last fsync, every power loss leaves a state of the history
      with every acknowledged operation in it. */
  ghost predicate CutsSafe(crc: Crc, c: nat) {
    forall ss, t, i: nat, n: nat :: CutsAtMost(crc, c, ss) && Outcome(Last(ss), t, i, n) ==>
      KeepsAllBut(Last(ss), Loaded(crc, t, Files(Last(ss))[i].bytes[..n]), 0)
  }

  const BOTH := Crashes(true, true)

  lemma ExtendCuts(crc: Crc, c: nat, ss: seq<State>, s: State) returns (longer: seq<State>)
    requires CutsAtMost(crc, c, ss) && Step(crc, 1, BOTH, Last(ss), s) && CutOffAfter(CutOff(ss), Last(ss), s) <= c
    ensures |longer| > 0 && CutsAtMost(crc, c, longer) && Last(longer) == s
    ensures CutOff(longer) == CutOffAfter(CutOff(ss), Last(ss), s)
  {
    hide Step, CutOffAfter;
    longer := ss + [s];
    assert Run(crc, 1, BOTH, longer) by {
      forall i: nat | i + 1 < |longer| ensures StepAt(crc, 1, BOTH, longer, i) {
        if i + 1 < |ss| { assert StepAt(crc, 1, BOTH, ss, i); }
      }
    }
    assert longer[..|longer| - 1] == ss;
    forall i: nat | 0 < i <= |longer| ensures CutOff(longer[..i]) <= c {
      if i <= |ss| { assert longer[..i] == ss[..i]; } else { assert longer[..i] == longer; }
    }
  }

  /** The record's last byte is written. */
  function AfterWrite(crc: Crc, s: State, r: WalRecord): State {
    s.(pc := Written(r), unsynced := s.unsynced + 1, ops := s.ops + [r],
       file := s.file.(bytes := s.file.bytes + Encode(crc, r), recs := s.file.recs + [r], at := s.file.at + 1))
  }

  lemma WriteRecord(crc: Crc, c: nat, ss: seq<State>, r: WalRecord) returns (longer: seq<State>)
    requires CutsAtMost(crc, c, ss) && Last(ss).pc.Idle? && r.kind.PUT? && |r.value| < TWO_32
    requires Last(ss).file.kept <= |Last(ss).file.bytes|
    ensures |longer| > 0 && CutsAtMost(crc, c, longer) && Last(longer) == AfterWrite(crc, Last(ss), r)
    ensures CutOff(longer) <= CutOff(ss)
  {
    var s := Last(ss);
    var a := s.(pc := Writing(r, 0));
    FirstOfEncoded(crc, r, []);
    var e := Encode(crc, r);
    assert e[0..] == e && ss[..|ss|] == ss;
    hide Encode, Run, CutsAtMost, CutOff;
    assert CutOff(ss) <= c by { CutsNow(crc, c, ss); }
    assert Begin(s, a);
    longer := ExtendCuts(crc, c, ss, a);
    assert WriteLast(crc, a, AfterWrite(crc, s, r));
    longer := ExtendCuts(crc, c, longer, AfterWrite(crc, s, r));
  }

  lemma CutsNow(crc: Crc, c: nat, ss: seq<State>)
    requires CutsAtMost(crc, c, ss)
    ensures |ss| > 0 && CutOff(ss) <= c
  {
    assert ss[..|ss|] == ss;
  }

  /** A put that returns: its record is fsync'd. */
  lemma FinishedPut(crc: Crc, c: nat, ss: seq<State>, r: WalRecord) returns (longer: seq<State>)
    requires CutsAtMost(crc, c, ss) && Last(ss).pc.Idle? && r.kind.PUT? && |r.value| < TWO_32
    requires Last(ss).file.kept <= |Last(ss).file.bytes|
    ensures |longer| > 0 && CutsAtMost(crc, c, longer) && CutOff(longer) == 0
    ensures var s, w := Last(ss), AfterWrite(crc, Last(ss), r);
      Last(longer) == w.(pc := Idle, mem := Apply(s.mem, r), acked := |w.ops|, file := Synced(w.file), oldFiles := [], unsynced := 0)
  {
    var s := Last(ss);
    longer := WriteRecord(crc, c, ss, r);
    var w := Last(longer);
    hide Encode, Run, CutsAtMost, CutOff;
    var logged := w.(pc := Logged(r), file := Synced(w.file), oldFiles := [], unsynced := 0);
    assert FinishAppend(1, w, logged);
    longer := ExtendCuts(crc, c, longer, logged);
    var done := logged.(pc := Idle, mem := Apply(s.mem, r), acked := |w.ops|);
    assert ApplyInMemory(logged, done);
    longer := ExtendCuts(crc, c, longer, done);
  }

  /** A put whose process crashes right before the fsync, and the next process. */
  lemma KeptInInv(crc: Crc, s: State)
    requires Inv(crc, s)
    ensures s.file.kept <= |s.file.bytes|
  {
  }

  lemma CutPut(crc: Crc, c: nat, ss: seq<State>, r: WalRecord) returns (longer: seq<State>)
    requires CutsAtMost(crc, c, ss) && Last(ss).pc.Idle? && r.kind.PUT? && |r.value| < TWO_32
    requires Inv(crc, Last(ss)) && CutOff(ss) < c
    ensures |longer| > 0 && CutsAtMost(crc, c, longer) && CutOff(longer) <= CutOff(ss) + 1
    ensures var w := AfterWrite(crc, Last(ss), r);
      Last(longer) == w.(pc := Idle, mem := After(w.ops), unsynced := 0) && Inv(crc, Last(longer))
  {
    hide Encode, Run, CutsAtMost, CutOff, Inv, Scan, Loaded, After;
    CutsNow(crc, c, ss);
    var s := Last(ss);
    KeptInInv(crc, s);
    longer := WriteRecord(crc, c, ss, r);
    var w := Last(longer);
    CutPutInv(crc, s, r);
    var down := w.(pc := Down, mem := map[], unsynced := 0);
    var open := down.(pc := Idle, mem := After(w.ops));
    IdleFile(crc, open);
    DiskMeansHistory(crc, down);
    assert ProcessCrash(w, down);
    longer := ExtendCuts(crc, c, longer, down);
    assert OpenClean(crc, down, open);
    longer := ExtendCuts(crc, c, longer, open);
  }

  lemma CutPutInv(crc: Crc, s: State, r: WalRecord)
    requires Inv(crc, s) && s.pc.Idle? && r.kind.PUT? && |r.value| < TWO_32
    ensures var w := AfterWrite(crc, s, r);
      && Inv(crc, w.(pc := Down, mem := map[], unsynced := 0))
      && Inv(crc, w.(pc := Idle, mem := After(w.ops), unsynced := 0))
  {
    hide Encode, After, Explained, FirstRecord, Parse, NoRecord, Scan, Recovered, Replay;
    var a, w := s.(pc := Writing(r, 0)), AfterWrite(crc, s, r);
    FirstOfEncoded(crc, r, []);
    assert Encode(crc, r)[0..] == Encode(crc, r);
    assert Begin(s, a) && WriteLast(crc, a, w);
    BeginInv(crc, s, a);
    WriteLastInv(crc, a, w);
    var down := w.(pc := Down, mem := map[], unsynced := 0);
    ProcessCrashInv(crc, w, down);
    assert w.file.bytes == LogBytes(crc, w.file.recs);
  }

  lemma JustStarted(crc: Crc, c: nat)
    ensures CutsAtMost(crc, c, [InitState()])
  {
    assert [InitState()][..1] == [InitState()];
  }

  /** Key 1 is put; key 1 is put again and key 2 put, each cut off by a process crash right before
      its fsync; a checkpoint has just renamed its snapshot. */
  lemma TwoCutsRun(crc: Crc, c: nat) returns (ss: seq<State>)
    requires c >= 2
    ensures |ss| > 0 && CutsAtMost(crc, c, ss) && HalfSynced(crc, Last(ss))
  {
    hide Run, Encode, CutsAtMost, CutOff, Inv;
    ss := [InitState()];
    JustStarted(crc, c);
    InitInv(crc, Last(ss));
    assert Init(InitState());
    ss := FinishedPut(crc, c, ss, A1);
    FirstPutInv(crc, Last(ss));
    ss := CutPut(crc, c, ss, A2);
    ss := CutPut(crc, c, ss, B1);
    var s := Last(ss);
    ThreePuts();
    assert [A1] + [A2] + [B1] == [A1, A2, B1];
    assert Rename(s, Renaming(s));
    ss := ExtendCuts(crc, c, ss, Renaming(s));
    assert Renaming(s).file.bytes == s.file.bytes && Renaming(s).file.kept == s.file.kept;
    assert s.ops == [A1, A2, B1] && s.mem == After([A1, A2, B1]);
  }

  lemma FirstPutInv(crc: Crc, s: State)
    requires var w := AfterWrite(crc, InitState(), A1);
      s == w.(pc := Idle, mem := Apply(map[], A1), acked := |w.ops|, file := Synced(w.file), oldFiles := [], unsynced := 0)
    ensures Inv(crc, s)
  {
    var i, w := InitState(), AfterWrite(crc, InitState(), A1);
    var a := i.(pc := Writing(A1, 0));
    FirstOfEncoded(crc, A1, []);
    assert Encode(crc, A1)[0..] == Encode(crc, A1);
    InitInv(crc, i);
    BeginInv(crc, i, a);
    WriteLastInv(crc, a, w);
    var logged := w.(pc := Logged(A1), file := Synced(w.file), oldFiles := [], unsynced := 0);
    FinishAppendInv(crc, 1, w, logged);
    ApplyInMemoryInv(crc, logged, s);
  }

  lemma ThreePuts()
    ensures After([A1, A2, B1]) == map[1 := [2], 2 := [1]]
  {
    var one, two := [A1], [A1, A2];
    AfterSnoc([], A1);
    AfterSnoc(one, A2);
    AfterSnoc(two, B1);
    assert [] + [A1] == one && one + [A2] == two && two + [B1] == [A1, A2, B1];
    assert After([]) == map[];
  }

  /** sync_every = 1 is safe under both kinds of crash exactly as long as at most one append has been
      cut off by a process crash since the last fsync. */
  lemma CutsSafeExactly(crc: Crc, c: nat)
    ensures CutsSafe(crc, c) <==> c <= 1
  {
    if c > 1 {
      var ss := TwoCutsRun(crc, c);
      var s := Last(ss);
      var n := HalfSyncedCanMix(crc, s);
      hide CutsAtMost, HalfSynced, Outcome, Loaded, After;
      assert !KeepsAllBut(s, Loaded(crc, s.snap, Files(s)[0].bytes[..n]), 0);
    } else {
      forall ss, t, i: nat, n: nat | CutsAtMost(crc, c, ss) && Outcome(Last(ss), t, i, n)
        ensures KeepsAllBut(Last(ss), Loaded(crc, t, Files(Last(ss))[i].bytes[..n]), 0)
      {
        SyncedWritesSurvive(crc, ss, t, i, n);
      }
    }
  }

  // ---- A restart forgets what was not fsync'd ----

  /** After count puts by as many processes, each crashing right after its put returned. */
  ghost predicate Unsynced(s: State, count: nat) {
    && s.pc.Idle? && s.unsynced == 0 && s.acked == |s.ops| == count
    && s.snap == map[] && s.oldFiles == []
    && s.file.kept == MAGIC_LEN
    && forall i :: 0 <= i < count ==> s.ops[i] == A1
  }

  lemma {:induction false} ManyRestarts(crc: Crc, k: nat, count: nat) returns (ss: seq<State>)
    requires k >= 2
    ensures |ss| > 0 && Run(crc, k, PROCESS_ONLY, ss) && Unsynced(Last(ss), count)
  {
    if count == 0 {
      ss := RunInit(crc, k, PROCESS_ONLY);
    } else {
      ss := ManyRestarts(crc, k, count - 1);
      ss := PutAndRestart(crc, k, ss, count - 1);
    }
  }

  lemma PutAndRestart(crc: Crc, k: nat, ss: seq<State>, count: nat) returns (longer: seq<State>)
    requires k >= 2 && Run(crc, k, PROCESS_ONLY, ss) && Unsynced(Last(ss), count)
    ensures |longer| > 0 && Run(crc, k, PROCESS_ONLY, longer) && Unsynced(Last(longer), count + 1)
  {
    longer := RunPut(crc, k, PROCESS_ONLY, ss, A1);
    var s := Last(longer);
    ProcessCrashesLoseNothing(crc, k, longer);
    IdleFile(crc, s);
    hide Run, Encode, Inv;
    var down := s.(pc := Down, mem := map[], unsynced := 0);
    assert ProcessCrash(s, down);
    longer := Extend(crc, k, PROCESS_ONLY, longer, down);
    var open := down.(pc := Idle, mem := Loaded(crc, down.snap, down.file.bytes));
    assert OpenClean(crc, down, open);
    longer := Extend(crc, k, PROCESS_ONLY, longer, open);
  }

  /** An idle store's log has nothing to cut. */
  lemma IdleFile(crc: Crc, s: State)
    requires Inv(crc, s) && s.pc.Idle?
    ensures Scan(crc, s.file.bytes).Scanned? && Recovered(crc, s.file.bytes) == s.file.bytes
    ensures |s.file.bytes| >= MAGIC_LEN && s.file.bytes[..MAGIC_LEN] == Magic()
  {
    DiskMeansHistory(crc, s);
  }

  /** With sync_every = 2 or more, process crashes followed by one power loss can lose any number
      of acknowledged operations: reopening does not fsync, and the new process counts from 0. */
  lemma RestartsCanLoseMore(crc: Crc, k: nat, lost: nat) returns (ss: seq<State>, n: nat)
    requires k >= 2
    ensures |ss| > 0 && Run(crc, k, PROCESS_ONLY, ss) && Outcome(Last(ss), map[], 0, n)
    ensures !KeepsAllBut(Last(ss), Loaded(crc, map[], Files(Last(ss))[0].bytes[..n]), lost)
  {
    ss := ManyRestarts(crc, k, lost + 1);
    var s := Last(ss);
    n := MAGIC_LEN;
    ProcessCrashesLoseNothing(crc, k, ss);
    IdleFile(crc, s);
    assert Files(s)[0].bytes[..n] == Magic();
    EmptyLog(crc);
    hide Run, Inv, Encode, Scan;
    forall m: nat | m <= |s.ops| && s.acked <= m + lost ensures After(s.ops[..m]) != map[] {
      assert m > 0;
      assert s.ops[..m][m - 1] == A1;
      assert 1 in After(s.ops[..m]);
    }
  }

  lemma EmptyLog(crc: Crc)
    ensures Loaded(crc, map[], Magic()) == map[]
  {
    assert Magic()[MAGIC_LEN..] == [] && Magic()[..MAGIC_LEN] == Magic();
    assert Parse(crc, []) == Parsed([], 0);
  }
}
