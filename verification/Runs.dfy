/**
 * The theorems about whole runs of the store: in every reachable state, under any interleaving of
 * writers, flush, compaction, clean-up and crashes, the layered state shows the replay of a legal
 * log on plain maps, the caches agree with it, and the disk can be recovered.
 */
module Runs {
  import opened Records
  import opened Layers
  import opened Image
  import opened Window
  import opened WindowNames
  import opened LogBehind
  import opened StoreState
  import opened Recovery
  import opened Machine
  import opened MachineInv
  import opened Maintenance
  import opened MachineSteps
  import opened FlushSteps
  import opened CompactSteps
  import opened CrashSteps

  /** An empty directory after `open`: the default manifest and the first WAL file. */
  ghost function Initial(): M {
    M(Disk(map[1 := []], map[0 := Manifest(0, 0, 0, 0, map[])], 0, map[]), Mem(map[], map[], map[], 0),
      Manifest(0, 0, 0, 0, map[]), 1, None, Free, Idle, EMPTY_IMG, EMPTY_IMG,
      Win(EMPTY_IMG, [], EMPTY_IMG), [])
  }

  lemma InitialInv()
    ensures Inv(Initial())
  {
    hide MemInv, DiskInv, RecoverInv, CreatesInv, Complete;
    InitialMem();
    InitialDisk();
    InitialRecovers();
  }

  lemma InitialMem()
    ensures MemInv(Initial().mem, None, EMPTY_IMG)
  {
    assert Abs(Initial().mem).cols == map[];
  }

  lemma InitialDisk()
    ensures var m := Initial(); DiskInv(m.disk, m.walSeq, m.mem.nextCid) && CreatesInv(m.disk, m.walSeq)
  {
  }

  lemma InitialRecovers()
    ensures var m := Initial(); Complete(m.disk.segs, m.man) && RecoverInv(m.disk, m.walSeq, m.spec, m.win, m.since)
  {
    var m := Initial();
    var base := BaseMem(m.disk.segs, m.man);
    assert NamesOf(m.man.cols) == map[];
    assert Abs(base).cols == map[];
    assert Log(m.disk.wals, 1, 2) == Log(m.disk.wals, 1, 1) + [];
  }

  /** Every step keeps the invariant. */
  lemma Keep(m: M, a: Action)
    requires Inv(m) && Enabled(m, a)
    ensures Inv(Do(m, a))
  {
    hide Inv, Call, CrashLoadable, WorkValid, Referenced, AfterCommit, AfterRotate, AfterFlushStart, AfterFlushWriteSeg,
         AfterFlushStore, AfterFlushSwitch, AfterFlushInstall, AfterCompactStart, AfterCompactWrite, AfterCompactStore,
         AfterCompactSwitch, AfterCompactInstall, AfterCrash;
    var m' := Do(m, a);
    match a
    case Begin(batch) => KeepBegin(m, batch, m');
    case AppendFrame => KeepAppendFrame(m, m');
    case Commit => KeepCommit(m, m');
    case Reserve(c, ext) => KeepReserve(m, c, ext, m'.mem);
    case Rotate => KeepRotate(m, m');
    case FlushStart => KeepFlushStart(m, m');
    case FlushWriteSeg => KeepFlushWriteSeg(m, m');
    case FlushStore => KeepFlushStore(m, m');
    case FlushSwitch => KeepFlushSwitch(m, m');
    case FlushInstall => KeepFlushInstall(m, m');
    case CompactStart(c, runLen) => KeepCompactStart(m, c, runLen, m');
    case CompactWrite => KeepCompactWrite(m, m');
    case CompactAbandon => KeepCompactAbandon(m, m');
    case CompactStore => KeepCompactStore(m, m');
    case CompactSwitch => KeepCompactSwitch(m, m');
    case CompactInstall => KeepCompactInstall(m, m');
    case DeleteWal(q) => KeepDeleteWal(m, q, m');
    case DeleteManifest(g) => KeepDeleteManifest(m, g, m');
    case DeleteSeg(c, sid) => KeepDeleteSeg(m, c, sid, m');
    case Unlock => KeepUnlock(m, m');
    case Crash(j) => KeepCrash(m, j, m');
  }

  /** The records a step makes part of the store for good: a committed call, or what a crash let through of one. */
  ghost function Effect(m: M, a: Action): seq<WalRecord>
    requires Enabled(m, a)
  {
    match a
    case Commit => m.lock.batch
    case Crash(j) => Survivors(m, j)
    case _ => []
  }

  /** Callers see a step only through its effect: rotate, flush, compaction and clean-up are invisible. */
  lemma StepRefines(m: M, a: Action)
    requires Inv(m) && Enabled(m, a)
    ensures GoodLog(Abs(m.mem), Effect(m, a))
    ensures Replay(Abs(m.mem), Effect(m, a)) == Some(Abs(Do(m, a).mem))
  {
    hide Inv, Abs, Do, Enabled, Effect;
    Keep(m, a);
    ShownIsSpec(m);
    ShownIsSpec(Do(m, a));
    SpecStep(m, a);
  }

  /** A step's effect leads from one acknowledged image to the next. */
  lemma SpecStep(m: M, a: Action)
    requires Inv(m) && Enabled(m, a)
    ensures GoodLog(m.spec, Effect(m, a)) && Replay(m.spec, Effect(m, a)) == Some(Do(m, a).spec)
  {
    hide Inv, Call, CrashLoadable, WorkValid, Referenced, AfterCommit, AfterCrash;
    if a.Commit? {
      CommitEffect(m);
    } else if a.Crash? {
      CrashEffect(m, a.survived);
    } else {
      SpecKept(m, a);
    }
  }

  lemma CommitEffect(m: M)
    requires Inv(m) && Enabled(m, Commit)
    ensures GoodLog(m.spec, m.lock.batch) && Replay(m.spec, m.lock.batch) == Some(AfterCommit(m).spec)
  {
    hide Inv, Abs, Call, GoodLog, Replay, ApplyAll;
    ShownIsSpec(m);
    WriterCall(m);
    AppliesFacts(m.mem, m.lock.batch);
  }

  lemma CrashEffect(m: M, j: nat)
    requires Inv(m) && CrashPoint(m, j) && m.walSeq in m.disk.wals && CrashLoadable(m, j)
    ensures GoodLog(m.spec, Survivors(m, j)) && Replay(m.spec, Survivors(m, j)) == Some(AfterCrash(m, j).spec)
  {
    hide Inv, GoodLog, Replay;
    SurvivorsGood(m, j);
  }

  lemma ShownIsSpec(m: M)
    requires Inv(m)
    ensures Abs(m.mem) == m.spec
  {
    hide MemOk, DiskInv, RecoverInv, CreatesInv, Link, WindowInv, MaintInv, ManInv, LockInv, Abs, Consistent, AllExtOk;
  }

  lemma SpecKept(m: M, a: Action)
    requires Enabled(m, a) && !a.Commit? && !a.Crash?
    ensures Do(m, a).spec == m.spec
  {
    hide Call, CrashLoadable, WorkValid, Referenced;
  }

  // ---------------------------------------------------------------------
  // Runs
  // ---------------------------------------------------------------------

  ghost predicate IsRun(m: M, run: seq<Action>)
    decreases |run|
  {
    run == [] || (Enabled(m, run[0]) && IsRun(Do(m, run[0]), run[1..]))
  }

  ghost function End(m: M, run: seq<Action>): M
    requires IsRun(m, run)
    decreases |run|
  {
    if run == [] then m else End(Do(m, run[0]), run[1..])
  }

  /** All records that took effect, in order. */
  ghost function Effects(m: M, run: seq<Action>): seq<WalRecord>
    requires IsRun(m, run)
    decreases |run|
  {
    if run == [] then [] else Effect(m, run[0]) + Effects(Do(m, run[0]), run[1..])
  }

  /**
   * Refinement over whole runs: whatever the interleaving, the state at the end shows exactly the
   * effective records replayed, in order, on the plain maps at the start; and all of them were
   * legal when they took effect.
   */
  lemma {:induction false} RunRefines(m: M, run: seq<Action>)
    requires Inv(m) && IsRun(m, run)
    ensures Inv(End(m, run))
    ensures GoodLog(Abs(m.mem), Effects(m, run))
    ensures Replay(Abs(m.mem), Effects(m, run)) == Some(Abs(End(m, run).mem))
    decreases |run|
  {
    hide Inv, Abs, Enabled, Do, Effect, Step;
    if run != [] {
      var a, m' := run[0], Do(m, run[0]);
      Keep(m, a);
      StepRefines(m, a);
      RunRefines(m', run[1..]);
      GoodLogAppend(Abs(m.mem), Effect(m, a), Effects(m', run[1..]));
      ReplayAppend(Abs(m.mem), Effect(m, a), Effects(m', run[1..]));
    }
  }

  /** From an empty directory, every reachable state satisfies the invariant and shows a replayed log. */
  lemma ReachableStates(run: seq<Action>)
    requires IsRun(Initial(), run)
    ensures Inv(End(Initial(), run))
    ensures Replay(EMPTY_IMG, Effects(Initial(), run)) == Some(Abs(End(Initial(), run).mem))
  {
    InitialInv();
    ShownIsSpec(Initial());
    RunRefines(Initial(), run);
  }

  /** What callers have written by the end of a run: its effective records, replayed on plain maps. */
  ghost function Written(run: seq<Action>): (s: Img)
    requires IsRun(Initial(), run)
    ensures s.cols.Keys == End(Initial(), run).mem.cols.Keys
  {
    ReachableStates(run);
    Replay(EMPTY_IMG, Effects(Initial(), run)).value
  }

  /** In every reachable state a lookup through the layers is a lookup in the callers' picture. */
  lemma ReadsAgree(run: seq<Action>, c: Cid, id: Id)
    requires IsRun(Initial(), run) && c in End(Initial(), run).mem.cols
    ensures var m, recs := End(Initial(), run), Written(run).cols[c].recs;
            Lookup(Sources(m.mem, c), id) == if id in recs then Some(recs[id]) else None
  {
    hide Inv, IsRun, End, Effects, Replay;
    ReachableStates(run);
    var m := End(Initial(), run);
    assert Abs(m.mem).cols[c].recs == Contents(Sources(m.mem, c));
  }

  /**
   * In every reachable state, including right after a recovery: the cached count is the number of
   * live records, the dictionary maps every live record's string id to that record, and the id
   * handed out for a new string id belongs to no live record.
   */
  lemma CachesAgree(run: seq<Action>, c: Cid)
    requires IsRun(Initial(), run) && c in End(Initial(), run).mem.cols
    ensures var col, recs := End(Initial(), run).mem.cols[c], Written(run).cols[c].recs;
            && col.liveLen == |recs|
            && (forall id :: id in recs && ExtOf(recs[id].metadata).Some? ==>
                  ExtOf(recs[id].metadata).value in col.extIds && col.extIds[ExtOf(recs[id].metadata).value] == id)
            && col.nextExtId !in recs
  {
    ReachableStates(run);
    var m := End(Initial(), run);
    CollectionFacts(m, c);
    hide Inv, IsRun, End, Effects, Replay, Live;
    FreshExtIdIsFree(m.mem.cols[c], Live(m.mem, c));
  }

  lemma CollectionFacts(m: M, c: Cid)
    requires Inv(m) && c in m.mem.cols
    ensures c in Abs(m.mem).cols && Abs(m.mem).cols[c].recs == Live(m.mem, c)
    ensures CacheOk(m.mem.cols[c], Live(m.mem, c)) && ExtOk(Live(m.mem, c))
  {
    hide DiskInv, RecoverInv, CreatesInv, Link, WindowInv, MaintInv, ManInv, LockInv, Consistent, ExtOk, CacheOk, Live;
    assert CollOk(m.mem, c);
    assert c in Abs(m.mem).cols;
  }

  /**
   * Every crash point of every run: the log is rejected if and only if the last flush's window used a
   * collection older than itself and dropped it later. Otherwise every acknowledged record and every
   * surviving frame comes back, and the whole image does if and only if the directory returns.
   */
  lemma RecordsSurvive(run: seq<Action>, j: nat)
    requires IsRun(Initial(), run) && CrashPoint(End(Initial(), run), j)
    ensures var m := End(Initial(), run);
            && m.walSeq in m.disk.wals && Replay(EMPTY_IMG, Effects(Initial(), run) + Survivors(m, j)).Some?
            && var d, live := CrashDisk(m, j), Replay(EMPTY_IMG, Effects(Initial(), run) + Survivors(m, j)).value;
            && d.current in d.manifests && Complete(d.segs, d.manifests[d.current])
            && var seen := Reopened(d, m.walSeq);
            && (seen.None? <==> UsedThenDropped(m.win.base.cols.Keys, m.win.tail))
            && (seen.Some? ==> SameRecords(live, seen.value))
            && (seen == Some(live) <==>
                  && !UsedThenDropped(m.win.base.cols.Keys, m.win.tail)
                  && DirectoryReturns(m.win.base, m.win.mid, m.win.tail + (m.since + Survivors(m, j)), live))
  {
    hide Inv, IsRun, End, Effects, Replay, Survivors, Reopened, SameRecords, UsedThenDropped, DirectoryReturns,
         WindowExact, Complete, CrashDisk, MemOk, Abs, Enabled;
    ReachableStates(run);
    var m := End(Initial(), run);
    ShownIsSpec(m);
    EveryReopening(m, j);
    ReplayAppend(EMPTY_IMG, Effects(Initial(), run), Survivors(m, j));
  }

  /** A crash at any moment loses no acknowledged call, provided the last flush had an exact window. */
  lemma NothingAcknowledgedIsLost(run: seq<Action>, j: nat)
    requires IsRun(Initial(), run) && CrashPoint(End(Initial(), run), j)
    requires var win := End(Initial(), run).win; WindowExact(win.base, win.tail, win.mid)
    ensures var m := End(Initial(), run);
            && Enabled(m, Crash(j))
            && Replay(EMPTY_IMG, Effects(Initial(), run) + Survivors(m, j)) == Some(Abs(Do(m, Crash(j)).mem))
  {
    hide Inv, IsRun, End, Effects, Replay, Survivors, CrashPoint, WindowExact;
    ReachableStates(run);
    var m := End(Initial(), run);
    EveryCrashRecovers(m, j);
    StepRefines(m, Crash(j));
    ReplayAppend(EMPTY_IMG, Effects(Initial(), run), Survivors(m, j));
  }

  // ---------------------------------------------------------------------
  // Progress, and the flush at its switch
  // ---------------------------------------------------------------------

  /** A writer is never stuck. */
  lemma WriterProgress(m: M)
    requires Inv(m) && m.lock.Writer?
    ensures Enabled(m, AppendFrame) || Enabled(m, Commit)
  {
    if m.lock.k == |m.lock.batch| {
      CommitEnabled(m);
    }
  }

  /** The step the maintenance thread takes next. */
  ghost function NextMaintenance(m: M): Action {
    match m.maint
    case FlushWriting(_, work, done) => if done < |work| then FlushWriteSeg else FlushStore
    case FlushStored(_, _, _) => FlushSwitch
    case FlushSwitched(_, _, _) => FlushInstall
    case CompactWriting(_) => CompactWrite
    case CompactWritten(job) => if job.cid in m.mem.cols then CompactStore else CompactAbandon
    case CompactStored(_, _) => CompactSwitch
    case CompactSwitched(_, _) => CompactInstall
    case _ => Unlock
  }

  /** The maintenance thread is never stuck either, once the writer has let go of the lock. */
  lemma MaintenanceProgress(m: M)
    requires Inv(m) && !m.lock.Writer? && !m.maint.Idle?
    ensures Enabled(m, NextMaintenance(m))
  {
    hide MemInv, DiskInv, RecoverInv, CreatesInv, WindowInv, FlushManifest, CompactManifest, JobFile;
    match m.maint {
      case FlushWriting(_, work, done) => AllWorkValid(m.mem, work, m.man.nextSegId);
      case FlushSwitched(_, _, work) => AllWorkValid(m.mem, work, m.man.nextSegId);
      case CompactWritten(job) =>
        JobSegId(m.mem, m.man, job);
        if job.cid in m.mem.cols {
          assert LinkOne(m.mem.cols[job.cid].segs, m.disk.segs, m.man, job.cid);
        }
      case _ =>
    }
  }

  /**
   * The exact condition of the flush, for every window. When CURRENT has just been switched to the
   * flushed manifest, reopening at that moment is rejected as corrupted if and only if a collection
   * older than the window was used in it and dropped later in it. Otherwise all collections and
   * records come back, and the whole acknowledged image does if and only if the names return.
   */
  lemma SwitchRecoverIff(m: M)
    requires Inv(m) && m.maint.FlushStored? && m.pendSeq.Some?
    ensures var d := m.disk.(current := m.maint.man.gen);
            && d.current in d.manifests && Complete(d.segs, d.manifests[d.current])
            && var seen := Reopened(d, m.walSeq);
            && (seen.None? <==> UsedThenDropped(m.base.cols.Keys, Tail(m)))
            && (seen.Some? ==> SameRecords(m.spec, seen.value))
            && (seen == Some(m.spec) <==> WindowExact(m.base, Tail(m), m.spec))
  {
    hide Inv, Complete, UsedThenDropped, NamesReturn, Log, GoodLog, Checkpoint, Consistent, AllExtOk, Replay, Reopened,
         SameRecords, StandsFor, Replayable, Load, MemOk, BaseImg;
    var d, win := m.disk.(current := m.maint.man.gen), Win(m.base, Tail(m), m.spec);
    SwitchDisk(m, d);
    ReopenedShows(d, m.walSeq, m.mem.nextCid, m.spec, win, []);
    assert Tail(m) + [] == Tail(m);
    WindowReplayIff(m.base, Tail(m));
  }
}
