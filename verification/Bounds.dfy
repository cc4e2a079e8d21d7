/**
 * Work comes to an end: a flush, a compaction or a call that was begun takes a bounded number of steps, and the
 * clean-up runs out of files. Together with the progress lemmas of `Runs`, each of them finishes.
 */
module Bounds {
  import opened Image
  import opened Layers
  import opened Recovery
  import opened Machine
  import opened MachineInv
  import opened Runs

  /** Steps that a writer holding the lock still makes: its frames, and the commit. */
  ghost function WriterLeft(lock: Lock): int {
    match lock
    case Writer(batch, k) => |batch| - k + 1
    case _ => 0
  }

  /** Steps that the maintenance thread still makes, with one more for every file that it will have written. */
  ghost function MaintLeft(maint: Maint): int {
    match maint
    case Idle => 0
    case FlushWriting(_, work, done) => 5 + 2 * (|work| - done)
    case FlushStored(_, _, _) => 3
    case FlushSwitched(_, _, _) => 2
    case CompactWriting(_) => 7
    case CompactWritten(_) => 5
    case CompactStored(_, _) => 3
    case CompactSwitched(_, _) => 2
    case Cleaning => 1
  }

  ghost function Files(d: Disk): nat {
    |d.wals| + |d.manifests| + |d.segs|
  }

  ghost function Left(m: M): int {
    WriterLeft(m.lock) + MaintLeft(m.maint) + Files(m.disk)
  }

  /** Steps that finish something: all but those that begin it, and deletions of files that are not there. */
  ghost predicate Finishes(m: M, a: Action) {
    match a
    case Begin(_) => false
    case Reserve(_, _) => false
    case Rotate => false
    case FlushStart => false
    case CompactStart(_, _) => false
    case Crash(_) => false
    case DeleteWal(q) => q in m.disk.wals
    case DeleteManifest(g) => g in m.disk.manifests
    case DeleteSeg(c, sid) => (c, sid) in m.disk.segs
    case _ => true
  }

  /** What beginning something adds: a step for each frame and the commit; a log; the steps of a flush or compaction. */
  ghost function Begun(m: M, a: Action): int {
    match a
    case Begin(batch) => |batch| + 1
    case Rotate => 1
    case FlushStart => 5 + 2 * |m.mem.pending|
    case CompactStart(_, _) => 7
    case Crash(_) => 1
    case _ => 0
  }

  lemma MapPut<K, V>(m: map<K, V>, k: K, v: V)
    ensures |m[k := v]| == if k in m then |m| else |m| + 1
  {
    assert m[k := v].Keys == m.Keys + {k};
  }

  lemma MapDrop<K, V>(m: map<K, V>, k: K)
    ensures |m - {k}| == if k in m then |m| - 1 else |m|
  {
    assert (m - {k}).Keys == m.Keys - {k};
  }

  lemma WorkCount(m: M)
    requires Enabled(m, FlushStart)
    ensures AfterFlushStart(m).maint.FlushWriting? && |AfterFlushStart(m).maint.work| == |m.mem.pending|
    ensures AfterFlushStart(m).maint.done == 0 && AfterFlushStart(m).disk == m.disk && AfterFlushStart(m).lock == m.lock
  {
    var ids := Segments.SortedIds(m.mem.pending.Keys);
    DistinctIds(ids);
    assert Records.Elements(ids) == m.mem.pending.Keys;
  }

  lemma DistinctIds(ids: seq<nat>)
    requires Segments.Ascending(ids)
    ensures |Records.Elements(ids)| == |ids|
  {
    Records.DistinctCount(ids);
  }

  lemma CallPays(m: M, a: Action)
    requires Inv(m) && Enabled(m, a) && (a.Begin? || a.AppendFrame? || a.Commit? || a.Reserve? || a.Rotate?)
    ensures Left(Do(m, a)) + (if Finishes(m, a) then 1 else 0) <= Left(m) + Begun(m, a)
  {
    hide MemInv, DiskInv, RecoverInv, CreatesInv, Link, WindowInv, MaintInv, ManInv, Call, CommitMem, EmptiedCols,
         ReserveExt, Replay;
    match a
    case Commit => MapPut(m.disk.wals, m.walSeq, m.disk.wals[m.walSeq] + m.lock.batch);
    case Rotate => MapPut(m.disk.wals, m.walSeq + 1, []);
    case _ =>
  }

  lemma FlushPays(m: M, a: Action)
    requires Inv(m) && Enabled(m, a)
    requires a.FlushStart? || a.FlushWriteSeg? || a.FlushStore? || a.FlushSwitch? || a.FlushInstall? || a.Unlock?
    ensures Left(Do(m, a)) + (if Finishes(m, a) then 1 else 0) <= Left(m) + Begun(m, a)
  {
    hide MemInv, DiskInv, RecoverInv, CreatesInv, Link, WindowInv, MaintInv, ManInv, FlushManifest, InstallFlush, Tail,
         Call, AfterFlushStart;
    LeftPositive(m);
    match a
    case FlushStart => WorkCount(m);
    case FlushWriteSeg =>
      var w := m.maint.work[m.maint.done];
      MapPut(m.disk.segs, (w.cid, w.segId), Segments.Written(w.segId, w.table));
    case FlushStore =>
      var man := FlushManifest(m.man, m.mem, m.maint.walSeq, m.maint.work);
      MapPut(m.disk.manifests, man.gen, man);
    case _ =>
  }

  lemma CompactPays(m: M, a: Action)
    requires Inv(m) && Enabled(m, a)
    requires a.CompactStart? || a.CompactWrite? || a.CompactAbandon? || a.CompactStore? || a.CompactSwitch? ||
             a.CompactInstall?
    ensures Left(Do(m, a)) + (if Finishes(m, a) then 1 else 0) <= Left(m) + Begun(m, a)
  {
    hide MemInv, DiskInv, RecoverInv, CreatesInv, Link, WindowInv, MaintInv, ManInv, CompactManifest, InstallCompact,
         Merge, Segments.Written, Call;
    LeftPositive(m);
    match a
    case CompactWrite =>
      var job := m.maint.job;
      var merged := Merge(Segments.Tbls(job.run), job.older);
      if !merged.IsEmpty() {
        MapPut(m.disk.segs, (job.cid, job.segId), Segments.Written(job.segId, merged));
      }
    case CompactStore =>
      var man := CompactManifest(m.man, m.mem, m.maint.job);
      MapPut(m.disk.manifests, man.gen, man);
    case _ =>
  }

  lemma DeletePays(m: M, a: Action)
    requires Enabled(m, a) && (a.DeleteWal? || a.DeleteManifest? || a.DeleteSeg?)
    ensures Left(Do(m, a)) + (if Finishes(m, a) then 1 else 0) <= Left(m)
  {
    match a
    case DeleteWal(q) => MapDrop(m.disk.wals, q);
    case DeleteManifest(g) => MapDrop(m.disk.manifests, g);
    case DeleteSeg(c, sid) => MapDrop(m.disk.segs, (c, sid));
  }

  /** Every finishing step brings the end nearer; beginning something moves it by so much. */
  lemma StepPays(m: M, a: Action)
    requires Inv(m) && Enabled(m, a)
    ensures Left(Do(m, a)) + (if Finishes(m, a) then 1 else 0) <= Left(m) + Begun(m, a)
  {
    hide Inv, Enabled, Do, Left, Finishes, Begun;
    if a.Crash? {
      CrashPays(m, a.survived);
      CrashBegins(m, a);
    } else if a.DeleteWal? || a.DeleteManifest? || a.DeleteSeg? {
      DeletePays(m, a);
      CrashBegins(m, a);
    } else if a.Begin? || a.AppendFrame? || a.Commit? || a.Reserve? || a.Rotate? {
      CallPays(m, a);
    } else if a.FlushStart? || a.FlushWriteSeg? || a.FlushStore? || a.FlushSwitch? || a.FlushInstall? || a.Unlock? {
      FlushPays(m, a);
    } else {
      CompactPays(m, a);
    }
  }

  lemma CrashBegins(m: M, a: Action)
    ensures a.Crash? ==> Begun(m, a) == 1 && !Finishes(m, a)
    ensures a.DeleteWal? || a.DeleteManifest? || a.DeleteSeg? ==> Begun(m, a) == 0
  {
  }

  lemma CrashPays(m: M, j: nat)
    requires Inv(m) && Enabled(m, Crash(j))
    ensures Left(Do(m, Crash(j))) <= Left(m) + 1
  {
    hide MemInv, RecoverInv, CreatesInv, Link, WindowInv, MaintInv, ManInv, Load, CrashLoadable, Complete;
    LeftPositive(m);
    var d := CrashDisk(m, j);
    MapPut(m.disk.wals, m.walSeq, m.disk.wals[m.walSeq] + Survivors(m, j));
    MapPut(d.wals, m.walSeq + 1, []);
  }

  lemma LeftPositive(m: M)
    requires Inv(m)
    ensures WriterLeft(m.lock) >= 0 && MaintLeft(m.maint) >= 0
  {
    hide MemInv, DiskInv, RecoverInv, CreatesInv, Link, WindowInv, ManInv;
  }

  /** Starting a flush takes on every waiting memtable, starting a compaction the newest segments asked for. */
  lemma StartsWork(m: M, a: Action)
    requires Enabled(m, a) && (a.FlushStart? || a.CompactStart?)
    ensures a.FlushStart? ==>
              Do(m, a).maint.FlushWriting? && |Do(m, a).maint.work| == |m.mem.pending| && Do(m, a).maint.done == 0
    ensures a.CompactStart? ==>
              && Do(m, a).maint.CompactWriting? && Do(m, a).maint.job.cid == a.cid
              && Do(m, a).maint.job.run == m.mem.cols[a.cid].segs[..a.runLen]
              && (Do(m, a).maint.job.older <==> a.runLen < |m.mem.cols[a.cid].segs|)
  {
    hide AfterFlushStart;
    if a.FlushStart? {
      WorkCount(m);
    }
  }

  ghost function Finished(m: M, run: seq<Action>): nat
    requires IsRun(m, run)
    decreases |run|
  {
    if run == [] then 0 else (if Finishes(m, run[0]) then 1 else 0) + Finished(Do(m, run[0]), run[1..])
  }

  ghost function BegunIn(m: M, run: seq<Action>): int
    requires IsRun(m, run)
    decreases |run|
  {
    if run == [] then 0 else Begun(m, run[0]) + BegunIn(Do(m, run[0]), run[1..])
  }

  lemma {:induction false} RunPays(m: M, run: seq<Action>)
    requires Inv(m) && IsRun(m, run)
    ensures Finished(m, run) + Left(End(m, run)) <= Left(m) + BegunIn(m, run)
    decreases |run|
  {
    hide Inv, Enabled, Do, Finishes, Begun, Left;
    if run != [] {
      Keep(m, run[0]);
      StepPays(m, run[0]);
      RunPays(Do(m, run[0]), run[1..]);
    }
  }

  /**
   * From an empty directory, no run makes more finishing steps than what it began amounts to, and two for the files
   * that were there: no flush, compaction or call goes on forever, and deleting stops.
   */
  lemma BoundedWork(run: seq<Action>)
    requires IsRun(Initial(), run)
    ensures Finished(Initial(), run) <= 2 + BegunIn(Initial(), run)
  {
    hide Inv;
    InitialInv();
    RunPays(Initial(), run);
    ReachableStates(run);
    LeftPositive(End(Initial(), run));
    assert Files(Initial().disk) == 2;
  }
}
