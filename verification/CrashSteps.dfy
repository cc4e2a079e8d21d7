/**
 * Crash and recovery: what reopening gives at every crash point, and that the recovered state satisfies the
 * invariant.
 */
module CrashSteps {
  import opened Records
  import opened Layers
  import opened Image
  import opened Window
  import opened WindowNames
  import opened LogBehind
  import opened StoreState
  import opened Recovery
  import opened Machine
  import opened MachineInv
  import opened Maintenance
  import opened MachineSteps

  /** `j` frames of the interrupted call survive; without a writer there is nothing to survive. */
  ghost predicate CrashPoint(m: M, j: nat) {
    if m.lock.Writer? then j <= m.lock.k <= |m.lock.batch| else j == 0
  }

  /** What survives of an interrupted call is itself a legal log. */
  lemma SurvivorsGood(m: M, j: nat)
    requires Inv(m) && CrashPoint(m, j)
    ensures GoodLog(m.spec, Survivors(m, j)) && AllExtOk(m.spec) && Consistent(m.spec)
    ensures Replay(m.spec, Survivors(m, j)).Some?
    ensures Consistent(Replay(m.spec, Survivors(m, j)).value) && AllExtOk(Replay(m.spec, Survivors(m, j)).value)
  {
    hide MemOk, DiskInv, RecoverInv, CreatesInv, Link, WindowInv, MaintInv, Call, ApplyAll, Abs, Consistent, AllExtOk;
    if m.lock.Writer? {
      WriterCall(m);
      var batch := m.lock.batch;
      assert batch == batch[..j] + batch[j..];
      PrefixGood(m.spec, batch[..j], batch[j..]);
    }
    GoodLogKeeps(m.spec, Survivors(m, j));
  }

  lemma {:induction false} PrefixGood(s: Img, a: seq<WalRecord>, b: seq<WalRecord>)
    requires GoodLog(s, a + b)
    ensures GoodLog(s, a)
    decreases |a|
  {
    if a != [] {
      assert (a + b)[0] == a[0] && (a + b)[1..] == a[1..] + b;
      PrefixGood(Next(s, a[0]), a[1..], b);
    }
  }

  lemma SurvivorsCreate(m: M, j: nat)
    requires Inv(m) && CrashPoint(m, j) && m.disk.current in m.disk.manifests
    ensures CreatesEmpty(CurrentMan(m.disk), Survivors(m, j))
  {
    hide MemInv, RecoverInv, CreatesInv, Link, WindowInv, MaintInv, Call;
    if m.lock.Writer? {
      var batch := m.lock.batch;
      forall i | 0 <= i < j && batch[i].CreateCollection? ensures batch[i].cid !in CurrentMan(m.disk).cols {
        CallCreates(m.mem, batch, CurrentMan(m.disk), i);
      }
    }
  }

  lemma CrashCreates(m: M, j: nat)
    requires Inv(m) && CrashPoint(m, j) && m.walSeq in m.disk.wals && m.disk.current in m.disk.manifests
    requires CurrentMan(m.disk).walSeq < m.walSeq && CreatesInv(m.disk, m.walSeq)
    ensures CreatesInv(CrashDisk(m, j), m.walSeq)
  {
    hide Inv, CreatesEmpty;
    var man := CurrentMan(m.disk);
    SurvivorsCreate(m, j);
    LogGrow(m.disk.wals, man.walSeq + 1, m.walSeq, Survivors(m, j));
    CreatesAppend(man, Log(m.disk.wals, man.walSeq + 1, m.walSeq + 1), Survivors(m, j));
  }

  /** The disk a crash leaves behind stands for the acknowledged calls plus the surviving frames. */
  lemma CrashDiskOk(m: M, j: nat)
    requires Inv(m) && CrashPoint(m, j)
    ensures m.walSeq in m.disk.wals && Replay(m.spec, Survivors(m, j)).Some?
    ensures var d := CrashDisk(m, j);
            DiskInv(d, m.walSeq, m.mem.nextCid) && CreatesInv(d, m.walSeq)
            && RecoverInv(d, m.walSeq, Replay(m.spec, Survivors(m, j)).value, m.win, m.since + Survivors(m, j))
  {
    hide MemInv, RecoverInv, CreatesInv, Link, WindowInv, MaintInv, LockInv, Complete, Survivors, GoodLog, AllExtOk,
         Consistent, Replay;
    SurvivorsGood(m, j);
    CommitDisk(m.disk, m.walSeq, m.mem.nextCid, m.spec, m.win, m.since, Survivors(m, j), m.mem.nextCid);
    CrashCreates(m, j);
  }

  /** What reopening shows is the checkpoint of the last flush with its window and all that came since. */
  lemma ReopenedShows(d: Disk, walSeq: nat, nextCid: Cid, spec: Img, win: Win, since: seq<WalRecord>)
    requires DiskInv(d, walSeq, nextCid) && RecoverInv(d, walSeq, spec, win, since)
    ensures Reopened(d, walSeq) == Replay(Checkpoint(win.base, win.mid), win.tail + since)
    ensures Reopened(d, walSeq).Some? ==> MemOk(Load(d, walSeq).value) && Load(d, walSeq).value.pending == map[]
  {
    hide Complete, Passed, Log, Replay, Replayable, Checkpoint, MemOk, Load, SameRecords, UsedThenDropped,
         DirectoryReturns, WindowExact, BaseImg;
    var img, start, log := BaseImg(d.segs, CurrentMan(d)), Checkpoint(win.base, win.mid), win.tail + since;
    BehindIff(win.base, win.tail, win.mid, since, spec);
    ReopenedIs(d, walSeq);
    CheckpointNext(win);
    if Replay(start, log).Some? {
      SameNext(spec, Replay(start, log).value);
      ReplayNext(start, img.next, log);
      LoadRefines(d, walSeq);
      LoadedIs(d, walSeq);
    } else {
      NextRejects(start, img.next, log);
    }
  }

  lemma CheckpointNext(win: Win)
    ensures Checkpoint(win.base, win.mid).next == win.mid.next
  {
  }

  lemma SameNext(s: Img, t: Img)
    requires SameRecords(s, t)
    ensures t.next == s.next
  {
  }

  lemma LoadedIs(d: Disk, walSeq: nat)
    requires d.current in d.manifests && Complete(d.segs, d.manifests[d.current])
    ensures Load(d, walSeq).Some? ==> Reopened(d, walSeq) == Some(Abs(Load(d, walSeq).value))
  {
    hide Load, Abs, Complete;
  }

  /** The next id of a checkpoint has no part in rejections. */
  lemma {:induction false} NextRejects(s: Img, n: Cid, log: seq<WalRecord>)
    requires Replay(s, log).None?
    ensures Replay(s.(next := n), log).None?
    decreases |log|
  {
    if log != [] {
      if Step(s, log[0]).Some? {
        var s' := Step(s, log[0]).value;
        var n' := if log[0].CreateCollection? then Max(n, log[0].cid + 1) else n;
        assert Step(s.(next := n), log[0]) == Some(s'.(next := n'));
        NextRejects(s', n', log[1..]);
      }
    }
  }

  /**
   * Every crash point, between any two durable sub-steps and after any number of appended frames,
   * whatever flushes, compactions and rotations came before. CURRENT names a complete manifest. The
   * log is rejected if and only if the window of the last flush used a collection older than itself and dropped it
   * later. Otherwise all collections and records come back: the acknowledged ones plus those frames. So does
   * the directory, if and only if its names return; an exact window makes sure that they do.
   */
  lemma EveryReopening(m: M, j: nat)
    requires Inv(m) && CrashPoint(m, j)
    ensures m.walSeq in m.disk.wals && Replay(m.spec, Survivors(m, j)).Some?
    ensures var d := CrashDisk(m, j);
            && d.current in d.manifests && Complete(d.segs, d.manifests[d.current])
            && var live, seen := Replay(m.spec, Survivors(m, j)).value, Reopened(d, m.walSeq);
            && (seen.None? <==> UsedThenDropped(m.win.base.cols.Keys, m.win.tail))
            && (seen.Some? ==>
                SameRecords(live, seen.value) && MemOk(Load(d, m.walSeq).value) &&
                Load(d, m.walSeq).value.pending == map[])
            && (seen == Some(live) <==>
                  && !UsedThenDropped(m.win.base.cols.Keys, m.win.tail)
                  && DirectoryReturns(m.win.base, m.win.mid, m.win.tail + (m.since + Survivors(m, j)), live))
            && (WindowExact(m.win.base, m.win.tail, m.win.mid) ==> seen == Some(live))
            && (Enabled(m, Crash(j)) <==> seen == Some(live))
  {
    hide Inv, Complete, Passed, Log, Replay, Checkpoint, MemOk, Load, SameRecords, UsedThenDropped, DirectoryReturns,
         WindowExact, BaseImg, Survivors, Abs, StandsFor;
    CrashDiskOk(m, j);
    var d, live := CrashDisk(m, j), Replay(m.spec, Survivors(m, j)).value;
    ReopenedShows(d, m.walSeq, m.mem.nextCid, live, m.win, m.since + Survivors(m, j));
    BehindIff(m.win.base, m.win.tail, m.win.mid, m.since + Survivors(m, j), live);
  }

  /**
   * With an exact window every crash recovers: exactly the acknowledged calls plus the surviving frames, with
   * correct caches.
   */
  lemma EveryCrashRecovers(m: M, j: nat)
    requires Inv(m) && CrashPoint(m, j) && WindowExact(m.win.base, m.win.tail, m.win.mid)
    ensures Enabled(m, Crash(j))
    ensures var d := CrashDisk(m, j);
            && d.current in d.manifests && Complete(d.segs, d.manifests[d.current]) && Load(d, m.walSeq).Some?
            && Replay(m.spec, Survivors(m, j)) == Some(Abs(Load(d, m.walSeq).value))
            && MemOk(Load(d, m.walSeq).value) && Load(d, m.walSeq).value.pending == map[]
  {
    hide Inv, Complete, Replay, Survivors, MemOk, Abs, WindowExact, UsedThenDropped, DirectoryReturns, SameRecords,
         Load;
    EveryReopening(m, j);
  }

  // ---------------------------------------------------------------------
  // The recovered state satisfies the invariant
  // ---------------------------------------------------------------------

  /** One record leaves a collection its segments, or creates it without any. */
  lemma AppliedList(m: Mem, r: WalRecord, c: Cid)
    requires Apply(m, r).Some? && c in Apply(m, r).value.cols
    ensures var segs := Apply(m, r).value.cols[c].segs;
            (c in m.cols && segs == m.cols[c].segs) || (segs == [] && r.CreateCollection? && r.cid == c)
  {
    hide Lookup, Sources;
  }

  /** Replay changes no segment list, except that a re-created collection has none. */
  lemma {:induction false} ReplayedList(m: Mem, log: seq<WalRecord>, c: Cid)
    requires ApplyAll(m, log).Some? && c in ApplyAll(m, log).value.cols
    ensures var segs := ApplyAll(m, log).value.cols[c].segs;
            || (c in m.cols && segs == m.cols[c].segs)
            || (segs == [] && exists i :: 0 <= i < |log| && log[i].CreateCollection? && log[i].cid == c)
    decreases |log|
  {
    if log != [] {
      hide Apply;
      var m1 := Apply(m, log[0]).value;
      ReplayedList(m1, log[1..], c);
      if c in m1.cols {
        AppliedList(m, log[0], c);
      }
      if i :| 0 <= i < |log[1..]| && log[1..][i].CreateCollection? && log[1..][i].cid == c {
        assert log[i + 1] == log[1..][i];
      }
    }
  }

  lemma {:induction false} ReplayedNext(m: Mem, log: seq<WalRecord>)
    requires ApplyAll(m, log).Some?
    ensures m.nextCid <= ApplyAll(m, log).value.nextCid
    decreases |log|
  {
    if log != [] {
      ReplayedNext(Apply(m, log[0]).value, log[1..]);
    }
  }

  lemma OpenedLink(segs: SegFiles, man: Manifest, c: Cid)
    requires Complete(segs, man) && c in man.cols
    ensures LinkOne(OpenSegs(segs, c, man.cols[c].segIds), segs, man, c)
  {
    assert EntryComplete(segs, c, man.cols[c].segIds, man.nextSegId);
    var ids := man.cols[c].segIds;
    var list := OpenSegs(segs, c, ids);
    forall i | 0 <= i < |list| ensures list[i] == segs[(c, ids[|ids| - 1 - i])] && list[i].segId == ids[|ids| - 1 - i] {
    }
    assert SegIds(list) == ids;
  }

  lemma LoadedLinkOne(segs: SegFiles, man: Manifest, log: seq<WalRecord>, mem: Mem, c: Cid)
    requires Complete(segs, man) && CreatesEmpty(man, log) && ApplyAll(BaseMem(segs, man), log) == Some(mem)
        && c in mem.cols
    ensures LinkOne(mem.cols[c].segs, segs, man, c)
  {
    hide Complete;
    ReplayedList(BaseMem(segs, man), log, c);
    if c in man.cols {
      OpenedLink(segs, man, c);
      assert BaseMem(segs, man).cols[c].segs == OpenSegs(segs, c, man.cols[c].segIds);
    }
  }

  lemma LoadedLink(disk: Disk, walSeq: nat, nextCid: Cid, mem: Mem)
    requires DiskInv(disk, walSeq, nextCid) && CreatesInv(disk, walSeq) && Load(disk, walSeq) == Some(mem)
    ensures Link(mem, disk.segs, CurrentMan(disk)) && CurrentMan(disk).nextCid <= mem.nextCid
  {
    hide LinkOne, CreatesEmpty, Log, ApplyAll;
    var man := CurrentMan(disk);
    var log := Log(disk.wals, man.walSeq + 1, walSeq + 1);
    forall c | c in mem.cols ensures LinkOne(mem.cols[c].segs, disk.segs, man, c) {
      LoadedLinkOne(disk.segs, man, log, mem, c);
    }
    ReplayedNext(BaseMem(disk.segs, man), log);
  }

  lemma KeepCrash(m: M, j: nat, m': M)
    requires Inv(m) && CrashPoint(m, j) && m.walSeq in m.disk.wals && CrashLoadable(m, j) && m' == AfterCrash(m, j)
    ensures Inv(m')
  {
    hide Inv, Complete, Replay, MemOk, Consistent, AllExtOk, GoodLog, Abs, Load, CrashDisk, DiskInv, CreatesInv,
         RecoverInv, Survivors, UsedThenDropped, DirectoryReturns, WindowExact, SameRecords, Enabled;
    SurvivorsGood(m, j);
    CrashDiskOk(m, j);
    EveryReopening(m, j);
    var d := CrashDisk(m, j);
    CrashedInv(m, d, m'.spec, m.since + Survivors(m, j), Load(d, m.walSeq).value, m');
  }

  lemma CrashedInv(m: M, d: Disk, spec: Img, since: seq<WalRecord>, mem': Mem, m': M)
    requires DiskInv(d, m.walSeq, m.mem.nextCid) && RecoverInv(d, m.walSeq, spec, m.win, since)
        && CreatesInv(d, m.walSeq)
    requires Load(d, m.walSeq) == Some(mem') && Abs(mem') == spec && MemOk(mem') && mem'.pending == map[]
    requires Consistent(spec) && AllExtOk(spec)
    requires m' == M(d.(wals := d.wals[m.walSeq + 1 := []]), mem', d.manifests[d.current], m.walSeq + 1, None, Free,
        Idle, spec, m.base, m.win, since)
    ensures Inv(m')
  {
    hide Inv, Complete, RecoverInv, CreatesInv, MemOk, Consistent, AllExtOk, Link, Abs, Load;
    LoadedLink(d, m.walSeq, m.mem.nextCid, mem');
    RotateDisk(d, m.walSeq, mem'.nextCid, spec, m.win, since);
    NoWindow(mem', m'.disk.wals, m'.walSeq, spec, m.base);
    RecoveredInv(m');
  }

  lemma RecoveredInv(m': M)
    requires MemInv(m'.mem, None, m'.spec) && DiskInv(m'.disk, m'.walSeq, m'.mem.nextCid)
    requires RecoverInv(m'.disk, m'.walSeq, m'.spec, m'.win, m'.since) && CreatesInv(m'.disk, m'.walSeq)
    requires m'.disk.current in m'.disk.manifests && m'.man == CurrentMan(m'.disk)
    requires Link(m'.mem, m'.disk.segs, m'.man) && m'.pendSeq == None && m'.lock.Free? && m'.maint.Idle?
    requires WindowInv(m'.mem, m'.disk.wals, m'.walSeq, None, m'.spec, m'.base)
    ensures Inv(m')
  {
    hide MemInv, DiskInv, RecoverInv, CreatesInv, Link, WindowInv;
  }
}
