/** Every step of the store's state machine keeps the invariant. */
module MachineSteps {
  import opened Records
  import opened Memtables
  import opened Layers
  import opened Segments
  import opened Image
  import opened Window
  import opened LogBehind
  import opened StoreState
  import opened Recovery
  import opened Machine
  import opened MachineInv
  import opened Maintenance

  // ---------------------------------------------------------------------
  // Log files
  // ---------------------------------------------------------------------

  lemma LogGrow(wals: WalFiles, lo: nat, seq_: nat, more: seq<WalRecord>)
    requires seq_ in wals && lo <= seq_
    ensures Log(wals[seq_ := wals[seq_] + more], lo, seq_ + 1) == Log(wals, lo, seq_ + 1) + more
  {
    LogFrame(wals, wals[seq_ := wals[seq_] + more], lo, seq_);
  }

  lemma LogNewFile(wals: WalFiles, lo: nat, seq_: nat)
    requires lo <= seq_ + 1
    ensures Log(wals[seq_ + 1 := []], lo, seq_ + 2) == Log(wals, lo, seq_ + 1)
  {
    LogFrame(wals, wals[seq_ + 1 := []], lo, seq_ + 1);
  }

  lemma LogWithout(wals: WalFiles, q: nat, lo: nat, hi: nat)
    requires q < lo
    ensures Log(wals - {q}, lo, hi) == Log(wals, lo, hi)
  {
    LogFrame(wals, wals - {q}, lo, hi);
  }

  // ---------------------------------------------------------------------
  // Commit
  // ---------------------------------------------------------------------

  lemma CommitDisk(disk: Disk, walSeq: nat, nextCid: Cid, spec: Img, win: Win, since: seq<WalRecord>,
      batch: seq<WalRecord>, nextCid': Cid)
    requires DiskInv(disk, walSeq, nextCid) && RecoverInv(disk, walSeq, spec, win, since) && nextCid <= nextCid'
    requires GoodLog(spec, batch) && Consistent(spec) && AllExtOk(spec)
    ensures Replay(spec, batch).Some?
    ensures var disk' := disk.(wals := disk.wals[walSeq := disk.wals[walSeq] + batch]);
            DiskInv(disk', walSeq, nextCid') && RecoverInv(disk', walSeq, Replay(spec, batch).value, win, since + batch)
  {
    hide Complete, Passed, GoodLog, Consistent, AllExtOk, Replay, Log, StandsFor, BaseImg;
    var man := CurrentMan(disk);
    LogGrow(disk.wals, man.walSeq + 1, walSeq, batch);
    GoodLogKeeps(spec, batch);
    PassedAppend(win, since, spec, batch);
    NextGrows(spec, batch);
    StandsLonger(BaseImg(disk.segs, man), win, spec.next, Replay(spec, batch).value.next);
    assert win.tail + (since + batch) == win.tail + since + batch;
  }

  lemma PassedAppend(win: Win, since: seq<WalRecord>, spec: Img, batch: seq<WalRecord>)
    requires Passed(win.base, win.tail, win.mid, since, spec) && GoodLog(spec, batch) && Replay(spec, batch).Some?
    ensures Passed(win.base, win.tail, win.mid, since + batch, Replay(spec, batch).value)
  {
    hide Consistent, AllExtOk;
    GoodLogAppend(win.mid, since, batch);
    ReplayAppend(win.mid, since, batch);
  }

  lemma {:induction false} NextGrows(s: Img, log: seq<WalRecord>)
    requires Replay(s, log).Some?
    ensures s.next <= Replay(s, log).value.next
    decreases |log|
  {
    if log != [] {
      assert s.next <= Step(s, log[0]).value.next;
      NextGrows(Step(s, log[0]).value, log[1..]);
    }
  }

  lemma StandsLonger(img: Img, win: Win, next: Cid, next': Cid)
    requires StandsFor(img, win, next) && next <= next'
    ensures StandsFor(img, win, next')
  {
  }

  lemma CreatesAppend(man: Manifest, log: seq<WalRecord>, batch: seq<WalRecord>)
    requires CreatesEmpty(man, log) && CreatesEmpty(man, batch)
    ensures CreatesEmpty(man, log + batch)
  {
    var all := log + batch;
    forall i | 0 <= i < |all| && all[i].CreateCollection? && all[i].cid in man.cols
      ensures man.cols[all[i].cid].segIds == [] {
      assert all[i] == if i < |log| then log[i] else batch[i - |log|];
    }
  }

  /** A call creates only a collection no manifest knows. */
  lemma CallCreates(mem: Mem, batch: seq<WalRecord>, man: Manifest, i: nat)
    requires Call(mem, batch) && man.nextCid <= mem.nextCid && i < |batch| && batch[i].CreateCollection?
    requires forall c :: c in man.cols ==> c < man.nextCid
    ensures batch[i].cid !in man.cols
  {
  }

  lemma CommitCreates(mem: Mem, disk: Disk, walSeq: nat, batch: seq<WalRecord>)
    requires Call(mem, batch) && DiskInv(disk, walSeq, mem.nextCid) && CreatesInv(disk, walSeq)
    ensures CreatesInv(disk.(wals := disk.wals[walSeq := disk.wals[walSeq] + batch]), walSeq)
  {
    hide Call;
    var man := CurrentMan(disk);
    LogGrow(disk.wals, man.walSeq + 1, walSeq, batch);
    forall i | 0 <= i < |batch| && batch[i].CreateCollection? ensures batch[i].cid !in man.cols {
      CallCreates(mem, batch, man, i);
    }
    assert CreatesEmpty(man, batch);
    CreatesAppend(man, Log(disk.wals, man.walSeq + 1, walSeq + 1), batch);
  }

  lemma CommitLink(mem: Mem, batch: seq<WalRecord>, segs: SegFiles, man: Manifest)
    requires AppliesWell(mem, batch) && Call(mem, batch) && Consistent(Abs(mem)) && mem.pending.Keys <= mem.cols.Keys
    requires Link(mem, segs, man)
    ensures Link(CommitMem(mem, batch), segs, man)
  {
    hide AppliesWell, Call, Consistent, Abs, MemOk, ApplyAll, Older, CommitMem;
    AppliesFacts(mem, batch);
    CommitImage(mem, batch);
    var mem' := CommitMem(mem, batch);
    forall c | c in mem'.cols ensures LinkOne(mem'.cols[c].segs, segs, man, c) {
      CommitOlder(mem, batch, c);
      assert c in mem.cols ==> LinkOne(mem.cols[c].segs, segs, man, c);
    }
  }

  lemma CommitRows(mem: Mem, batch: seq<WalRecord>, tail: seq<WalRecord>, base: Img, c: Cid)
    requires AppliesWell(mem, batch) && Call(mem, batch) && Consistent(Abs(mem)) && mem.pending.Keys <= mem.cols.Keys
    requires Consistent(base) && GoodLog(base, tail) && Replay(base, tail) == Some(Abs(mem))
    requires c in CommitMem(mem, batch).cols && (c in mem.cols ==> WindowRows(mem, base, c))
    ensures WindowRows(CommitMem(mem, batch), base, c)
  {
    CommitOlder(mem, batch, c);
    FinalKeys(base, tail, c);
  }

  lemma CommitTail(tail: seq<WalRecord>, batch: seq<WalRecord>, spec: Img, base: Img)
    requires GoodLog(base, tail) && Replay(base, tail) == Some(spec) && GoodLog(spec, batch)
    ensures GoodLog(base, tail + batch) && Replay(base, tail + batch) == Replay(spec, batch)
  {
    GoodLogAppend(base, tail, batch);
    ReplayAppend(base, tail, batch);
  }

  lemma CommitAllRows(mem: Mem, batch: seq<WalRecord>, tail: seq<WalRecord>, base: Img)
    requires AppliesWell(mem, batch) && Call(mem, batch) && Consistent(Abs(mem)) && mem.pending.Keys <= mem.cols.Keys
    requires Consistent(base) && GoodLog(base, tail) && Replay(base, tail) == Some(Abs(mem))
    requires forall c :: c in mem.cols ==> WindowRows(mem, base, c)
    ensures forall c :: c in CommitMem(mem, batch).cols ==> WindowRows(CommitMem(mem, batch), base, c)
  {
    forall c | c in CommitMem(mem, batch).cols ensures WindowRows(CommitMem(mem, batch), base, c) {
      CommitRows(mem, batch, tail, base, c);
    }
  }

  lemma CommitWindow(mem: Mem, batch: seq<WalRecord>, wals: WalFiles, walSeq: nat, w: nat, base: Img)
    requires AppliesWell(mem, batch) && Call(mem, batch) && Consistent(Abs(mem)) && mem.pending.Keys <= mem.cols.Keys
    requires walSeq in wals && WindowInv(mem, wals, walSeq, Some(w), Abs(mem), base)
    ensures WindowInv(CommitMem(mem, batch), wals[walSeq := wals[walSeq] + batch], walSeq, Some(w),
        Replay(Abs(mem), batch).value, base)
  {
    hide AppliesWell, Call, Consistent, AllExtOk, GoodLog, Replay, Abs, WindowRows, Log, CommitMem, ApplyAll;
    AppliesFacts(mem, batch);
    LogGrow(wals, w + 1, walSeq, batch);
    CommitTail(Log(wals, w + 1, walSeq + 1), batch, Abs(mem), base);
    CommitAllRows(mem, batch, Log(wals, w + 1, walSeq + 1), base);
  }

  lemma CommitWork(mem: Mem, batch: seq<WalRecord>, work: seq<Work>, nextSegId: nat)
    requires AppliesWell(mem, batch) && Call(mem, batch) && Consistent(Abs(mem)) && mem.pending.Keys <= mem.cols.Keys
    requires WorkInv(mem, work, nextSegId)
    ensures WorkInv(CommitMem(mem, batch), work, nextSegId)
  {
    CommitImage(mem, batch);
    var mem' := CommitMem(mem, batch);
    forall c | c in mem'.cols ensures WorkMatches(mem'.pending, work, c) {
      CommitOlder(mem, batch, c);
      assert c in mem.cols ==> WorkMatches(mem.pending, work, c);
    }
  }

  lemma CommitJob(mem: Mem, batch: seq<WalRecord>, man: Manifest, job: Job)
    requires AppliesWell(mem, batch) && Call(mem, batch) && Consistent(Abs(mem)) && mem.pending.Keys <= mem.cols.Keys
    requires JobInv(mem, man, job)
    ensures JobInv(CommitMem(mem, batch), man, job)
  {
    CommitImage(mem, batch);
    if job.cid in CommitMem(mem, batch).cols {
      CommitOlder(mem, batch, job.cid);
    }
  }

  lemma CommitMaint(m: M, m': M)
    requires Inv(m) && m.lock.Writer? && AppliesWell(m.mem, m.lock.batch)
    requires m'.mem == CommitMem(m.mem, m.lock.batch) && m'.maint == m.maint && m'.man == m.man
        && m'.pendSeq == m.pendSeq
    requires m'.disk.segs == m.disk.segs && m'.disk.manifests == m.disk.manifests && m'.disk.current == m.disk.current
    ensures MaintInv(m')
  {
    match m.maint
    case FlushWriting(w, work, done) => CommitWork(m.mem, m.lock.batch, work, m.man.nextSegId);
    case CompactWriting(job) => CommitJob(m.mem, m.lock.batch, m.man, job);
    case CompactWritten(job) => CommitJob(m.mem, m.lock.batch, m.man, job);
    case _ =>
  }

  lemma WriterCall(m: M)
    requires Inv(m) && m.lock.Writer?
    ensures AppliesWell(m.mem, m.lock.batch) && Call(m.mem, m.lock.batch)
  {
    CallGood(m.mem, m.lock.batch);
  }

  /** A writer that has appended its frames can always commit. */
  lemma CommitEnabled(m: M)
    requires Inv(m) && m.lock.Writer? && m.lock.k == |m.lock.batch|
    ensures Enabled(m, Commit)
  {
    WriterCall(m);
  }

  lemma NoWindow(mem: Mem, wals: WalFiles, walSeq: nat, spec: Img, base: Img)
    ensures WindowInv(mem, wals, walSeq, None, spec, base)
  {
  }

  lemma KeepCommit(m: M, m': M)
    requires Inv(m) && Enabled(m, Commit) && m' == AfterCommit(m)
    ensures Inv(m')
  {
    hide MemOk, Link, WindowInv, RecoverInv, CreatesInv, MaintInv, Abs, CommitMem, Complete, Consistent, AppliesWell,
         Call, AllExtOk, GoodLog, Replay, ApplyAll;
    WriterCall(m);
    var batch := m.lock.batch;
    CommitImage(m.mem, batch);
    CommitCreates(m.mem, m.disk, m.walSeq, batch);
    GoodLogKeeps(m.spec, batch);
    CommitDisk(m.disk, m.walSeq, m.mem.nextCid, m.spec, m.win, m.since, batch, m'.mem.nextCid);
    CommitLink(m.mem, batch, m.disk.segs, m.man);
    if m.pendSeq.Some? {
      CommitWindow(m.mem, batch, m.disk.wals, m.walSeq, m.pendSeq.value, m.base);
    } else {
      NoWindow(m'.mem, m'.disk.wals, m'.walSeq, m'.spec, m'.base);
      assert m'.mem.pending.Keys <= {};
    }
    CommitMaint(m, m');
  }

  // ---------------------------------------------------------------------
  // Other steps under the lock
  // ---------------------------------------------------------------------

  lemma KeepReserve(m: M, c: Cid, ext: string, mem': Mem)
    requires Inv(m) && m.lock.Free? && c in m.mem.cols
    requires mem' == m.mem.(cols := m.mem.cols[c := ReserveExt(m.mem.cols[c], ext)])
    ensures Inv(m.(mem := mem'))
  {
    ReserveAll(m.mem, mem', c, ext);
    ReserveMaint(m, c, ext, mem');
    ReserveWindow(m.mem, mem', c, ext, m.disk.wals, m.walSeq, m.pendSeq, m.spec, m.base);
  }

  lemma ReserveAll(mem: Mem, mem': Mem, c: Cid, ext: string)
    requires MemOk(mem) && c in mem.cols
    requires mem' == mem.(cols := mem.cols[c := ReserveExt(mem.cols[c], ext)])
    ensures MemOk(mem') && Abs(mem') == Abs(mem)
  {
    forall k | k in mem.cols ensures CollOk(mem', k) && ColOf(mem', k) == ColOf(mem, k) {
      ReserveOne(mem, mem', c, ext, k);
    }
    SameAbs(mem', mem);
  }

  lemma ReserveWindow(mem: Mem, mem': Mem, c: Cid, ext: string, wals: WalFiles, walSeq: nat, pendSeq: Option<nat>,
      spec: Img, base: Img)
    requires MemOk(mem) && c in mem.cols && WindowInv(mem, wals, walSeq, pendSeq, spec, base)
    requires mem' == mem.(cols := mem.cols[c := ReserveExt(mem.cols[c], ext)])
    ensures WindowInv(mem', wals, walSeq, pendSeq, spec, base)
  {
    if pendSeq.Some? {
      forall k | k in mem.cols ensures WindowRows(mem', base, k) {
        assert WindowRows(mem, base, k);
        ReserveOne(mem, mem', c, ext, k);
      }
    }
  }

  lemma ReserveOne(mem: Mem, mem': Mem, c: Cid, ext: string, k: Cid)
    requires MemOk(mem) && c in mem.cols && k in mem.cols
    requires mem' == mem.(cols := mem.cols[c := ReserveExt(mem.cols[c], ext)])
    ensures Sources(mem', k) == Sources(mem, k) && Older(mem', k) == Older(mem, k)
    ensures CollOk(mem', k) && ColOf(mem', k) == ColOf(mem, k)
  {
    assert CollOk(mem, k);
    SourcesFrame(mem, mem', k);
    if k == c && ext !in mem.cols[c].extIds {
      ReserveCache(mem.cols[c], Live(mem, c), ext);
    }
  }

  /** A reserved string id does not disturb the ids of live records: the new string names none of them. */
  lemma ReserveCache(col: Coll, live: map<Id, StoredRecord>, ext: string)
    requires CacheOk(col, live) && ext !in col.extIds
    ensures CacheOk(ReserveExt(col, ext), live)
  {
  }

  lemma ReserveWork(mem: Mem, mem': Mem, c: Cid, ext: string, work: seq<Work>, nextSegId: nat)
    requires c in mem.cols && mem' == mem.(cols := mem.cols[c := ReserveExt(mem.cols[c], ext)])
    requires WorkInv(mem, work, nextSegId)
    ensures WorkInv(mem', work, nextSegId)
  {
    forall k | k in mem.cols ensures WorkMatches(mem'.pending, work, k) {
      assert WorkMatches(mem.pending, work, k);
    }
  }

  lemma ReserveLink(mem: Mem, mem': Mem, c: Cid, ext: string, segs: SegFiles, man: Manifest)
    requires c in mem.cols && mem' == mem.(cols := mem.cols[c := ReserveExt(mem.cols[c], ext)])
    requires Link(mem, segs, man)
    ensures Link(mem', segs, man)
  {
    forall k | k in mem.cols ensures LinkOne(mem'.cols[k].segs, segs, man, k) {
      assert LinkOne(mem.cols[k].segs, segs, man, k);
    }
  }

  lemma ReserveMaint(m: M, c: Cid, ext: string, mem': Mem)
    requires MaintInv(m) && c in m.mem.cols && !Holds(m.maint) && Link(m.mem, m.disk.segs, m.man)
    requires mem' == m.mem.(cols := m.mem.cols[c := ReserveExt(m.mem.cols[c], ext)])
    ensures MaintInv(m.(mem := mem')) && Link(mem', m.disk.segs, m.man)
  {
    ReserveLink(m.mem, mem', c, ext, m.disk.segs, m.man);
    if m.maint.FlushWriting? {
      ReserveWork(m.mem, mem', c, ext, m.maint.work, m.man.nextSegId);
    }
  }

  /** Setting the active memtables aside moves them one source down. */
  lemma EmptiedOlder(mem: Mem, c: Cid)
    requires mem.pending == map[] && c in mem.cols
    ensures Contents(Older(EmptiedCols(mem), c)) == Live(mem, c)
  {
    hide Contents, Lookup;
    var mem' := EmptiedCols(mem);
    assert Older(mem, c) == Tbls(mem.cols[c].segs);
    if mem.cols[c].mem.IsEmpty() {
      assert mem.cols[c].mem == EMPTY_TABLE;
      assert Older(mem', c) == Older(mem, c);
      ContentsUnderEmpty(Older(mem, c));
    } else {
      assert Older(mem', c) == Sources(mem, c);
    }
  }

  lemma EmptiedOne(mem: Mem, c: Cid)
    requires MemOk(mem) && mem.pending == map[] && c in mem.cols
    ensures var mem' := EmptiedCols(mem);
            && CollOk(mem', c) && ColOf(mem', c) == ColOf(mem, c)
            && Contents(Older(mem', c)) == Live(mem, c)
  {
    hide Contents, Lookup, Older, CacheOk;
    var mem' := EmptiedCols(mem);
    assert CollOk(mem, c);
    ContentsUnderEmpty(Older(mem', c));
    EmptiedOlder(mem, c);
    assert mem'.cols[c] == mem.cols[c].(mem := EMPTY_TABLE);
    SameCache(mem.cols[c], mem'.cols[c], Live(mem, c));
  }

  lemma EmptiedShape(mem: Mem)
    ensures var mem' := EmptiedCols(mem);
            mem'.cols.Keys == mem.cols.Keys && mem'.pending.Keys <= mem'.cols.Keys && mem'.nextCid == mem.nextCid
                && mem'.names == mem.names
  {
  }

  lemma EmptiedAll(mem: Mem)
    requires MemOk(mem) && mem.pending == map[]
    ensures MemOk(EmptiedCols(mem)) && Abs(EmptiedCols(mem)) == Abs(mem)
  {
    var mem' := EmptiedCols(mem);
    EmptiedPending(mem);
    EmptiedShape(mem);
    hide ColOf, Abs, CollOk, EmptiedCols;
    forall c | c in mem.cols ensures CollOk(mem', c) && ColOf(mem', c) == ColOf(mem, c) {
      EmptiedOne(mem, c);
    }
    SameAbs(mem', mem);
  }

  lemma EmptiedPending(mem: Mem)
    requires MemOk(mem)
    ensures forall c :: c in EmptiedCols(mem).pending ==> EmptiedCols(mem).pending[c].Valid()
  {
    hide Live, CacheOk;
    forall c | c in EmptiedCols(mem).pending ensures EmptiedCols(mem).pending[c].Valid() {
      assert CollOk(mem, c);
    }
  }

  lemma RotateWindow(mem: Mem, wals: WalFiles, walSeq: nat, spec: Img)
    requires MemInv(mem, None, spec) && forall q :: q in wals ==> q <= walSeq
    ensures WindowInv(EmptiedCols(mem), wals[walSeq + 1 := []], walSeq + 1, Some(walSeq), spec, spec)
  {
    hide MemOk, Consistent, AllExtOk, Abs, GoodLog, Replay, Log, WindowRows;
    RotateTail(wals, walSeq, spec);
    forall c | c in mem.cols ensures WindowRows(EmptiedCols(mem), spec, c) {
      RotateRows(mem, spec, c);
    }
  }

  lemma RotateTail(wals: WalFiles, walSeq: nat, spec: Img)
    requires forall q :: q in wals ==> q <= walSeq
    ensures var tail := Log(wals[walSeq + 1 := []], walSeq + 1, walSeq + 2);
            GoodLog(spec, tail) && Replay(spec, tail) == Some(spec)
  {
    assert Log(wals[walSeq + 1 := []], walSeq + 1, walSeq + 2) == [];
  }

  lemma RotateRows(mem: Mem, spec: Img, c: Cid)
    requires MemInv(mem, None, spec) && c in mem.cols
    ensures WindowRows(EmptiedCols(mem), spec, c)
  {
    hide MemOk, Consistent, AllExtOk, Contents, Older, Sources, Live;
    EmptiedOne(mem, c);
  }

  lemma RotateDisk(disk: Disk, walSeq: nat, nextCid: Cid, spec: Img, win: Win, since: seq<WalRecord>)
    requires DiskInv(disk, walSeq, nextCid) && RecoverInv(disk, walSeq, spec, win, since)
    requires CreatesInv(disk, walSeq)
    ensures var disk' := disk.(wals := disk.wals[walSeq + 1 := []]);
            DiskInv(disk', walSeq + 1, nextCid) && RecoverInv(disk', walSeq + 1, spec, win, since)
                && CreatesInv(disk', walSeq + 1)
  {
    LogNewFile(disk.wals, CurrentMan(disk).walSeq + 1, walSeq);
  }

  lemma RotateLink(mem: Mem, segs: SegFiles, man: Manifest)
    requires Link(mem, segs, man)
    ensures Link(EmptiedCols(mem), segs, man)
  {
    forall c | c in mem.cols ensures LinkOne(EmptiedCols(mem).cols[c].segs, segs, man, c) {
      assert LinkOne(mem.cols[c].segs, segs, man, c);
    }
  }

  lemma RotateJob(mem: Mem, man: Manifest, job: Job)
    requires JobInv(mem, man, job)
    ensures JobInv(EmptiedCols(mem), man, job)
  {
  }

  lemma KeepRotate(m: M, m': M)
    requires Inv(m) && m.lock.Free? && m.pendSeq.None?
    requires m' == AfterRotate(m)
    ensures Inv(m')
  {
    hide MemOk, Link, WindowInv, RecoverInv, CreatesInv, MaintInv, Abs, EmptiedCols, Complete, Consistent;
    assert m.pendSeq == None;
    EmptiedAll(m.mem);
    EmptiedShape(m.mem);
    RotateWindow(m.mem, m.disk.wals, m.walSeq, m.spec);
    RotateDisk(m.disk, m.walSeq, m.mem.nextCid, m.spec, m.win, m.since);
    RotateLink(m.mem, m.disk.segs, m.man);
    RotateMaint(m, m');
  }

  lemma RotateMaint(m: M, m': M)
    requires MaintInv(m) && LockInv(m) && m.lock.Free? && m.pendSeq.None? && m' == AfterRotate(m)
    requires m.disk.current in m.disk.manifests && ManInv(m) && CurrentMan(m.disk).walSeq < m.walSeq
    ensures MaintInv(m') && LockInv(m') && ManInv(m')
  {
    if m.maint.CompactWriting? || m.maint.CompactWritten? {
      RotateJob(m.mem, m.man, m.maint.job);
    }
  }
}
