/** The steps of a flush keep the invariant, and so do the clean-up steps. */
module FlushSteps {
  import opened Records
  import opened Memtables
  import opened Segments
  import opened Image
  import opened Window
  import opened LogBehind
  import opened StoreState
  import opened Recovery
  import opened Machine
  import opened MachineInv
  import opened Maintenance
  import opened MachineSteps

  lemma KeepBegin(m: M, batch: seq<WalRecord>, m': M)
    requires Inv(m) && m.lock.Free? && Call(m.mem, batch) && m' == m.(lock := Writer(batch, 0))
    ensures Inv(m')
  {
    hide MemInv, DiskInv, RecoverInv, CreatesInv, Link, WindowInv, Call, WorkInv, JobInv, FlushManifest,
         CompactManifest;
  }

  lemma KeepAppendFrame(m: M, m': M)
    requires Inv(m) && m.lock.Writer? && m.lock.k < |m.lock.batch|
        && m' == m.(lock := Writer(m.lock.batch, m.lock.k + 1))
    ensures Inv(m')
  {
    hide MemInv, DiskInv, RecoverInv, CreatesInv, Link, WindowInv, Call, WorkInv, JobInv, FlushManifest,
         CompactManifest;
  }

  lemma KeepUnlock(m: M, m': M)
    requires Inv(m) && m.maint.Cleaning? && m' == m.(maint := Idle, lock := Free)
    ensures Inv(m')
  {
    hide MemInv, DiskInv, RecoverInv, CreatesInv, Link, WindowInv;
  }

  // ---------------------------------------------------------------------
  // Flush
  // ---------------------------------------------------------------------

  /** The work list covers exactly the collections waiting for the flush. */
  lemma WorkListMatches(pending: map<Cid, Table>, nextSegId: nat, work: seq<Work>, c: Cid)
    requires Elements(SortedIds(pending.Keys)) == pending.Keys
    requires forall i :: 0 <= i < |SortedIds(pending.Keys)| ==> SortedIds(pending.Keys)[i] in pending
    requires work == WorkList(SortedIds(pending.Keys), pending, nextSegId)
    ensures WorkMatches(pending, work, c)
  {
    var cids := SortedIds(pending.Keys);
    var w := WorkOf(work, c);
    if w.Some? {
      var i :| 0 <= i < |work| && work[i] == w.value;
      assert work[i].cid == cids[i];
    } else {
      forall i | 0 <= i < |cids| ensures cids[i] != c {
        assert work[i].cid == cids[i];
      }
      assert c !in Elements(cids);
    }
  }

  lemma SortedIdsIn(s: set<Id>)
    ensures Elements(SortedIds(s)) == s
    ensures forall i :: 0 <= i < |SortedIds(s)| ==> SortedIds(s)[i] in s
  {
    var r := SortedIds(s);
    forall i | 0 <= i < |r| ensures r[i] in s {
      assert r[i] in Elements(r);
    }
  }

  lemma StartWork(mem: Mem, nextSegId: nat)
    requires MemOk(mem) && Consistent(Abs(mem)) && mem.pending.Keys <= mem.cols.Keys
    ensures forall i :: 0 <= i < |SortedIds(mem.pending.Keys)| ==> SortedIds(mem.pending.Keys)[i] in mem.pending
    ensures WorkInv(mem, WorkList(SortedIds(mem.pending.Keys), mem.pending, nextSegId), nextSegId)
  {
    SortedIdsIn(mem.pending.Keys);
    var work := WorkList(SortedIds(mem.pending.Keys), mem.pending, nextSegId);
    forall i | 0 <= i < |work|
      ensures work[i].table.Valid() && work[i].cid < mem.nextCid && work[i].segId == nextSegId + i
    {
      assert work[i].cid in mem.pending;
      assert work[i].cid in Abs(mem).cols;
    }
    forall c | c in mem.cols ensures WorkMatches(mem.pending, work, c) {
      WorkListMatches(mem.pending, nextSegId, work, c);
    }
  }

  lemma KeepFlushStart(m: M, m': M)
    requires Inv(m) && m.lock.Free? && m.maint.Idle? && m.pendSeq.Some? && m' == AfterFlushStart(m)
    ensures Inv(m')
  {
    hide RecoverInv, CreatesInv, Link, WindowInv, MemOk, Consistent, Abs, WorkList, WorkInv;
    StartWork(m.mem, m.man.nextSegId);
  }

  /** Writing a segment file under a fresh id leaves everything that CURRENT and the lists refer to in place. */
  lemma FreshSegKeeps(m: M, c: Cid, segId: nat, seg: Segment)
    requires Inv(m) && m.man == CurrentMan(m.disk) && segId >= m.man.nextSegId
    ensures var disk' := m.disk.(segs := m.disk.segs[(c, segId) := seg]);
            && DiskInv(disk', m.walSeq, m.mem.nextCid) && RecoverInv(disk', m.walSeq, m.spec, m.win, m.since)
            && CreatesInv(disk', m.walSeq) && Link(m.mem, disk'.segs, m.man)
  {
    hide MemInv, WindowInv, MaintInv, LockInv, BaseMem, Abs, Passed, StandsFor, Log;
    FreshSegKeepsBase(m.disk.segs, m.man, c, segId, seg);
    FreshSegKeepsLink(m.mem, m.disk.segs, m.man, c, segId, seg);
  }

  lemma FreshSegKeepsLink(mem: Mem, segs: SegFiles, man: Manifest, c: Cid, segId: nat, seg: Segment)
    requires Link(mem, segs, man) && segId >= man.nextSegId
    ensures Link(mem, segs[(c, segId) := seg], man)
  {
    forall k | k in mem.cols ensures LinkOne(mem.cols[k].segs, segs[(c, segId) := seg], man, k) {
      assert LinkOne(mem.cols[k].segs, segs, man, k);
    }
  }

  lemma WriteOneMore(segs: SegFiles, mem: Mem, work: seq<Work>, nextSegId: nat, done: nat)
    requires WorkInv(mem, work, nextSegId) && WorkFiles(segs, work, done) && done < |work|
    ensures work[done].table.Valid()
    ensures WorkFiles(segs[(work[done].cid, work[done].segId) := Written(work[done].segId, work[done].table)], work,
        done + 1)
  {
    hide Written, WorkMatches, Table.Valid;
    assert forall i :: 0 <= i < done ==> work[i].segId != work[done].segId;
  }

  lemma KeepFlushWriteSeg(m: M, m': M)
    requires Inv(m) && m.maint.FlushWriting? && m.maint.done < |m.maint.work|
        && m.maint.work[m.maint.done].table.Valid()
    requires m' == AfterFlushWriteSeg(m)
    ensures Inv(m')
  {
    hide MemInv, DiskInv, RecoverInv, CreatesInv, Link, WindowInv, WorkFiles;
    var w := m.maint.work[m.maint.done];
    WorkSegId(m.mem, m.maint.work, m.man.nextSegId, m.maint.done);
    hide WorkInv;
    CurrentExists(m.disk, m.walSeq, m.mem.nextCid);
    FreshSegKeeps(m, w.cid, w.segId, Written(w.segId, w.table));
    WriteOneMore(m.disk.segs, m.mem, m.maint.work, m.man.nextSegId, m.maint.done);
  }

  lemma CurrentExists(disk: Disk, walSeq: nat, nextCid: Cid)
    requires DiskInv(disk, walSeq, nextCid)
    ensures disk.current in disk.manifests && CurrentMan(disk).gen == disk.current && CurrentMan(disk).walSeq < walSeq
    ensures Complete(disk.segs, CurrentMan(disk))
  {
    hide Complete;
  }

  lemma WorkSegId(mem: Mem, work: seq<Work>, nextSegId: nat, i: nat)
    requires WorkInv(mem, work, nextSegId) && i < |work|
    ensures work[i].segId == nextSegId + i && work[i].table.Valid()
  {
  }

  /** A manifest file under a generation other than CURRENT's changes nothing recovery sees. */
  lemma StoreKeeps(disk: Disk, walSeq: nat, nextCid: Cid, spec: Img, win: Win, since: seq<WalRecord>, man: Manifest)
    requires DiskInv(disk, walSeq, nextCid) && RecoverInv(disk, walSeq, spec, win, since) && CreatesInv(disk, walSeq)
    requires man.gen != disk.current
    ensures var disk' := disk.(manifests := disk.manifests[man.gen := man]);
            && DiskInv(disk', walSeq, nextCid) && RecoverInv(disk', walSeq, spec, win, since)
                 && CreatesInv(disk', walSeq)
  {
    hide Complete, BaseMem, Passed, StandsFor, CreatesEmpty, Log;
  }

  lemma KeepFlushStore(m: M, m': M)
    requires Inv(m) && m.lock.Free? && m.maint.FlushWriting? && m.maint.done == |m.maint.work|
        && WorkValid(m.maint.work)
    requires m' == AfterFlushStore(m)
    ensures Inv(m')
  {
    hide MemInv, DiskInv, RecoverInv, CreatesInv, Link, WindowInv, WorkFiles, WorkInv, WorkValid;
    CurrentExists(m.disk, m.walSeq, m.mem.nextCid);
    var man := FlushManifest(m.man, m.mem, m.maint.walSeq, m.maint.work);
    assert man.gen == m.disk.current + 1;
    hide FlushManifest;
    StoreKeeps(m.disk, m.walSeq, m.mem.nextCid, m.spec, m.win, m.since, man);
  }

  lemma SwitchCreates(mem: Mem, base: Img, tail: seq<WalRecord>, man: Manifest, walSeq: nat, work: seq<Work>)
    requires WorkValid(work) && (forall c :: c in mem.cols ==> WorkMatches(mem.pending, work, c))
    requires GoodLog(base, tail) && Consistent(base) && (forall c :: c in mem.cols ==> WindowRows(mem, base, c))
    ensures CreatesEmpty(FlushManifest(man, mem, walSeq, work), tail)
  {
    var man' := FlushManifest(man, mem, walSeq, work);
    forall i | 0 <= i < |tail| && tail[i].CreateCollection? && tail[i].cid in man'.cols
      ensures man'.cols[tail[i].cid].segIds == []
    {
      CreatedIsNew(base, tail, i);
      var c := tail[i].cid;
      assert c in mem.cols && WindowRows(mem, base, c) && WorkMatches(mem.pending, work, c);
      assert Flushed(mem.cols[c].segs, work, c) == [];
    }
  }

  lemma SwitchPassed(base: Img, tail: seq<WalRecord>, spec: Img, img: Img)
    requires Consistent(base) && AllExtOk(base) && GoodLog(base, tail) && Replay(base, tail) == Some(spec)
    requires img == Checkpoint(base, spec)
    ensures Passed(base, tail, spec, [], spec) && StandsFor(img, Win(base, tail, spec), spec.next)
  {
    hide Consistent, AllExtOk;
  }

  /** After CURRENT names the flushed checkpoint, the disk stands for it and the window behind it, whatever it held. */
  lemma SwitchDisk(m: M, disk': Disk)
    requires Inv(m) && m.maint.FlushStored? && m.pendSeq.Some?
    requires disk' == m.disk.(current := m.maint.man.gen)
    ensures DiskInv(disk', m.walSeq, m.mem.nextCid) && CreatesInv(disk', m.walSeq)
    ensures RecoverInv(disk', m.walSeq, m.spec, Win(m.base, Tail(m), m.spec), [])
  {
    hide MemOk, Link, Complete, Log, WorkInv, WorkFiles, BaseMem, Consistent, AllExtOk, GoodLog, Abs, Replay,
         Checkpoint, CreatesEmpty, WindowRows, WorkValid, Passed, StandsFor;
    var work, w := m.maint.work, m.maint.walSeq;
    var man' := m.maint.man;
    AllWorkValid(m.mem, work, m.man.nextSegId);
    assert man'.walSeq == w && man'.gen == m.man.gen + 1 && man'.nextCid == m.mem.nextCid;
    hide FlushManifest;
    FlushedBase(m.mem, m.disk.segs, m.man, w, work, m.base);
    SwitchPassed(m.base, Tail(m), m.spec, BaseImg(m.disk.segs, man'));
    WorkMatch(m.mem, work, m.man.nextSegId);
    SwitchCreates(m.mem, m.base, Tail(m), m.man, w, work);
  }

  lemma WorkMatch(mem: Mem, work: seq<Work>, nextSegId: nat)
    requires WorkInv(mem, work, nextSegId)
    ensures forall c :: c in mem.cols ==> WorkMatches(mem.pending, work, c)
  {
  }

  lemma KeepFlushSwitch(m: M, m': M)
    requires Inv(m) && m.maint.FlushStored? && m.pendSeq.Some? && m' == AfterFlushSwitch(m)
    ensures Inv(m')
  {
    hide MemInv, DiskInv, RecoverInv, CreatesInv, Link, WindowInv, WorkFiles, WorkInv, WorkValid, Flushed, Tail;
    SwitchDisk(m, m'.disk);
    CurrentExists(m.disk, m.walSeq, m.mem.nextCid);
    CurrentExists(m'.disk, m.walSeq, m.mem.nextCid);
  }

  lemma InstallFlushLink(mem: Mem, segs: SegFiles, man: Manifest, walSeq: nat, work: seq<Work>)
    requires WorkInv(mem, work, man.nextSegId) && WorkFiles(segs, work, |work|) && Link(mem, segs, man)
    requires Consistent(Abs(mem))
    ensures WorkValid(work)
    ensures Link(InstallFlush(mem, work), segs, FlushManifest(man, mem, walSeq, work))
  {
    AllWorkValid(mem, work, man.nextSegId);
    IdsBelowNext(mem);
    hide WorkInv, WorkFiles, LinkOne, WorkValid, Abs, Consistent, Flushed;
    var mem', man' := InstallFlush(mem, work), FlushManifest(man, mem, walSeq, work);
    forall c | c in mem.cols ensures LinkOne(mem'.cols[c].segs, segs, man', c) {
      InstallFlushLinkOne(mem, segs, man, walSeq, work, c);
    }
  }

  lemma InstallFlushLinkOne(mem: Mem, segs: SegFiles, man: Manifest, walSeq: nat, work: seq<Work>, c: Cid)
    requires WorkInv(mem, work, man.nextSegId) && WorkFiles(segs, work, |work|) && Link(mem, segs, man) && c in mem.cols
    ensures WorkValid(work)
    ensures LinkOne(InstallFlush(mem, work).cols[c].segs, segs, FlushManifest(man, mem, walSeq, work), c)
  {
    hide WorkInv, WorkFiles, Link, Flushed, FilesMatch, WorkValid, SegIds;
    AllWorkValid(mem, work, man.nextSegId);
    FlushedFiles(mem, segs, man, work, c);
  }

  lemma KeepFlushInstall(m: M, m': M)
    requires Inv(m) && m.maint.FlushSwitched? && WorkValid(m.maint.work) && m' == AfterFlushInstall(m)
    ensures Inv(m')
  {
    hide MemOk, DiskInv, RecoverInv, CreatesInv, Link, WindowInv, WorkFiles, WorkInv, WorkValid, Flushed, Abs,
         Consistent, AllExtOk, FlushManifest;
    InstallFlushInvisible(m.mem, m.maint.work, m.man.nextSegId);
    InstallFlushLink(m.mem, m.disk.segs, m.man, m.maint.walSeq, m.maint.work);
    NoWindow(m'.mem, m'.disk.wals, m'.walSeq, m'.spec, m'.base);
    CurrentExists(m.disk, m.walSeq, m.mem.nextCid);
  }

  // ---------------------------------------------------------------------
  // Clean-up
  // ---------------------------------------------------------------------

  lemma KeepDeleteWal(m: M, q: nat, m': M)
    requires Inv(m) && (m.maint.Idle? || m.maint.Cleaning?) && m.disk.current in m.disk.manifests
    requires q <= m.disk.manifests[m.disk.current].walSeq && m' == m.(disk := m.disk.(wals := m.disk.wals - {q}))
    ensures Inv(m')
  {
    hide MemInv, Link, Complete, Passed, StandsFor, CreatesEmpty, Log;
    LogWithout(m.disk.wals, q, CurrentMan(m.disk).walSeq + 1, m.walSeq + 1);
    if m.pendSeq.Some? {
      LogWithout(m.disk.wals, q, m.pendSeq.value + 1, m.walSeq + 1);
    }
  }

  lemma KeepDeleteManifest(m: M, g: nat, m': M)
    requires Inv(m) && (m.maint.Idle? || m.maint.Cleaning?) && g != m.disk.current
    requires m' == m.(disk := m.disk.(manifests := m.disk.manifests - {g}))
    ensures Inv(m')
  {
    hide MemInv, Link, Complete, Passed, StandsFor, CreatesEmpty, Log, WindowInv;
  }

  lemma DeleteSegBase(segs: SegFiles, man: Manifest, c: Cid, sid: nat)
    requires Complete(segs, man) && !(c in man.cols && sid in man.cols[c].segIds)
    ensures Complete(segs - {(c, sid)}, man) && BaseMem(segs - {(c, sid)}, man) == BaseMem(segs, man)
  {
    forall k, i | k in man.cols && 0 <= i < |man.cols[k].segIds|
      ensures (k, man.cols[k].segIds[i]) in segs && (k, man.cols[k].segIds[i]) != (c, sid)
    {
      assert EntryComplete(segs, k, man.cols[k].segIds, man.nextSegId);
    }
    BaseFrame(segs, segs - {(c, sid)}, man);
  }

  lemma DeleteSegLink(mem: Mem, segs: SegFiles, man: Manifest, c: Cid, sid: nat)
    requires Link(mem, segs, man) && !(c in man.cols && sid in man.cols[c].segIds)
    ensures Link(mem, segs - {(c, sid)}, man)
  {
    forall k | k in mem.cols ensures LinkOne(mem.cols[k].segs, segs - {(c, sid)}, man, k) {
      var list := mem.cols[k].segs;
      assert LinkOne(list, segs, man, k);
      forall i | 0 <= i < |list| ensures (k, list[i].segId) != (c, sid) {
        assert SegIds(list)[|list| - 1 - i] == list[i].segId;
      }
    }
  }

  lemma KeepDeleteSeg(m: M, c: Cid, sid: nat, m': M)
    requires Inv(m) && (m.maint.Idle? || m.maint.Cleaning?) && m.disk.current in m.disk.manifests
        && !Referenced(m.disk, c, sid)
    requires m' == m.(disk := m.disk.(segs := m.disk.segs - {(c, sid)}))
    ensures Inv(m')
  {
    hide MemInv, Link, Complete, Passed, StandsFor, CreatesEmpty, Log, WindowInv, BaseMem;
    DeleteSegBase(m.disk.segs, m.man, c, sid);
    DeleteSegLink(m.mem, m.disk.segs, m.man, c, sid);
  }
}
