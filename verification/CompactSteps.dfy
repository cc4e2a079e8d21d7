/** The steps of a compaction keep the invariant. */
module CompactSteps {
  import opened Records
  import opened Memtables
  import opened Layers
  import opened Segments
  import opened Image
  import opened Window
  import opened LogBehind
  import opened StoreState
  import opened Recovery
  import opened Machine
  import opened MachineInv
  import opened Maintenance
  import opened FlushSteps

  lemma StartJob(mem: Mem, man: Manifest, c: Cid, runLen: nat)
    requires MemOk(mem) && Consistent(Abs(mem)) && c in mem.cols && 2 <= runLen <= |mem.cols[c].segs|
    ensures JobInv(mem, man, Job(c, mem.cols[c].segs[..runLen], runLen < |mem.cols[c].segs|, man.nextSegId))
  {
    hide Sources, Table.Valid, CacheOk;
    assert CollOk(mem, c);
    assert c in Abs(mem).cols;
  }

  lemma KeepCompactStart(m: M, c: Cid, runLen: nat, m': M)
    requires Inv(m) && m.lock.Free? && m.maint.Idle? && c in m.mem.cols && 2 <= runLen <= |m.mem.cols[c].segs|
    requires m' == AfterCompactStart(m, c, runLen)
    ensures Inv(m')
  {
    hide RecoverInv, CreatesInv, Link, WindowInv, MemOk, Consistent, Abs, JobInv;
    StartJob(m.mem, m.man, c, runLen);
  }

  lemma JobSegId(mem: Mem, man: Manifest, job: Job)
    requires JobInv(mem, man, job)
    ensures job.segId == man.nextSegId && |job.run| >= 2
    ensures job.cid in mem.cols ==> |job.run| <= |mem.cols[job.cid].segs|
  {
  }

  lemma KeepCompactWrite(m: M, m': M)
    requires Inv(m) && m.maint.CompactWriting? && m' == AfterCompactWrite(m)
    ensures Inv(m')
  {
    hide MemInv, DiskInv, RecoverInv, CreatesInv, Link, WindowInv, Merge;
    var job := m.maint.job;
    JobSegId(m.mem, m.man, job);
    hide JobInv;
    CurrentExists(m.disk, m.walSeq, m.mem.nextCid);
    FreshSegKeeps(m, job.cid, job.segId, Written(job.segId, Merge(Tbls(job.run), job.older)));
  }

  lemma KeepCompactAbandon(m: M, m': M)
    requires Inv(m) && m.lock.Free? && m.maint.CompactWritten? && m' == m.(maint := Idle)
    ensures Inv(m')
  {
    hide MemInv, DiskInv, RecoverInv, CreatesInv, Link, WindowInv, JobInv, JobFile;
  }

  lemma KeepCompactStore(m: M, m': M)
    requires Inv(m) && m.lock.Free? && m.maint.CompactWritten?
    requires m.maint.job.cid in m.mem.cols && m.maint.job.cid in m.man.cols
        && |m.maint.job.run| <= |m.mem.cols[m.maint.job.cid].segs|
    requires m' == AfterCompactStore(m)
    ensures Inv(m')
  {
    hide MemInv, DiskInv, RecoverInv, CreatesInv, Link, WindowInv, JobInv, JobFile, Compacted;
    CurrentExists(m.disk, m.walSeq, m.mem.nextCid);
    var man := CompactManifest(m.man, m.mem, m.maint.job);
    assert man.gen == m.disk.current + 1;
    hide CompactManifest;
    StoreKeeps(m.disk, m.walSeq, m.mem.nextCid, m.spec, m.win, m.since, man);
  }

  /** Only a collection with segments is compacted, so nothing that replay creates gains a segment. */
  lemma CompactCreates(mem: Mem, segs: SegFiles, man: Manifest, job: Job, log: seq<WalRecord>)
    requires JobInv(mem, man, job) && Link(mem, segs, man) && job.cid in mem.cols && job.cid in man.cols
    requires CreatesEmpty(man, log)
    ensures CreatesEmpty(CompactManifest(man, mem, job), log)
  {
    assert LinkOne(mem.cols[job.cid].segs, segs, man, job.cid);
    assert |man.cols[job.cid].segIds| >= 2;
  }

  lemma CompactStands(img: Img, win: Win, next: Cid)
    requires StandsFor(img, win, next)
    ensures StandsFor(img.(next := next), win, next)
  {
    hide Checkpoint;
  }

  lemma CompactSwitchDisk(m: M, disk': Disk)
    requires Inv(m) && m.maint.CompactStored? && disk' == m.disk.(current := m.maint.man.gen)
    ensures DiskInv(disk', m.walSeq, m.mem.nextCid) && RecoverInv(disk', m.walSeq, m.spec, m.win, m.since)
        && CreatesInv(disk', m.walSeq)
  {
    hide Compacted, WindowInv, LockInv, JobInv, JobFile, Link, Complete, BaseMem, MemOk, Consistent, AllExtOk, Passed,
         StandsFor, Log, CreatesEmpty, ColOf;
    var man', job := m.maint.man, m.maint.job;
    assert man'.walSeq == m.man.walSeq && man'.gen == m.man.gen + 1 && man'.nextCid == m.mem.nextCid;
    hide CompactManifest;
    CompactedBase(m.mem, m.disk.segs, m.man, job);
    CompactStands(BaseImg(m.disk.segs, m.man), m.win, m.spec.next);
    CompactCreates(m.mem, m.disk.segs, m.man, job, Log(m.disk.wals, m.man.walSeq + 1, m.walSeq + 1));
  }

  lemma KeepCompactSwitch(m: M, m': M)
    requires Inv(m) && m.maint.CompactStored? && m' == AfterCompactSwitch(m)
    ensures Inv(m')
  {
    hide MemInv, DiskInv, RecoverInv, CreatesInv, Link, WindowInv, JobInv, JobFile, Compacted;
    CompactSwitchDisk(m, m'.disk);
    CurrentExists(m.disk, m.walSeq, m.mem.nextCid);
    CurrentExists(m'.disk, m.walSeq, m.mem.nextCid);
    JobSegId(m.mem, m.man, m.maint.job);
  }

  lemma InstallCompactLinkOne(mem: Mem, segs: SegFiles, man: Manifest, job: Job, c: Cid)
    requires JobInv(mem, man, job) && JobFile(segs, job) && Link(mem, segs, man) && job.cid in mem.cols
        && job.cid in man.cols
    requires c in mem.cols
    ensures LinkOne(InstallCompact(mem, job).cols[c].segs, segs, CompactManifest(man, mem, job), c)
  {
    hide JobFile, Compacted, Tbls;
    if c == job.cid {
      CompactedFiles(mem, segs, man, job);
      hide FilesMatch, Link;
      assert CompactManifest(man, mem, job).nextSegId == job.segId + 1;
    } else {
      assert LinkOne(mem.cols[c].segs, segs, man, c);
      LinkOneGrows(mem.cols[c].segs, segs, man, CompactManifest(man, mem, job), c);
    }
  }

  lemma LinkOneGrows(list: seq<Segment>, segs: SegFiles, man: Manifest, man': Manifest, c: Cid)
    requires LinkOne(list, segs, man, c) && man'.nextSegId >= man.nextSegId
    requires (c in man.cols <==> c in man'.cols) && (c in man.cols ==> man'.cols[c].segIds == man.cols[c].segIds)
    ensures LinkOne(list, segs, man', c)
  {
  }

  lemma InstallCompactLink(mem: Mem, segs: SegFiles, man: Manifest, job: Job)
    requires JobInv(mem, man, job) && JobFile(segs, job) && Link(mem, segs, man) && job.cid in mem.cols
        && job.cid in man.cols
    ensures Link(InstallCompact(mem, job), segs, CompactManifest(man, mem, job))
  {
    hide LinkOne, JobFile, Compacted;
    forall c | c in mem.cols
      ensures LinkOne(InstallCompact(mem, job).cols[c].segs, segs, CompactManifest(man, mem, job), c)
    {
      InstallCompactLinkOne(mem, segs, man, job, c);
    }
  }

  lemma InstallCompactWindow(mem: Mem, man: Manifest, job: Job, wals: WalFiles, walSeq: nat, pendSeq: Option<nat>,
      spec: Img, base: Img)
    requires JobInv(mem, man, job) && job.cid in mem.cols && WindowInv(mem, wals, walSeq, pendSeq, spec, base)
    ensures WindowInv(InstallCompact(mem, job), wals, walSeq, pendSeq, spec, base)
  {
    hide Log, GoodLog, Replay, Consistent, AllExtOk, Compacted, Older, Contents, Tbls;
    if pendSeq.Some? {
      forall c | c in mem.cols ensures WindowRows(InstallCompact(mem, job), base, c) {
        assert WindowRows(mem, base, c);
        InstallCompactOlder(mem, man, job, c);
      }
    }
  }

  lemma InstallCompactShape(mem: Mem, job: Job)
    requires job.cid in mem.cols && |job.run| <= |mem.cols[job.cid].segs|
    ensures var mem' := InstallCompact(mem, job);
            mem'.cols.Keys == mem.cols.Keys && mem'.pending == mem.pending && mem'.nextCid == mem.nextCid
  {
  }

  lemma KeepCompactInstall(m: M, m': M)
    requires Inv(m) && m.maint.CompactSwitched? && m.maint.job.cid in m.mem.cols
    requires |m.maint.job.run| <= |m.mem.cols[m.maint.job.cid].segs| && m' == AfterCompactInstall(m)
    ensures Inv(m')
  {
    hide MemOk, DiskInv, RecoverInv, CreatesInv, Link, WindowInv, JobInv, JobFile, CompactManifest, InstallCompact, Abs,
         Consistent, AllExtOk;
    var job := m.maint.job;
    InstallCompactShape(m.mem, job);
    InstallCompactInvisible(m.mem, m.man, job);
    InstallCompactLink(m.mem, m.disk.segs, m.man, job);
    InstallCompactWindow(m.mem, m.man, job, m.disk.wals, m.walSeq, m.pendSeq, m.spec, m.base);
    CurrentExists(m.disk, m.walSeq, m.mem.nextCid);
  }
}
