/**
 * What a flush and a compaction do to the data: the flushed checkpoint stands for the rows of
 * `rotate` under the names of phase 3, installing it changes no lookup, and neither does a
 * compaction, in memory or on disk.
 */
module Maintenance {
  import opened Records
  import opened Memtables
  import opened Layers
  import opened Segments
  import opened Image
  import opened Window
  import opened StoreState
  import opened Recovery
  import opened Machine
  import opened MachineInv

  lemma TblsAppend(a: seq<Segment>, b: seq<Segment>)
    ensures Tbls(a + b) == Tbls(a) + Tbls(b)
  {
  }

  /** The flushed segment list holds exactly the tables that were older than the active memtable. */
  lemma FlushedTables(mem: Mem, work: seq<Work>, nextSegId: nat, c: Cid)
    requires WorkInv(mem, work, nextSegId) && c in mem.cols
    ensures WorkValid(work)
    ensures Tbls(Flushed(mem.cols[c].segs, work, c)) == Older(mem, c)
  {
    assert WorkMatches(mem.pending, work, c);
    var w := WorkOf(work, c);
    if w.Some? {
      var i :| 0 <= i < |work| && work[i] == w.value;
      WrittenRoundTrip(w.value.segId, w.value.table);
      TblsAppend([Written(w.value.segId, w.value.table)], mem.cols[c].segs);
      assert Tbls([Written(w.value.segId, w.value.table)]) == [mem.pending[c]];
    } else {
      assert [] + mem.cols[c].segs == mem.cols[c].segs;
    }
  }

  lemma FlushedFiles(mem: Mem, segs: SegFiles, man: Manifest, work: seq<Work>, c: Cid)
    requires WorkInv(mem, work, man.nextSegId) && WorkFiles(segs, work, |work|) && Link(mem, segs, man) && c in mem.cols
    ensures WorkValid(work)
    ensures FilesMatch(segs, c, Flushed(mem.cols[c].segs, work, c), man.nextSegId + |work|)
  {
    assert LinkOne(mem.cols[c].segs, segs, man, c);
    var w := WorkOf(work, c);
    if w.Some? {
      var i :| 0 <= i < |work| && work[i] == w.value;
      assert segs[(work[i].cid, work[i].segId)] == Written(work[i].segId, work[i].table);
    }
  }

  lemma AllWorkValid(mem: Mem, work: seq<Work>, nextSegId: nat)
    requires WorkInv(mem, work, nextSegId)
    ensures WorkValid(work)
  {
  }

  lemma FlushedEntry(mem: Mem, segs: SegFiles, man: Manifest, work: seq<Work>, c: Cid)
    requires WorkInv(mem, work, man.nextSegId) && WorkFiles(segs, work, |work|) && Link(mem, segs, man) && c in mem.cols
    ensures WorkValid(work)
    ensures EntryComplete(segs, c, SegIds(Flushed(mem.cols[c].segs, work, c)), man.nextSegId + |work|)
    ensures OpenSegs(segs, c, SegIds(Flushed(mem.cols[c].segs, work, c))) == Flushed(mem.cols[c].segs, work, c)
  {
    hide WorkInv, WorkFiles, Link, Flushed, FilesMatch, WorkValid, SegIds;
    FlushedFiles(mem, segs, man, work, c);
    OpenRecorded(segs, c, Flushed(mem.cols[c].segs, work, c), man.nextSegId + |work|);
  }

  lemma IdsBelowNext(mem: Mem)
    requires Consistent(Abs(mem))
    ensures forall c :: c in mem.cols ==> c < mem.nextCid
  {
    assert Abs(mem).cols.Keys == mem.cols.Keys;
  }

  lemma FlushedComplete(mem: Mem, segs: SegFiles, man: Manifest, walSeq: nat, work: seq<Work>)
    requires WorkInv(mem, work, man.nextSegId) && WorkFiles(segs, work, |work|) && Link(mem, segs, man)
    requires Consistent(Abs(mem))
    ensures WorkValid(work) && Complete(segs, FlushManifest(man, mem, walSeq, work))
  {
    hide WorkInv, WorkFiles, Link, Flushed, WorkValid, SegIds, EntryComplete, OpenSegs, Abs, Consistent;
    AllWorkValid(mem, work, man.nextSegId);
    var man' := FlushManifest(man, mem, walSeq, work);
    IdsBelowNext(mem);
    forall c | c in mem.cols ensures EntryComplete(segs, c, man'.cols[c].segIds, man'.nextSegId) {
      FlushedEntry(mem, segs, man, work, c);
    }
  }

  /** Names written by phase 3 read back as the present directory. */
  lemma NamesReadBack(cols: map<Cid, CollEntry>, s: Img)
    requires Consistent(s) && cols.Keys == s.cols.Keys && forall c :: c in cols ==> cols[c].name == s.cols[c].name
    ensures NamesOf(cols) == s.names
  {
    forall n | n in s.names ensures n in NamesOf(cols) && NamesOf(cols)[n] == s.names[n] {
      assert cols[s.names[n]].name == n;
      assert n in UsedNames(cols);
    }
    forall n | n in NamesOf(cols) ensures n in s.names {
      assert s.cols[ColNamed(cols, n)].name == n;
    }
  }

  /** The rows of one collection of the flushed checkpoint are the rows of `rotate`. */
  lemma FlushedRows(mem: Mem, segs: SegFiles, man: Manifest, walSeq: nat, work: seq<Work>, base: Img, c: Cid)
    requires WorkInv(mem, work, man.nextSegId) && WorkFiles(segs, work, |work|) && Link(mem, segs, man)
    requires c in mem.cols && WindowRows(mem, base, c)
    requires WorkValid(work) && Complete(segs, FlushManifest(man, mem, walSeq, work))
    ensures ColOf(BaseMem(segs, FlushManifest(man, mem, walSeq, work)), c)
            == ColOf(mem, c).(recs := if c in base.cols then base.cols[c].recs else map[])
  {
    hide WorkInv, WorkFiles, Link, Flushed, SegIds, Complete, OpenSegs, WorkValid;
    var man' := FlushManifest(man, mem, walSeq, work);
    FlushedEntry(mem, segs, man, work, c);
    BaseLive(segs, man', c);
    FlushedTables(mem, work, man.nextSegId, c);
    if c !in base.cols {
      assert Older(mem, c) == [];
      assert forall id :: Lookup([], id) == None;
      assert Contents([]) == map[];
    }
  }

  ghost predicate RowsFrom(b: Mem, mem: Mem, base: Img, c: Cid)
    requires c in mem.cols
  {
    c in b.cols && ColOf(b, c) == ColOf(mem, c).(recs := if c in base.cols then base.cols[c].recs else map[])
  }

  lemma FlushedAllRows(mem: Mem, segs: SegFiles, man: Manifest, walSeq: nat, work: seq<Work>, base: Img)
    requires WorkInv(mem, work, man.nextSegId) && WorkFiles(segs, work, |work|) && Link(mem, segs, man)
    requires Consistent(Abs(mem))
    requires forall c :: c in mem.cols ==> WindowRows(mem, base, c)
    ensures WorkValid(work) && Complete(segs, FlushManifest(man, mem, walSeq, work))
    ensures forall c :: c in mem.cols ==> RowsFrom(BaseMem(segs, FlushManifest(man, mem, walSeq, work)), mem, base, c)
  {
    FlushedComplete(mem, segs, man, walSeq, work);
    forall c | c in mem.cols ensures RowsFrom(BaseMem(segs, FlushManifest(man, mem, walSeq, work)), mem, base, c) {
      FlushedRows(mem, segs, man, walSeq, work, base, c);
    }
  }

  /** The flushed checkpoint is the one the window theorem is about. */
  lemma FlushedBase(mem: Mem, segs: SegFiles, man: Manifest, walSeq: nat, work: seq<Work>, base: Img)
    requires WorkInv(mem, work, man.nextSegId) && WorkFiles(segs, work, |work|) && Link(mem, segs, man)
    requires Consistent(Abs(mem))
    requires forall c :: c in mem.cols ==> WindowRows(mem, base, c)
    ensures WorkValid(work) && Complete(segs, FlushManifest(man, mem, walSeq, work))
    ensures BaseImg(segs, FlushManifest(man, mem, walSeq, work)) == Checkpoint(base, Abs(mem))
  {
    FlushedAllRows(mem, segs, man, walSeq, work, base);
    FlushedDirectory(mem, man, walSeq, work);
    BaseShape(segs, FlushManifest(man, mem, walSeq, work));
    CheckpointImage(BaseMem(segs, FlushManifest(man, mem, walSeq, work)), mem, base);
  }

  lemma FlushedDirectory(mem: Mem, man: Manifest, walSeq: nat, work: seq<Work>)
    requires WorkValid(work) && Consistent(Abs(mem))
    ensures var man' := FlushManifest(man, mem, walSeq, work);
            NamesOf(man'.cols) == mem.names && man'.cols.Keys == mem.cols.Keys && man'.nextCid == mem.nextCid
  {
    NamesReadBack(FlushManifest(man, mem, walSeq, work).cols, Abs(mem));
  }

  lemma BaseShape(segs: SegFiles, man: Manifest)
    requires Complete(segs, man)
    ensures var b := BaseMem(segs, man);
            b.cols.Keys == man.cols.Keys && b.names == NamesOf(man.cols) && b.nextCid == man.nextCid
  {
  }

  lemma CheckpointImage(b: Mem, mem: Mem, base: Img)
    requires b.cols.Keys == mem.cols.Keys && b.names == mem.names && b.nextCid == mem.nextCid
    requires forall c :: c in mem.cols ==> RowsFrom(b, mem, base, c)
    ensures Abs(b) == Checkpoint(base, Abs(mem))
  {
    var s := Abs(mem);
    forall c | c in s.cols
      ensures Abs(b).cols[c] == s.cols[c].(recs := if c in base.cols then base.cols[c].recs else map[])
    {
      assert RowsFrom(b, mem, base, c);
    }
    CheckpointCols(Abs(b), s, base);
  }

  lemma CheckpointCols(t: Img, s: Img, base: Img)
    requires t.cols.Keys == s.cols.Keys && t.names == s.names && t.next == s.next
    requires forall c :: c in s.cols ==> t.cols[c] == s.cols[c].(recs := if c in base.cols then base.cols[c].recs
        else map[])
    ensures t == Checkpoint(base, s)
  {
    assert t.cols == Checkpoint(base, s).cols;
  }

  lemma InstallFlushSources(mem: Mem, work: seq<Work>, nextSegId: nat, c: Cid)
    requires WorkInv(mem, work, nextSegId) && c in mem.cols
    ensures WorkValid(work)
    ensures c in InstallFlush(mem, work).cols && Sources(InstallFlush(mem, work), c) == Sources(mem, c)
  {
    FlushedTables(mem, work, nextSegId, c);
    assert Older(InstallFlush(mem, work), c) == Tbls(Flushed(mem.cols[c].segs, work, c));
  }

  lemma InstallFlushOne(mem: Mem, work: seq<Work>, nextSegId: nat, c: Cid)
    requires WorkInv(mem, work, nextSegId) && c in mem.cols && CollOk(mem, c)
    ensures WorkValid(work)
    ensures c in InstallFlush(mem, work).cols && CollOk(InstallFlush(mem, work), c)
        && ColOf(InstallFlush(mem, work), c) == ColOf(mem, c)
  {
    hide ExtOf, Sources;
    InstallFlushSources(mem, work, nextSegId, c);
    var list := Flushed(mem.cols[c].segs, work, c);
    assert InstallFlush(mem, work).cols[c] == mem.cols[c].(segs := list);
    var k := |list| - |mem.cols[c].segs|;
    assert forall i :: k <= i < |list| ==> list[i] == mem.cols[c].segs[i - k];
    assert AllValid(list);
  }

  /** Installing a flush moves rows from the waiting memtable to a segment and changes nothing visible. */
  lemma InstallFlushInvisible(mem: Mem, work: seq<Work>, nextSegId: nat)
    requires MemOk(mem) && WorkInv(mem, work, nextSegId)
    ensures WorkValid(work)
    ensures MemOk(InstallFlush(mem, work)) && Abs(InstallFlush(mem, work)) == Abs(mem)
  {
    var mem' := InstallFlush(mem, work);
    forall c | c in mem.cols ensures CollOk(mem', c) && ColOf(mem', c) == ColOf(mem, c) {
      assert CollOk(mem, c);
      InstallFlushOne(mem, work, nextSegId, c);
    }
    SameAbs(mem', mem);
  }

  // ---------------------------------------------------------------------
  // Compaction
  // ---------------------------------------------------------------------

  /** A compaction changes no lookup, whatever newer tables stand in front of the segments. */
  lemma CompactedLookup(front: seq<Table>, list: seq<Segment>, job: Job, id: Id)
    requires |job.run| <= |list| && job.run == list[..|job.run|] && (job.older <==> |job.run| < |list|)
    ensures Lookup(front + Tbls(Compacted(list, job)), id) == Lookup(front + Tbls(list), id)
  {
    LookupAppend(front, Tbls(Compacted(list, job)), id);
    LookupAppend(front, Tbls(list), id);
    var older := list[|job.run|..];
    assert list == job.run + older;
    TblsAppend(job.run, older);
    var merged := Merge(Tbls(job.run), job.older);
    CompactedHead(list, job, id);
    if job.older {
      PartialMergePreserves(Tbls(job.run), Tbls(older), id);
    } else {
      FullMergePreserves(Tbls(job.run), id);
      assert Tbls(older) == [];
      assert [merged] + [] == [merged];
      assert Tbls(job.run) + [] == Tbls(job.run);
    }
  }

  /** An empty merge result may be left out altogether. */
  lemma CompactedHead(list: seq<Segment>, job: Job, id: Id)
    requires |job.run| <= |list|
    ensures Lookup(Tbls(Compacted(list, job)), id) ==
            Lookup([Merge(Tbls(job.run), job.older)] + Tbls(list[|job.run|..]), id)
  {
    var merged := Merge(Tbls(job.run), job.older);
    var older := list[|job.run|..];
    assert ([merged] + Tbls(older))[1..] == Tbls(older);
    if merged.IsEmpty() {
      assert Compacted(list, job) == older;
    } else {
      WrittenRoundTrip(job.segId, merged);
      TblsAppend([Written(job.segId, merged)], older);
      assert Tbls([Written(job.segId, merged)]) == [merged];
    }
  }

  lemma CompactedContents(front: seq<Table>, list: seq<Segment>, job: Job)
    requires |job.run| <= |list| && job.run == list[..|job.run|] && (job.older <==> |job.run| < |list|)
    ensures Contents(front + Tbls(Compacted(list, job))) == Contents(front + Tbls(list))
  {
    forall id ensures Lookup(front + Tbls(Compacted(list, job)), id) == Lookup(front + Tbls(list), id) {
      CompactedLookup(front, list, job, id);
    }
    SameLookupSameContents(front + Tbls(Compacted(list, job)), front + Tbls(list));
  }

  lemma FilesAppend(segs: SegFiles, c: Cid, a: seq<Segment>, b: seq<Segment>, nextSegId: nat)
    requires FilesMatch(segs, c, a, nextSegId) && FilesMatch(segs, c, b, nextSegId)
    ensures FilesMatch(segs, c, a + b, nextSegId) && AllValid(a + b)
  {
  }

  lemma FilesSuffix(segs: SegFiles, c: Cid, list: seq<Segment>, k: nat, nextSegId: nat, nextSegId': nat)
    requires FilesMatch(segs, c, list, nextSegId) && k <= |list| && nextSegId <= nextSegId'
    ensures FilesMatch(segs, c, list[k..], nextSegId')
  {
  }

  lemma CompactedFiles(mem: Mem, segs: SegFiles, man: Manifest, job: Job)
    requires JobInv(mem, man, job) && JobFile(segs, job) && Link(mem, segs, man) && job.cid in mem.cols
    ensures var list := Compacted(mem.cols[job.cid].segs, job);
            FilesMatch(segs, job.cid, list, job.segId + 1) && AllValid(list)
  {
    hide Contents, AllDeletes, Tbls, Lookup, Merge, AllValid;
    var list := mem.cols[job.cid].segs;
    assert LinkOne(list, segs, man, job.cid);
    hide Link;
    FilesSuffix(segs, job.cid, list, |job.run|, man.nextSegId, job.segId + 1);
    var merged := Merge(Tbls(job.run), job.older);
    var head := if merged.IsEmpty() then [] else [Written(job.segId, merged)];
    assert FilesMatch(segs, job.cid, head, job.segId + 1);
    hide FilesMatch, JobInv, JobFile;
    FilesAppend(segs, job.cid, head, list[|job.run|..], job.segId + 1);
  }

  lemma CompactedOpens(mem: Mem, segs: SegFiles, man: Manifest, job: Job, list: seq<Segment>)
    requires JobInv(mem, man, job) && JobFile(segs, job) && Link(mem, segs, man) && job.cid in mem.cols
    requires list == Compacted(mem.cols[job.cid].segs, job)
    ensures EntryComplete(segs, job.cid, SegIds(list), job.segId + 1) && OpenSegs(segs, job.cid, SegIds(list)) == list
  {
    hide JobFile, Link, Compacted, FilesMatch, Tbls;
    CompactedFiles(mem, segs, man, job);
    OpenRecorded(segs, job.cid, list, job.segId + 1);
  }

  lemma CompactedComplete(mem: Mem, segs: SegFiles, man: Manifest, job: Job)
    requires JobInv(mem, man, job) && JobFile(segs, job) && Link(mem, segs, man) && Complete(segs, man)
    requires job.cid in mem.cols && job.cid in man.cols
    ensures Complete(segs, CompactManifest(man, mem, job))
  {
    hide JobFile, LinkOne, Compacted, Tbls;
    var man' := CompactManifest(man, mem, job);
    CompactedOpens(mem, segs, man, job, Compacted(mem.cols[job.cid].segs, job));
    forall c | c in man'.cols ensures EntryComplete(segs, c, man'.cols[c].segIds, man'.nextSegId) {
      assert EntryComplete(segs, c, man.cols[c].segIds, man.nextSegId);
    }
  }

  lemma CompactedAll(mem: Mem, segs: SegFiles, man: Manifest, job: Job)
    requires JobInv(mem, man, job) && JobFile(segs, job) && Link(mem, segs, man) && Complete(segs, man)
    requires job.cid in mem.cols && job.cid in man.cols
    ensures Complete(segs, CompactManifest(man, mem, job))
    ensures forall c ::
        c in man.cols ==>
          ColOf(BaseMem(segs, CompactManifest(man, mem, job)), c) == ColOf(BaseMem(segs, man), c)
  {
    CompactedComplete(mem, segs, man, job);
    forall c | c in man.cols ensures ColOf(BaseMem(segs, CompactManifest(man, mem, job)), c)
        == ColOf(BaseMem(segs, man), c) {
      CompactedOne(mem, segs, man, job, c);
    }
  }

  /** A compaction's manifest stands for the same image as the manifest it replaces, with the present next id. */
  lemma CompactedBase(mem: Mem, segs: SegFiles, man: Manifest, job: Job)
    requires JobInv(mem, man, job) && JobFile(segs, job) && Link(mem, segs, man) && Complete(segs, man)
    requires job.cid in mem.cols && job.cid in man.cols
    ensures Complete(segs, CompactManifest(man, mem, job))
    ensures BaseImg(segs, CompactManifest(man, mem, job)) == BaseImg(segs, man).(next := mem.nextCid)
  {
    CompactedAll(mem, segs, man, job);
    CompactedDirectory(mem, man, job);
    BaseShape(segs, man);
    BaseShape(segs, CompactManifest(man, mem, job));
    SameImage(BaseMem(segs, CompactManifest(man, mem, job)), BaseImg(segs, man).(next := mem.nextCid));
  }

  lemma CompactedDirectory(mem: Mem, man: Manifest, job: Job)
    requires job.cid in mem.cols && job.cid in man.cols && |job.run| <= |mem.cols[job.cid].segs|
    ensures var man' := CompactManifest(man, mem, job);
            man'.cols.Keys == man.cols.Keys && man'.nextCid == mem.nextCid && NamesOf(man'.cols) == NamesOf(man.cols)
  {
    SameNames(man.cols, CompactManifest(man, mem, job).cols);
  }

  /** A larger next id in the checkpoint is harmless: replay ends in the larger of the two. */
  lemma {:induction false} ReplayNext(s: Img, n: Cid, log: seq<WalRecord>)
    requires n >= s.next && Replayable(s, log)
    ensures Replay(s, log).Some? && Replayable(s.(next := n), log)
    ensures var r := Replay(s, log).value;
            Replay(s.(next := n), log) == Some(r.(next := Max(r.next, n)))
    decreases |log|
  {
    if log != [] {
      var s' := Step(s, log[0]).value;
      var n' := if log[0].CreateCollection? then Max(n, log[0].cid + 1) else n;
      assert Step(s.(next := n), log[0]) == Some(s'.(next := n'));
      ReplayNext(s', n', log[1..]);
    } else {
      assert s.(next := n).cols == s.cols;
    }
  }

  lemma SameAbs(a: Mem, b: Mem)
    requires a.names == b.names && a.nextCid == b.nextCid && a.cols.Keys == b.cols.Keys
    requires forall c :: c in a.cols ==> ColOf(a, c) == ColOf(b, c)
    ensures Abs(a) == Abs(b)
  {
    SameImage(a, Abs(b));
  }

  lemma CompactedOne(mem: Mem, segs: SegFiles, man: Manifest, job: Job, c: Cid)
    requires JobInv(mem, man, job) && JobFile(segs, job) && Link(mem, segs, man) && Complete(segs, man)
    requires job.cid in mem.cols && job.cid in man.cols && Complete(segs, CompactManifest(man, mem, job))
        && c in man.cols
    ensures ColOf(BaseMem(segs, CompactManifest(man, mem, job)), c) == ColOf(BaseMem(segs, man), c)
  {
    BaseLive(segs, man, c);
    BaseLive(segs, CompactManifest(man, mem, job), c);
    if c == job.cid {
      CompactedOpen(mem, segs, man, job);
    }
  }

  lemma CompactedOpen(mem: Mem, segs: SegFiles, man: Manifest, job: Job)
    requires JobInv(mem, man, job) && JobFile(segs, job) && Link(mem, segs, man) && Complete(segs, man)
    requires job.cid in mem.cols && job.cid in man.cols && Complete(segs, CompactManifest(man, mem, job))
    ensures Contents(Tbls(OpenSegs(segs, job.cid, CompactManifest(man, mem, job).cols[job.cid].segIds)))
            == Contents(Tbls(OpenSegs(segs, job.cid, man.cols[job.cid].segIds)))
  {
    hide Contents, Merge, Tbls, AllDeletes, JobFile, Compacted, FilesMatch, Complete;
    var list := mem.cols[job.cid].segs;
    CompactedOpens(mem, segs, man, job, Compacted(list, job));
    assert LinkOne(list, segs, man, job.cid);
    OpenRecorded(segs, job.cid, list, man.nextSegId);
    CompactedContents([], list, job);
    assert [] + Tbls(list) == Tbls(list);
    assert [] + Tbls(Compacted(list, job)) == Tbls(Compacted(list, job));
  }

  lemma SameNames(a: map<Cid, CollEntry>, b: map<Cid, CollEntry>)
    requires a.Keys == b.Keys && forall c :: c in a ==> a[c].name == b[c].name
    ensures NamesOf(a) == NamesOf(b)
  {
    assert UsedNames(a) == UsedNames(b);
    forall n | n in UsedNames(a) ensures ColNamed(a, n) == ColNamed(b, n) {
      assert ColsNamed(a, n) == ColsNamed(b, n);
    }
  }

  lemma SourcesSplit(mem: Mem, c: Cid, waiting: seq<Table>)
    requires c in mem.cols && waiting == if c in mem.pending then [mem.pending[c]] else []
    ensures Sources(mem, c) == ([mem.cols[c].mem] + waiting) + Tbls(mem.cols[c].segs)
    ensures Older(mem, c) == waiting + Tbls(mem.cols[c].segs)
  {
  }

  /** The compacted collection shows the same records, and so do its tables older than the active memtable. */
  lemma InstallCompactContents(mem: Mem, man: Manifest, job: Job)
    requires JobInv(mem, man, job) && job.cid in mem.cols
    ensures Live(InstallCompact(mem, job), job.cid) == Live(mem, job.cid)
    ensures Contents(Older(InstallCompact(mem, job), job.cid)) == Contents(Older(mem, job.cid))
  {
    var c := job.cid;
    var waiting := if c in mem.pending then [mem.pending[c]] else [];
    SourcesSplit(mem, c, waiting);
    SourcesSplit(InstallCompact(mem, job), c, waiting);
    CompactedContents(waiting, mem.cols[c].segs, job);
    CompactedContents([mem.cols[c].mem] + waiting, mem.cols[c].segs, job);
  }

  lemma InstallCompactOlder(mem: Mem, man: Manifest, job: Job, c: Cid)
    requires JobInv(mem, man, job) && job.cid in mem.cols && c in mem.cols
    ensures Contents(Older(InstallCompact(mem, job), c)) == Contents(Older(mem, c))
  {
    if c == job.cid {
      InstallCompactContents(mem, man, job);
    }
  }

  lemma CompactedValid(list: seq<Segment>, job: Job)
    requires AllValid(list) && |job.run| <= |list|
    ensures AllValid(Compacted(list, job))
  {
    hide Merge, Tbls, Segment.Valid, Table.IsEmpty, Written;
  }

  lemma InstallCompactOne(mem: Mem, man: Manifest, job: Job, c: Cid)
    requires JobInv(mem, man, job) && job.cid in mem.cols
    requires c in mem.cols && CollOk(mem, c)
    ensures CollOk(InstallCompact(mem, job), c) && ColOf(InstallCompact(mem, job), c) == ColOf(mem, c)
  {
    hide Live, AllValid, CacheOk, Compacted;
    var mem' := InstallCompact(mem, job);
    if c == job.cid {
      InstallCompactContents(mem, man, job);
      CompactedValid(mem.cols[c].segs, job);
      SameCache(mem.cols[c], mem'.cols[c], Live(mem, c));
    } else {
      SourcesFrame(mem, mem', c);
    }
  }

  /** Installing a compaction changes nothing visible. */
  lemma InstallCompactInvisible(mem: Mem, man: Manifest, job: Job)
    requires MemOk(mem) && JobInv(mem, man, job) && job.cid in mem.cols
    ensures MemOk(InstallCompact(mem, job)) && Abs(InstallCompact(mem, job)) == Abs(mem)
  {
    hide CollOk, ColOf, Abs, AllValid;
    var mem' := InstallCompact(mem, job);
    forall c | c in mem.cols ensures CollOk(mem', c) && ColOf(mem', c) == ColOf(mem, c) {
      assert CollOk(mem, c);
      InstallCompactOne(mem, man, job, c);
    }
    SameAbs(mem', mem);
  }
}
