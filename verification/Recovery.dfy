/**
 * What is on disk, and what `load_state` makes of it: the manifest named by CURRENT gives the
 * segments of every collection, and the WAL files newer than the manifest are replayed on top.
 */
module Recovery {
  import opened Records
  import opened Memtables
  import opened Layers
  import opened Segments
  import opened Image
  import opened StoreState

  /** A collection's entry in a manifest; `segIds` is in chronological order, oldest first. */
  datatype CollEntry = CollEntry(name: string, dim: nat, metric: Metric, segIds: seq<nat>)

  datatype Manifest = Manifest(gen: nat, nextCid: Cid, nextSegId: nat, walSeq: nat, cols: map<Cid, CollEntry>)

  type SegFiles = map<(Cid, nat), Segment>

  type WalFiles = map<nat, seq<WalRecord>>

  /** The durable state; `wals` holds complete frames only. */
  datatype Disk = Disk(wals: WalFiles, manifests: map<nat, Manifest>, current: nat, segs: SegFiles)

  /** The records of the WAL files numbered `lo` to `hi - 1`, in file order. */
  ghost function Log(wals: WalFiles, lo: nat, hi: nat): seq<WalRecord> {
    if hi <= lo then [] else
      Log(wals, lo, hi - 1) + (if hi - 1 in wals then wals[hi - 1] else [])
  }

  lemma {:induction false} LogFrame(wals: WalFiles, wals': WalFiles, lo: nat, hi: nat)
    requires forall q :: lo <= q < hi ==> (q in wals <==> q in wals') && (q in wals ==> wals[q] == wals'[q])
    ensures Log(wals', lo, hi) == Log(wals, lo, hi)
  {
    if lo < hi {
      LogFrame(wals, wals', lo, hi - 1);
    }
  }

  /** WAL numbers that do not exist contribute nothing. */
  lemma {:induction false} LogGap(wals: WalFiles, lo: nat, mid: nat, hi: nat)
    requires mid <= hi && forall q :: mid <= q < hi ==> q !in wals
    ensures Log(wals, lo, hi) == Log(wals, lo, if mid <= lo then lo else mid)
  {
    if mid < hi && lo < hi {
      LogGap(wals, lo, mid, hi - 1);
    }
  }

  /** Every segment a manifest refers to exists, is well formed, and has an id already handed out. */
  ghost predicate Complete(segs: SegFiles, man: Manifest) {
    forall c :: c in man.cols ==> c < man.nextCid && EntryComplete(segs, c, man.cols[c].segIds, man.nextSegId)
  }

  ghost predicate EntryComplete(segs: SegFiles, c: Cid, segIds: seq<nat>, nextSegId: nat) {
    forall i :: 0 <= i < |segIds| ==> segIds[i] < nextSegId && (c, segIds[i]) in segs && segs[(c, segIds[i])].Valid()
                                            && segs[(c, segIds[i])].segId == segIds[i]
  }

  /** Segment ids of a collection, oldest first, from the newest-first list in memory. */
  ghost function SegIds(segs: seq<Segment>): (r: seq<nat>)
    ensures |r| == |segs|
  {
    seq(|segs|, i requires 0 <= i < |segs| => segs[|segs| - 1 - i].segId)
  }

  /** Every segment of the in-memory list is the file of its id. */
  ghost predicate FilesMatch(segs: SegFiles, c: Cid, list: seq<Segment>, nextSegId: nat) {
    forall i :: 0 <= i < |list| ==>
      list[i].segId < nextSegId && list[i].Valid() && (c, list[i].segId) in segs && segs[(c, list[i].segId)] == list[i]
  }

  /** Opening the ids recorded for an in-memory list gives that list back. */
  lemma OpenRecorded(segs: SegFiles, c: Cid, list: seq<Segment>, nextSegId: nat)
    requires FilesMatch(segs, c, list, nextSegId)
    ensures EntryComplete(segs, c, SegIds(list), nextSegId)
    ensures OpenSegs(segs, c, SegIds(list)) == list
  {
    var ids := SegIds(list);
    forall i | 0 <= i < |ids|
      ensures ids[i] < nextSegId && (c, ids[i]) in segs && segs[(c, ids[i])] == list[|list| - 1 - i]
          && list[|list| - 1 - i].Valid()
    {
    }
  }

  /** The segments of an entry, opened and reversed to newest first. */
  ghost function OpenSegs(segs: SegFiles, c: Cid, segIds: seq<nat>): (r: seq<Segment>)
    requires forall i :: 0 <= i < |segIds| ==> (c, segIds[i]) in segs
    ensures |r| == |segIds|
  {
    seq(|segIds|, i requires 0 <= i < |segIds| => segs[(c, segIds[|segIds| - 1 - i])])
  }

  /** One past the largest element. */
  ghost function Bound(s: set<nat>): (b: nat)
    ensures forall x :: x in s ==> x < b
    ensures b > 0 ==> b - 1 in s
  {
    if s == {} then 0 else
      var x :| x in s;
      var b := Bound(s - {x});
      assert forall y :: y in s ==> y == x || y in s - {x};
      Max(b, x + 1)
  }

  /** The ids of live rows that carry a string id. */
  ghost function ExtRows(live: map<Id, StoredRecord>): set<Id> {
    set id | id in live && id >= EXT_ID_BASE && ExtOf(live[id].metadata).Some?
  }

  /** `scan_segments`: the dictionary and the next string-id number rebuilt from live rows. */
  ghost function ScannedExt(live: map<Id, StoredRecord>): map<string, Id> {
    map s | s in ExtNames(live) :: RowNamed(live, s)
  }

  ghost function ExtNames(live: map<Id, StoredRecord>): set<string> {
    set id | id in ExtRows(live) :: ExtOf(live[id].metadata).value
  }

  ghost function RowNamed(live: map<Id, StoredRecord>, s: string): (id: Id)
    requires s in ExtNames(live)
    ensures id in ExtRows(live) && ExtOf(live[id].metadata) == Some(s)
  {
    var id :| id in ExtRows(live) && ExtOf(live[id].metadata).value == s;
    id
  }

  ghost function ScannedNext(live: map<Id, StoredRecord>): Id {
    Max(EXT_ID_BASE, Bound(ExtRows(live)))
  }

  ghost function BaseColl(e: CollEntry, segs: seq<Segment>): Coll {
    var live := Contents(Tbls(segs));
    Coll(e.name, e.dim, e.metric, EMPTY_TABLE, segs, |live|, ScannedExt(live), ScannedNext(live))
  }

  /** The directory read from a manifest: entries are inserted in id order, so the last one wins. */
  ghost function NamesOf(cols: map<Cid, CollEntry>): map<string, Cid> {
    map n | n in UsedNames(cols) :: ColNamed(cols, n)
  }

  ghost function UsedNames(cols: map<Cid, CollEntry>): set<string> {
    set c | c in cols :: cols[c].name
  }

  ghost function ColNamed(cols: map<Cid, CollEntry>, n: string): (c: Cid)
    requires n in UsedNames(cols)
    ensures c in cols && cols[c].name == n
  {
    var k :| k in cols && cols[k].name == n;
    assert k in ColsNamed(cols, n);
    Bound(ColsNamed(cols, n)) - 1
  }

  ghost function ColsNamed(cols: map<Cid, CollEntry>, n: string): set<Cid> {
    set c | c in cols && cols[c].name == n
  }

  /** The state before WAL replay (steps 1 to 3 of `load_state`). */
  ghost function BaseMem(segs: SegFiles, man: Manifest): Mem
    requires Complete(segs, man)
  {
    Mem(map c | c in man.cols :: BaseColl(man.cols[c], OpenSegs(segs, c, man.cols[c].segIds)),
        NamesOf(man.cols), map[], man.nextCid)
  }

  lemma ContentsUnderEmpty(rest: seq<Table>)
    ensures Contents([EMPTY_TABLE] + rest) == Contents(rest)
  {
    forall id ensures Lookup([EMPTY_TABLE] + rest, id) == Lookup(rest, id) {
      assert ([EMPTY_TABLE] + rest)[1..] == rest;
    }
    SameLookupSameContents([EMPTY_TABLE] + rest, rest);
  }

  /** The live records of a freshly opened collection are those of its segments. */
  lemma BaseLive(segs: SegFiles, man: Manifest, c: Cid)
    requires Complete(segs, man) && c in man.cols
    ensures Live(BaseMem(segs, man), c) == Contents(Tbls(OpenSegs(segs, c, man.cols[c].segIds)))
  {
    var m := BaseMem(segs, man);
    assert Older(m, c) == Tbls(m.cols[c].segs);
    ContentsUnderEmpty(Older(m, c));
  }

  lemma ScannedCacheOk(e: CollEntry, segs: seq<Segment>)
    requires ExtOk(Contents(Tbls(segs)))
    ensures CacheOk(BaseColl(e, segs), Contents(Tbls(segs)))
  {
    var live := Contents(Tbls(segs));
    var col := BaseColl(e, segs);
    forall s | s in col.extIds ensures EXT_ID_BASE <= col.extIds[s] < col.nextExtId {
      assert col.extIds[s] in ExtRows(live);
    }
    forall id | id in live && ExtOf(live[id].metadata).Some?
      ensures ExtOf(live[id].metadata).value in col.extIds && col.extIds[ExtOf(live[id].metadata).value] == id
    {
      assert id in ExtRows(live);
    }
  }

  /** The caches rebuilt by the segment scan are right. */
  lemma BaseMemOk(segs: SegFiles, man: Manifest)
    requires Complete(segs, man) && AllExtOk(Abs(BaseMem(segs, man)))
    ensures MemOk(BaseMem(segs, man))
  {
    hide CollOk, Complete, Live, OpenSegs, ExtOk, Contents;
    var m := BaseMem(segs, man);
    forall c | c in m.cols ensures CollOk(m, c) {
      BaseRecs(segs, man, c);
      BaseCollOk(segs, man, c);
    }
  }

  lemma BaseRecs(segs: SegFiles, man: Manifest, c: Cid)
    requires Complete(segs, man) && c in man.cols && AllExtOk(Abs(BaseMem(segs, man)))
    ensures ExtOk(Contents(Tbls(OpenSegs(segs, c, man.cols[c].segIds))))
  {
    hide Complete, Live, OpenSegs, ExtOk, Contents, Tbls;
    BaseLive(segs, man, c);
    assert c in Abs(BaseMem(segs, man)).cols;
  }

  lemma BaseCollOk(segs: SegFiles, man: Manifest, c: Cid)
    requires Complete(segs, man) && c in man.cols && ExtOk(Contents(Tbls(OpenSegs(segs, c, man.cols[c].segIds))))
    ensures CollOk(BaseMem(segs, man), c)
  {
    hide Live, ExtOk, Contents, Tbls, CacheOk, Segment.Valid, ScannedExt, ScannedNext;
    BaseLive(segs, man, c);
    ScannedCacheOk(man.cols[c], OpenSegs(segs, c, man.cols[c].segIds));
    assert EntryComplete(segs, c, man.cols[c].segIds, man.nextSegId);
  }

  /** `load_state`: `None` when replay is rejected. `top` is the newest WAL number present. */
  ghost function Load(disk: Disk, top: nat): Option<Mem>
    requires disk.current in disk.manifests && Complete(disk.segs, disk.manifests[disk.current])
  {
    var man := disk.manifests[disk.current];
    ApplyAll(BaseMem(disk.segs, man), Log(disk.wals, man.walSeq + 1, top + 1))
  }

  /** The image that the checkpoint named by a manifest stands for. */
  ghost function BaseImg(segs: SegFiles, man: Manifest): Img
    requires Complete(segs, man)
  {
    Abs(BaseMem(segs, man))
  }

  /** What reopening a disk shows: an image, or the rejection of the log as corrupted. */
  ghost function Reopened(disk: Disk, top: nat): Option<Img>
    requires disk.current in disk.manifests && Complete(disk.segs, disk.manifests[disk.current])
  {
    match Load(disk, top)
    case None => None
    case Some(mem) => Some(Abs(mem))
  }

  /** Reopening shows the log replayed on the image of the checkpoint, or rejects it with it. */
  lemma ReopenedIs(disk: Disk, top: nat)
    requires disk.current in disk.manifests && Complete(disk.segs, disk.manifests[disk.current])
    ensures var man := disk.manifests[disk.current];
            Reopened(disk, top) == Replay(BaseImg(disk.segs, man), Log(disk.wals, man.walSeq + 1, top + 1))
  {
    hide Complete, Abs, Log, ApplyAll, Replay, OpenSegs;
    var man := disk.manifests[disk.current];
    BaseTables(disk.segs, man);
    ApplyAllShows(BaseMem(disk.segs, man), Log(disk.wals, man.walSeq + 1, top + 1));
  }

  lemma BaseTables(segs: SegFiles, man: Manifest)
    requires Complete(segs, man)
    ensures TablesValid(BaseMem(segs, man)) && BaseMem(segs, man).pending == map[]
  {
    hide OpenSegs, NamesOf;
  }

  /** Recovery succeeds with the image that replaying the log on the checkpoint's image gives. */
  lemma LoadRefines(disk: Disk, top: nat)
    requires disk.current in disk.manifests && Complete(disk.segs, disk.manifests[disk.current])
    requires var man := disk.manifests[disk.current];
             Replayable(BaseImg(disk.segs, man), Log(disk.wals, man.walSeq + 1, top + 1))
    ensures var man := disk.manifests[disk.current];
            && Load(disk, top).Some? && MemOk(Load(disk, top).value) && Load(disk, top).value.pending == map[]
            && Some(Abs(Load(disk, top).value)) == Replay(BaseImg(disk.segs, man),
                 Log(disk.wals, man.walSeq + 1, top + 1))
  {
    var man := disk.manifests[disk.current];
    BaseMemOk(disk.segs, man);
    ApplyAllRefines(BaseMem(disk.segs, man), Log(disk.wals, man.walSeq + 1, top + 1));
  }

  /** Opening segments depends only on the segments referred to. */
  lemma OpenSegsFrame(segs: SegFiles, segs': SegFiles, c: Cid, segIds: seq<nat>)
    requires forall i ::
        0 <= i < |segIds| ==>
          (c, segIds[i]) in segs && (c, segIds[i]) in segs' && segs'[(c, segIds[i])] == segs[(c, segIds[i])]
    ensures OpenSegs(segs', c, segIds) == OpenSegs(segs, c, segIds)
  {
  }

  /** A change of segment files that keeps everything a manifest refers to keeps what it stands for. */
  lemma BaseFrame(segs: SegFiles, segs': SegFiles, man: Manifest)
    requires Complete(segs, man)
    requires forall c, i :: c in man.cols && 0 <= i < |man.cols[c].segIds| ==>
               (c, man.cols[c].segIds[i]) in segs' && segs'[(c, man.cols[c].segIds[i])]
                   == segs[(c, man.cols[c].segIds[i])]
    ensures Complete(segs', man) && BaseMem(segs', man) == BaseMem(segs, man)
  {
    hide BaseColl;
    forall c | c in man.cols
      ensures EntryComplete(segs', c, man.cols[c].segIds, man.nextSegId)
      ensures OpenSegs(segs', c, man.cols[c].segIds) == OpenSegs(segs, c, man.cols[c].segIds)
    {
      assert EntryComplete(segs, c, man.cols[c].segIds, man.nextSegId);
      OpenSegsFrame(segs, segs', c, man.cols[c].segIds);
    }
    assert BaseMem(segs', man).cols == BaseMem(segs, man).cols;
  }

  /** Writing a segment under an id not handed out yet disturbs nothing a manifest refers to. */
  lemma FreshSegKeepsBase(segs: SegFiles, man: Manifest, c: Cid, segId: nat, seg: Segment)
    requires Complete(segs, man) && segId >= man.nextSegId
    ensures Complete(segs[(c, segId) := seg], man)
    ensures BaseMem(segs[(c, segId) := seg], man) == BaseMem(segs, man)
  {
    forall k, i | k in man.cols && 0 <= i < |man.cols[k].segIds|
      ensures (k, man.cols[k].segIds[i]) in segs && (k, man.cols[k].segIds[i]) != (c, segId)
    {
      assert EntryComplete(segs, k, man.cols[k].segIds, man.nextSegId);
    }
    BaseFrame(segs, segs[(c, segId) := seg], man);
  }
}
