/**
 * The loops of the maintenance thread: the choice of a compaction run, the work list of a flush, the installation of
 * its results.
 */
module Flushing {
  import opened Records
  import opened Memtables
  import opened Layers
  import opened Segments
  import opened Image
  import opened StoreState
  import opened Recovery
  import opened Machine
  import opened MachineInv
  import opened Maintenance
  import opened Stores

  function Total(lens: seq<nat>): nat {
    if lens == [] then 0 else Total(lens[..|lens| - 1]) + lens[|lens| - 1]
  }

  /** The next older segment joins the run: it is at most four times the run so far, or tiny. */
  predicate Joins(lens: seq<nat>, k: nat)
    requires k < |lens|
  {
    lens[k] <= Max(4 * Total(lens[..k]), 4)
  }

  /**
   * The run of a partial compaction, newest first: the longest prefix in which every segment joins
   * the ones before it. None when it is shorter than the threshold; a run never has fewer than two.
   */
  method PartialRun(lens: seq<nat>, threshold: nat) returns (run: Option<nat>)
    requires |lens| >= 2
    ensures run.Some? ==> 2 <= run.value <= |lens| && threshold <= run.value
    ensures run.Some?
         ==> (forall k :: 1 <= k < run.value ==> Joins(lens, k)) && (run.value < |lens| ==> !Joins(lens, run.value))
    ensures run.None? ==> |lens| < threshold || exists n :: 1 <= n < |lens| && n < Max(threshold, 2) && !Joins(lens, n)
  {
    var len := 1;
    var total := lens[0];
    assert lens[..1][..0] == [];
    while len < |lens|
      invariant 1 <= len <= |lens| && total == Total(lens[..len])
      invariant forall k :: 1 <= k < len ==> Joins(lens, k)
    {
      assert lens[..len + 1][..len] == lens[..len];
      if lens[len] <= Max(4 * total, 4) {
        total := total + lens[len];
        len := len + 1;
      } else {
        break;
      }
    }
    if len < Max(threshold, 2) {
      assert len < |lens| ==> !Joins(lens, len);
      return None;
    }
    return Some(len);
  }

  lemma ElementsAt(cids: seq<Cid>, keys: set<Cid>)
    requires Ascending(cids) && Elements(cids) == keys
    ensures cids == SortedIds(keys) && forall i :: 0 <= i < |cids| ==> cids[i] in keys
  {
    AscendingUnique(cids, SortedIds(keys));
    forall i | 0 <= i < |cids| ensures cids[i] in keys {
      assert cids[i] in Elements(cids);
    }
  }

  /**
   * Phase 1 of a flush: number the waiting memtables in id order. Collections dropped since
   * `rotate` are skipped; a drop takes them out of the waiting set as well, so none is.
   */
  method FlushWork(store: Store, cids: seq<Cid>, nextSegId: nat) returns (work: seq<Work>)
    requires Ascending(cids) && Elements(cids) == store.pending.Keys
    requires store.pending.Keys <= store.collections.Keys
    ensures cids == SortedIds(store.pending.Keys)
    ensures forall i :: 0 <= i < |cids| ==> cids[i] in store.pending
    ensures work == WorkList(cids, store.pending, nextSegId)
  {
    ElementsAt(cids, store.pending.Keys);
    hide SortedIds, Ascending, Elements, WorkList;
    work := NumberWork(cids, store.pending, store.collections.Keys, nextSegId);
  }

  method NumberWork(cids: seq<Cid>, waiting: map<Cid, Table>, known: set<Cid>, nextSegId: nat) returns (work: seq<Work>)
    requires waiting.Keys <= known && forall i :: 0 <= i < |cids| ==> cids[i] in waiting
    ensures work == WorkList(cids, waiting, nextSegId)
  {
    work := [];
    var next := nextSegId;
    for i := 0 to |cids|
      invariant next == nextSegId + i
      invariant work == WorkList(cids[..i], waiting, nextSegId)
    {
      assert cids[i] in waiting.Keys;
      if cids[i] in known {
        WorkListSnoc(cids, i, waiting, nextSegId);
        work := work + [Work(cids[i], waiting[cids[i]], next)];
        next := next + 1;
      }
    }
    assert cids[..|cids|] == cids;
  }

  lemma WorkListSnoc(cids: seq<Cid>, i: nat, waiting: map<Cid, Table>, nextSegId: nat)
    requires i < |cids| && forall k :: 0 <= k < |cids| ==> cids[k] in waiting
    ensures WorkList(cids[..i + 1], waiting, nextSegId) == WorkList(cids[..i], waiting, nextSegId)
        + [Work(cids[i], waiting[cids[i]], nextSegId + i)]
  {
  }

  /** The part of a work list for one collection, from the first `i` entries. */
  lemma WorkOfPrefix(work: seq<Work>, i: nat, c: Cid)
    requires i < |work| && forall a, b :: 0 <= a < b < |work| ==> work[a].cid != work[b].cid
    ensures WorkOf(work[..i + 1], c) == if work[i].cid == c then Some(work[i]) else WorkOf(work[..i], c)
  {
    var w, v := WorkOf(work[..i + 1], c), WorkOf(work[..i], c);
    if v.Some? {
      var k :| 0 <= k < i && work[..i][k] == v.value;
      assert work[..i + 1][k] == work[k];
      var k' :| 0 <= k' <= i && work[..i + 1][k'] == w.value;
      assert work[k'].cid == work[k].cid;
    } else {
      assert work[..i + 1][i] == work[i];
      var longer := work[..i + 1];
      forall k | 0 <= k < i ensures longer[k].cid != c {
        assert work[..i][k] == work[k];
      }
    }
  }

  /**
   * The end of phase 3 of a flush: put the segments opened for the work list in front of their
   * collections' lists and clear the waiting memtables.
   */
  method InstallSegments(store: Store, work: seq<Work>, files: seq<Segment>)
    requires WorkValid(work) && |files| == |work|
    requires forall i :: 0 <= i < |work| ==> files[i] == Written(work[i].segId, work[i].table)
    requires forall a, b :: 0 <= a < b < |work| ==> work[a].cid != work[b].cid
    modifies store`collections, store`pending, store`pendingSeq
    ensures store.State() == InstallFlush(old(store.State()), work) && store.pendingSeq == None
  {
    hide Written;
    for i := 0 to |work|
      invariant store.collections.Keys == old(store.collections).Keys
      invariant forall c :: c in store.collections ==>
                  store.collections[c] == FlushedColl(old(store.collections)[c], work[..i], c)
    {
      forall c | c in store.collections
        ensures FlushedColl(old(store.collections)[c], work[..i + 1], c)
                == if work[i].cid == c then store.collections[c].(segs := [files[i]] + store.collections[c].segs)
                    else store.collections[c]
      {
        FlushedOneMore(old(store.collections)[c], work, i, c);
      }
      if work[i].cid in store.collections {
        var col := store.collections[work[i].cid];
        store.collections := store.collections[work[i].cid := col.(segs := [files[i]] + col.segs)];
      }
    }
    assert work[..|work|] == work;
    store.pending, store.pendingSeq := map[], None;
    assert store.collections == InstallFlush(old(store.State()), work).cols;
  }

  ghost function FlushedColl(col: Coll, work: seq<Work>, c: Cid): Coll {
    if WorkValid(work) then col.(segs := Flushed(col.segs, work, c)) else col
  }

  lemma FlushedOneMore(col: Coll, work: seq<Work>, i: nat, c: Cid)
    requires WorkValid(work) && i < |work| && forall a, b :: 0 <= a < b < |work| ==> work[a].cid != work[b].cid
    ensures FlushedColl(col, work[..i + 1], c) ==
            var before := FlushedColl(col, work[..i], c);
            if work[i].cid == c then before.(segs := [Written(work[i].segId, work[i].table)] + before.segs) else before
  {
    WorkOfPrefix(work, i, c);
    if work[i].cid == c {
      forall k | 0 <= k < i ensures work[..i][k].cid != c {
      }
    }
  }

  /** The end of phase 3 of a compaction: the merged segment, if it has any content, replaces the run. */
  method InstallMerged(store: Store, job: Job, merged: Table, file: Segment, ghost man: Manifest)
    requires job.cid in store.collections && |job.run| <= |store.collections[job.cid].segs|
    requires merged == Merge(Tbls(job.run), job.older) && file == Written(job.segId, merged)
    modifies store`collections
    ensures store.State() == InstallCompact(old(store.State()), job)
    ensures old(MemOk(store.State()) && JobInv(store.State(), man, job)) ==>
              MemOk(store.State()) && Abs(store.State()) == old(Abs(store.State()))
  {
    hide Written, MemOk, JobInv, Abs, Merge, Tbls;
    ghost var before := store.State();
    var col := store.collections[job.cid];
    var list := [];
    if !merged.IsEmpty() {
      list := list + [file];
    }
    list := list + col.segs[|job.run|..];
    assert list == Compacted(col.segs, job);
    store.collections := store.collections[job.cid := col.(segs := list)];
    if MemOk(before) && JobInv(before, man, job) {
      InstallCompactInvisible(before, man, job);
    }
  }
}
