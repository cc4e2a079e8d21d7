/** `load_state`: the segment scan that rebuilds the caches, the collection table, and log replay. */
module Opening {
  import opened Records
  import opened Memtables
  import opened Layers
  import opened Segments
  import opened Image
  import opened StoreState
  import opened Recovery
  import opened Stores
  import opened Maintenance

  /** Live ids among the first `row` rows of segment `i`, and all rows of newer segments. */
  ghost function Scanned(segs: seq<Segment>, i: nat, row: nat): set<Id>
    requires i <= |segs| && (i < |segs| ==> row <= |segs[i].ids|) && (i == |segs| ==> row == 0)
  {
    set id | id in Contents(Tbls(segs)) && (!Silent(Tbls(segs)[..i], id) || (i < |segs| && id in segs[i].ids[..row]))
  }

  /** The accumulators after scanning the live ids `done`. */
  ghost predicate ScanState(live: map<Id, StoredRecord>, done: set<Id>, n: nat, ext: map<string, Id>, next: Id) {
    && done <= live.Keys && n == |done|
    && NextReached(live, done, next) && RowsEntered(live, done, ext, next) && EntriesRead(live, done, ext)
  }

  /** The next id is one above some row with a string id, or the start of the range. */
  ghost predicate NextReached(live: map<Id, StoredRecord>, done: set<Id>, next: Id) {
    next >= EXT_ID_BASE && (next == EXT_ID_BASE || (next - 1 in done && next - 1 in ExtRows(live)))
  }

  /** Every scanned row with a string id is below the next id and in the dictionary. */
  ghost predicate RowsEntered(live: map<Id, StoredRecord>, done: set<Id>, ext: map<string, Id>, next: Id) {
    forall id :: id in done && id in ExtRows(live) ==>
      id < next && ExtOf(live[id].metadata).value in ext && ext[ExtOf(live[id].metadata).value] == id
  }

  /** Every dictionary entry comes from a scanned row. */
  ghost predicate EntriesRead(live: map<Id, StoredRecord>, done: set<Id>, ext: map<string, Id>) {
    forall s :: s in ext ==> ext[s] in done && ext[s] in ExtRows(live) && ExtOf(live[ext[s]].metadata) == Some(s)
  }

  /** Counting one more live row; string ids are unique, so the dictionary entry is new. */
  lemma ScanRow(live: map<Id, StoredRecord>, done: set<Id>, n: nat, ext: map<string, Id>, next: Id, id: Id)
    requires ExtOk(live) && ScanState(live, done, n, ext, next) && id in live && id !in done
    ensures var named := id >= EXT_ID_BASE && ExtOf(live[id].metadata).Some?;
            ScanState(live, done + {id}, n + 1,
                      if named then ext[ExtOf(live[id].metadata).value := id] else ext,
                      if named then Max(next, id + 1) else next)
  {
    hide ExtRows, ExtOf, ExtOk, NextReached, RowsEntered, EntriesRead;
    NextGrows(live, done, next, id);
    RowsGrow(live, done, ext, next, id);
    EntriesGrow(live, done, ext, id);
  }

  lemma NextGrows(live: map<Id, StoredRecord>, done: set<Id>, next: Id, id: Id)
    requires ExtOk(live) && NextReached(live, done, next) && id in live
    ensures var named := id >= EXT_ID_BASE && ExtOf(live[id].metadata).Some?;
            NextReached(live, done + {id}, if named then Max(next, id + 1) else next)
  {
  }

  lemma RowsGrow(live: map<Id, StoredRecord>, done: set<Id>, ext: map<string, Id>, next: Id, id: Id)
    requires ExtOk(live) && RowsEntered(live, done, ext, next) && id in live && done <= live.Keys && id !in done
    ensures var named := id >= EXT_ID_BASE && ExtOf(live[id].metadata).Some?;
            RowsEntered(live, done + {id}, if named then ext[ExtOf(live[id].metadata).value := id] else ext,
                        if named then Max(next, id + 1) else next)
  {
  }

  lemma EntriesGrow(live: map<Id, StoredRecord>, done: set<Id>, ext: map<string, Id>, id: Id)
    requires ExtOk(live) && EntriesRead(live, done, ext) && id in live
    ensures var named := id >= EXT_ID_BASE && ExtOf(live[id].metadata).Some?;
            EntriesRead(live, done + {id}, if named then ext[ExtOf(live[id].metadata).value := id] else ext)
  {
  }

  lemma ScanDone(live: map<Id, StoredRecord>, n: nat, ext: map<string, Id>, next: Id)
    requires ScanState(live, live.Keys, n, ext, next)
    ensures n == |live| && ext == ScannedExt(live) && next == ScannedNext(live)
  {
    forall s ensures s in ext <==> s in ExtNames(live) {
      if s in ExtNames(live) {
        var id :| id in ExtRows(live) && ExtOf(live[id].metadata).value == s;
        assert id in live.Keys;
      }
    }
    forall s | s in ext ensures ext[s] == RowNamed(live, s) {
    }
    if next > EXT_ID_BASE {
      assert next - 1 in ExtRows(live);
    }
  }

  /** A row is counted exactly when it passes `is_live` at its segment's rank: then it is the live record. */
  lemma RowIsLive(segs: seq<Segment>, i: nat, row: nat)
    requires AllValid(segs) && i < |segs| && row < |segs[i].ids|
    ensures var id, live := segs[i].ids[row], Contents(Tbls(segs));
            Silent(Tbls(segs)[..i], id) ==> id in live && live[id] == segs[i].recs[row]
    ensures var id := segs[i].ids[row];
            Scanned(segs, i, row + 1) == if Silent(Tbls(segs)[..i], id) then Scanned(segs, i, row) + {id}
                else Scanned(segs, i, row)
    ensures Silent(Tbls(segs)[..i], segs[i].ids[row]) ==> segs[i].ids[row] !in Scanned(segs, i, row)
  {
    hide AllValid, Contents, Silent, Scanned;
    RowShown(segs, i, row);
    RowCounted(segs, i, row);
  }

  lemma RowShown(segs: seq<Segment>, i: nat, row: nat)
    requires AllValid(segs) && i < |segs| && row < |segs[i].ids|
    ensures var id, live := segs[i].ids[row], Contents(Tbls(segs));
            Silent(Tbls(segs)[..i], id) ==> id in live && live[id] == segs[i].recs[row]
  {
    hide Silent;
    var layers, id := Tbls(segs), segs[i].ids[row];
    assert segs[i].Valid();
    segs[i].TblRow(row);
    segs[i].TblFacts();
    if Silent(layers[..i], id) {
      LookupAppend(layers[..i], layers[i..], id);
      assert layers[..i] + layers[i..] == layers;
    }
  }

  lemma RowCounted(segs: seq<Segment>, i: nat, row: nat)
    requires AllValid(segs) && i < |segs| && row < |segs[i].ids|
    requires var id, live := segs[i].ids[row], Contents(Tbls(segs));
             Silent(Tbls(segs)[..i], id) ==> id in live && live[id] == segs[i].recs[row]
    ensures var id := segs[i].ids[row];
            Scanned(segs, i, row + 1) == if Silent(Tbls(segs)[..i], id) then Scanned(segs, i, row) + {id}
                else Scanned(segs, i, row)
    ensures Silent(Tbls(segs)[..i], segs[i].ids[row]) ==> segs[i].ids[row] !in Scanned(segs, i, row)
  {
    hide Silent, Contents, Tbls;
    assert segs[i].Valid();
    var id := segs[i].ids[row];
    assert segs[i].ids[..row + 1] == segs[i].ids[..row] + [id];
    assert id !in segs[i].ids[..row];
  }

  lemma MarkedNotLive(layers: seq<Table>, i: nat, id: Id)
    requires i < |layers| && Silent(layers[..i], id) && id in layers[i].deletes
    ensures id !in Contents(layers)
  {
    LookupAppend(layers[..i], layers[i..], id);
    assert layers[..i] + layers[i..] == layers;
  }

  /** After the last row of a segment the scan stands at the first row of the next one. */
  lemma SegmentScanned(segs: seq<Segment>, i: nat)
    requires AllValid(segs) && i < |segs|
    ensures Scanned(segs, i, |segs[i].ids|) == Scanned(segs, i + 1, 0)
  {
    var layers, seg := Tbls(segs), segs[i];
    seg.TblFacts();
    assert layers[..i + 1] == layers[..i] + [layers[i]];
    assert seg.ids[..|seg.ids|] == seg.ids;
    forall id | id in Contents(layers)
      ensures !Silent(layers[..i + 1], id) <==> !Silent(layers[..i], id) || id in seg.ids
    {
      LookupSnoc(layers[..i], layers[i], id);
      if Silent(layers[..i], id) && id in Elements(seg.tombstones) {
        MarkedNotLive(layers, i, id);
      }
      assert id in seg.ids <==> id in Elements(seg.ids);
    }
  }

  lemma AllScanned(segs: seq<Segment>)
    ensures Scanned(segs, |segs|, 0) == Contents(Tbls(segs)).Keys
  {
    var layers := Tbls(segs);
    assert layers[..|segs|] == layers;
    forall id | id in Contents(layers) ensures !Silent(layers, id) {
      if Silent(layers, id) {
        SilentNone(layers, id);
      }
    }
  }

  /** Is no newer segment's row or marker for this id in front of rank `i`. */
  method SegmentsSilent(segs: seq<Segment>, id: Id, i: nat) returns (live: bool)
    requires AllValid(segs) && i <= |segs|
    ensures live <==> Silent(Tbls(segs)[..i], id)
  {
    for k := 0 to i
      invariant Silent(Tbls(segs)[..k], id)
    {
      var decided, rec := Probe(segs[k], id);
      assert Tbls(segs)[..k + 1] == Tbls(segs)[..k] + [Tbls(segs)[k]];
      if decided {
        assert Tbls(segs)[..i][k].Mentions(id);
        return false;
      }
    }
    return true;
  }

  /** `scan_segments` */
  method ScanSegments(segs: seq<Segment>) returns (n: nat, ext: map<string, Id>, next: Id)
    requires AllValid(segs) && ExtOk(Contents(Tbls(segs)))
    ensures n == |Contents(Tbls(segs))|
    ensures ext == ScannedExt(Contents(Tbls(segs))) && next == ScannedNext(Contents(Tbls(segs)))
  {
    n, ext, next := 0, map[], EXT_ID_BASE;
    ghost var live := Contents(Tbls(segs));
    hide Contents, Lookup, Silent, ScanState, Scanned;
    ScanStart(segs);
    for i := 0 to |segs|
      invariant ScanState(live, Scanned(segs, i, 0), n, ext, next)
    {
      n, ext, next := ScanRows(segs, i, n, ext, next);
      SegmentScanned(segs, i);
    }
    AllScanned(segs);
    ScanDone(live, n, ext, next);
  }

  lemma ScanStart(segs: seq<Segment>)
    ensures ScanState(Contents(Tbls(segs)), Scanned(segs, 0, 0), 0, map[], EXT_ID_BASE)
  {
    assert Scanned(segs, 0, 0) == {};
  }

  /** The inner loop over the rows of one segment. */
  method ScanRows(segs: seq<Segment>, i: nat, n0: nat, ext0: map<string, Id>, next0: Id)
    returns (n: nat, ext: map<string, Id>, next: Id)
    requires AllValid(segs) && i < |segs| && ExtOk(Contents(Tbls(segs)))
    requires ScanState(Contents(Tbls(segs)), Scanned(segs, i, 0), n0, ext0, next0)
    ensures ScanState(Contents(Tbls(segs)), Scanned(segs, i, |segs[i].ids|), n, ext, next)
  {
    n, ext, next := n0, ext0, next0;
    ghost var live := Contents(Tbls(segs));
    hide Contents, Lookup, Silent, ScanState, Scanned, ExtOk;
    for row := 0 to |segs[i].ids|
      invariant ScanState(live, Scanned(segs, i, row), n, ext, next)
    {
      var id := segs[i].ids[row];
      RowIsLive(segs, i, row);
      var isLive := SegmentsSilent(segs, id, i);
      if isLive {
        ScanRow(live, Scanned(segs, i, row), n, ext, next, id);
        n := n + 1;
        var name := ExtOf(segs[i].recs[row].metadata);
        if id >= EXT_ID_BASE && name.Some? {
          ext := ext[name.value := id];
          next := if next >= id + 1 then next else id + 1;
        }
      }
    }
  }

  // ---------------------------------------------------------------------
  // Collections and names of the manifest
  // ---------------------------------------------------------------------

  /** The manifest's entries in file order: ascending ids. */
  ghost predicate EntriesOf(entries: seq<(Cid, CollEntry)>, cols: map<Cid, CollEntry>) {
    && (forall i, j :: 0 <= i < j < |entries| ==> entries[i].0 < entries[j].0)
    && (forall i :: 0 <= i < |entries| ==> entries[i].0 in cols && cols[entries[i].0] == entries[i].1)
    && (forall c :: c in cols ==> exists i :: 0 <= i < |entries| && entries[i].0 == c)
  }

  /** The directory built from the first entries: a later entry of the same name replaces an earlier one. */
  function Directory(entries: seq<(Cid, CollEntry)>): map<string, Cid> {
    if entries == [] then map[]
    else Directory(entries[..|entries| - 1])[entries[|entries| - 1].1.name := entries[|entries| - 1].0]
  }

  /** The last entry with a name gives the name's id. */
  lemma {:induction false} DirectoryAt(entries: seq<(Cid, CollEntry)>, n: string)
    requires forall i, j :: 0 <= i < j < |entries| ==> entries[i].0 < entries[j].0
    ensures n in Directory(entries) <==> exists i :: 0 <= i < |entries| && entries[i].1.name == n
    ensures n in Directory(entries) ==>
              && (exists i :: 0 <= i < |entries| && entries[i].1.name == n && entries[i].0 == Directory(entries)[n])
              && (forall i :: 0 <= i < |entries| && entries[i].1.name == n ==> entries[i].0 <= Directory(entries)[n])
  {
    if entries != [] {
      var front, last := entries[..|entries| - 1], entries[|entries| - 1];
      DirectoryAt(front, n);
      assert forall i :: 0 <= i < |front| ==> front[i] == entries[i];
      if last.1.name == n {
        assert entries[|entries| - 1].1.name == n;
      } else if n in Directory(front) {
        var i :| 0 <= i < |front| && front[i].1.name == n && front[i].0 == Directory(front)[n];
        assert entries[i].1.name == n && entries[i].0 == Directory(entries)[n];
      }
    }
  }

  lemma DirectoryIsNamesOf(entries: seq<(Cid, CollEntry)>, cols: map<Cid, CollEntry>)
    requires EntriesOf(entries, cols)
    ensures Directory(entries) == NamesOf(cols)
  {
    hide Directory, ColNamed, EntriesOf;
    forall n ensures n in Directory(entries) <==> n in UsedNames(cols) {
      DirectoryKeys(entries, cols, n);
    }
    forall n | n in UsedNames(cols) ensures Directory(entries)[n] == ColNamed(cols, n) {
      DirectoryValue(entries, cols, n);
    }
  }

  lemma DirectoryKeys(entries: seq<(Cid, CollEntry)>, cols: map<Cid, CollEntry>, n: string)
    requires EntriesOf(entries, cols)
    ensures n in Directory(entries) <==> n in UsedNames(cols)
  {
    DirectoryAt(entries, n);
    hide Directory;
    if n in UsedNames(cols) {
      var c :| c in cols && cols[c].name == n;
      var i :| 0 <= i < |entries| && entries[i].0 == c;
      assert entries[i].1.name == n;
    }
  }

  lemma DirectoryValue(entries: seq<(Cid, CollEntry)>, cols: map<Cid, CollEntry>, n: string)
    requires EntriesOf(entries, cols) && n in UsedNames(cols)
    ensures n in Directory(entries) && Directory(entries)[n] == ColNamed(cols, n)
  {
    DirectoryKeys(entries, cols, n);
    DirectoryAt(entries, n);
    GreatestNamed(cols, n);
    hide Directory, ColNamed;
    var c := ColNamed(cols, n);
    var i :| 0 <= i < |entries| && entries[i].0 == c;
    assert entries[i].1.name == n && c <= Directory(entries)[n];
    assert Directory(entries)[n] in ColsNamed(cols, n);
  }

  lemma GreatestNamed(cols: map<Cid, CollEntry>, n: string)
    requires n in UsedNames(cols)
    ensures forall c :: c in ColsNamed(cols, n) ==> c <= ColNamed(cols, n)
  {
  }

  method OpenSegments(segs: SegFiles, c: Cid, segIds: seq<nat>) returns (list: seq<Segment>)
    requires forall i :: 0 <= i < |segIds| ==> (c, segIds[i]) in segs
    ensures list == OpenSegs(segs, c, segIds)
  {
    list := [];
    for i := 0 to |segIds|
      invariant |list| == i && forall k :: 0 <= k < i ==> list[k] == segs[(c, segIds[i - 1 - k])]
    {
      list := [segs[(c, segIds[i])]] + list;
    }
  }

  /** The first entries are loaded. */
  ghost predicate LoadedSoFar(segs: SegFiles, man: Manifest, entries: seq<(Cid, CollEntry)>, i: nat,
      cols: map<Cid, Coll>)
    requires Complete(segs, man) && i <= |entries|
  {
    && (forall k :: 0 <= k < i ==> entries[k].0 in cols)
    && (forall c :: c in cols ==> c in BaseMem(segs, man).cols && cols[c] == BaseMem(segs, man).cols[c])
  }

  lemma LoadedOne(segs: SegFiles, man: Manifest, entries: seq<(Cid, CollEntry)>, i: nat, cols: map<Cid, Coll>,
      col: Coll)
    requires Complete(segs, man) && i < |entries| && LoadedSoFar(segs, man, entries, i, cols)
    requires entries[i].0 in BaseMem(segs, man).cols && col == BaseMem(segs, man).cols[entries[i].0]
    ensures LoadedSoFar(segs, man, entries, i + 1, cols[entries[i].0 := col])
  {
    hide BaseMem, Complete;
  }

  lemma LoadedAll(segs: SegFiles, man: Manifest, entries: seq<(Cid, CollEntry)>, cols: map<Cid, Coll>)
    requires Complete(segs, man) && EntriesOf(entries, man.cols) && LoadedSoFar(segs, man, entries, |entries|, cols)
    ensures cols == BaseMem(segs, man).cols
  {
    BaseShape(segs, man);
    hide BaseMem, Complete;
  }

  /** Steps 1 to 3 of `load_state`: one pass over the manifest's entries. */
  method LoadEntries(man: Manifest, entries: seq<(Cid, CollEntry)>, segs: SegFiles)
    returns (cols: map<Cid, Coll>, names: map<string, Cid>)
    requires Complete(segs, man) && EntriesOf(entries, man.cols) && AllExtOk(BaseImg(segs, man))
    ensures cols == BaseMem(segs, man).cols && names == BaseMem(segs, man).names
  {
    hide AllExtOk, Complete, Contents, NamesOf, OpenSegs, Abs, Live, AllValid, BaseMem, Tbls, ScannedExt, ScannedNext,
         ExtOk, LoadedSoFar;
    cols, names := map[], map[];
    NothingLoaded(segs, man, entries);
    for i := 0 to |entries|
      invariant names == Directory(entries[..i])
      invariant LoadedSoFar(segs, man, entries, i, cols)
    {
      var c, e := entries[i].0, entries[i].1;
      EntryFacts(segs, man, c);
      var list := OpenSegments(segs, c, e.segIds);
      names := names[e.name := c];
      assert entries[..i + 1][..i] == entries[..i];
      var n, ext, next := ScanSegments(list);
      var col := Coll(e.name, e.dim, e.metric, EMPTY_TABLE, list, n, ext, next);
      LoadedOne(segs, man, entries, i, cols, col);
      cols := cols[c := col];
    }
    assert entries[..|entries|] == entries;
    DirectoryIsNamesOf(entries, man.cols);
    LoadedAll(segs, man, entries, cols);
    BaseShape(segs, man);
  }

  lemma NothingLoaded(segs: SegFiles, man: Manifest, entries: seq<(Cid, CollEntry)>)
    requires Complete(segs, man)
    ensures LoadedSoFar(segs, man, entries, 0, map[])
  {
  }

  lemma BaseValid(segs: SegFiles, man: Manifest)
    requires Complete(segs, man) && AllExtOk(BaseImg(segs, man))
    ensures forall c :: c in BaseMem(segs, man).cols ==> AllValid(BaseMem(segs, man).cols[c].segs)
    ensures BaseMem(segs, man).nextCid == man.nextCid && BaseMem(segs, man).pending == map[]
  {
    BaseShape(segs, man);
    hide Complete, AllExtOk, AllValid;
    forall c | c in BaseMem(segs, man).cols ensures AllValid(BaseMem(segs, man).cols[c].segs) {
      EntryFacts(segs, man, c);
    }
  }

  /** The state before replay. */
  method LoadBase(store: Store, man: Manifest, entries: seq<(Cid, CollEntry)>, segs: SegFiles)
    requires Complete(segs, man) && EntriesOf(entries, man.cols) && AllExtOk(BaseImg(segs, man))
    modifies store
    ensures store.State() == BaseMem(segs, man) && store.Valid()
    ensures store.wal == [] && store.pendingSeq == None
  {
    hide Complete, AllExtOk, EntriesOf, BaseMem, AllValid;
    BaseValid(segs, man);
    var cols, names := LoadEntries(man, entries, segs);
    store.collections, store.names, store.pending, store.nextCid := cols, names, map[], man.nextCid;
    store.wal, store.pendingSeq := [], None;
  }

  lemma EntryFacts(segs: SegFiles, man: Manifest, c: Cid)
    requires Complete(segs, man) && c in man.cols && AllExtOk(BaseImg(segs, man))
    ensures forall i :: 0 <= i < |man.cols[c].segIds| ==> (c, man.cols[c].segIds[i]) in segs
    ensures AllValid(OpenSegs(segs, c, man.cols[c].segIds))
    ensures ExtOk(Contents(Tbls(OpenSegs(segs, c, man.cols[c].segIds))))
    ensures c in BaseMem(segs, man).cols && BaseMem(segs, man).cols[c]
        == BaseColl(man.cols[c], OpenSegs(segs, c, man.cols[c].segIds))
  {
    hide ExtOk, Contents, Tbls, Segment.Valid, ScannedExt, ScannedNext, NamesOf, AllExtOk;
    assert EntryComplete(segs, c, man.cols[c].segIds, man.nextSegId);
    BaseRecs(segs, man, c);
  }

  // ---------------------------------------------------------------------
  // WAL replay
  // ---------------------------------------------------------------------

  method ReplayFile(store: Store, records: seq<WalRecord>) returns (ok: bool)
    requires store.Valid()
    modifies store`collections, store`names, store`nextCid
    ensures store.Valid()
    ensures ok <==> ApplyAll(old(store.State()), records).Some?
    ensures ok ==> Some(store.State()) == ApplyAll(old(store.State()), records)
  {
    for i := 0 to |records|
      invariant store.Valid() && ApplyAll(old(store.State()), records[..i]) == Some(store.State())
    {
      ApplySnoc(old(store.State()), records[..i], records[i]);
      assert records[..i + 1] == records[..i] + [records[i]];
      ok := store.ApplyRecord(records[i]);
      if !ok {
        ApplyAllAppend(old(store.State()), records[..i + 1], records[i + 1..]);
        assert records[..i + 1] + records[i + 1..] == records;
        return false;
      }
    }
    assert records[..|records|] == records;
    return true;
  }

  /** What replay has covered after the first `k` WAL files. */
  function Covered(seqs: seq<nat>, k: nat, from: nat): nat
    requires k <= |seqs|
  {
    if k == 0 || seqs[k - 1] <= from then from else seqs[k - 1]
  }

  /**
   * Steps 1 to 4 of `load_state`: the collections of CURRENT's manifest with their caches, and
   * every WAL file newer than the manifest replayed in order. False is the rejection as corrupted.
   */
  method LoadState(store: Store, disk: Disk, entries: seq<(Cid, CollEntry)>, seqs: seq<nat>) returns (ok: bool,
      maxSeq: nat)
    requires disk.current in disk.manifests && Complete(disk.segs, disk.manifests[disk.current])
    requires var man := disk.manifests[disk.current];
             EntriesOf(entries, man.cols) && AllExtOk(BaseImg(disk.segs, man))
    requires Ascending(seqs) && forall q :: q in seqs <==> q in disk.wals
    modifies store
    ensures ok <==> Load(disk, maxSeq).Some?
    ensures ok ==> Some(store.State()) == Load(disk, maxSeq)
    ensures ok ==> forall q :: q in disk.wals ==> q <= maxSeq
  {
    hide Apply, BaseImg;
    hide BaseMem, Complete, AllExtOk, EntriesOf;
    var man := disk.manifests[disk.current];
    LoadBase(store, man, entries, disk.segs);
    maxSeq := man.walSeq;
    ghost var base := BaseMem(disk.segs, man);
    for k := 0 to |seqs|
      invariant store.Valid() && maxSeq == Covered(seqs, k, man.walSeq)
      invariant ApplyAll(base, Log(disk.wals, man.walSeq + 1, maxSeq + 1)) == Some(store.State())
    {
      var q := seqs[k];
      if q > man.walSeq {
        NextFile(disk.wals, seqs, k, man.walSeq);
        ApplyAllAppend(base, Log(disk.wals, man.walSeq + 1, maxSeq + 1), disk.wals[q]);
        ok := ReplayFile(store, disk.wals[q]);
        maxSeq := Max(maxSeq, q);
        if !ok {
          return;
        }
      }
    }
    ok := true;
  }

  lemma NextFile(wals: WalFiles, seqs: seq<nat>, k: nat, from: nat)
    requires Ascending(seqs) && k < |seqs| && (forall q :: q in seqs <==> q in wals) && seqs[k] > from
    ensures seqs[k] in wals && Covered(seqs, k, from) < seqs[k]
    ensures Log(wals, from + 1, seqs[k] + 1) == Log(wals, from + 1, Covered(seqs, k, from) + 1) + wals[seqs[k]]
  {
    hide Ascending, Covered;
    assert seqs[k] in seqs;
    NoneBetween(seqs, k, from);
    LogGap(wals, from + 1, Covered(seqs, k, from) + 1, seqs[k]);
  }

  lemma NoneBetween(seqs: seq<nat>, k: nat, from: nat)
    requires Ascending(seqs) && k < |seqs| && seqs[k] > from
    ensures from <= Covered(seqs, k, from) < seqs[k]
    ensures forall q :: Covered(seqs, k, from) < q < seqs[k] ==> q !in seqs
  {
    forall i | 0 <= i < |seqs| ensures seqs[i] <= Covered(seqs, k, from) || seqs[i] >= seqs[k] {
    }
  }
}
