/**
 * The store as its callers see it: collections with their live records, the name directory and the
 * next collection id. `Step` is what one WAL record does to that picture, including the exact
 * order in which `apply_record` edits the directory.
 */
module Image {
  import opened Records

  datatype WalRecord =
    | Upsert(cid: Cid, id: Id, vector: seq<real>, metadata: Metadata)
    | Delete(cid: Cid, id: Id)
    | CreateCollection(cid: Cid, name: string, dim: nat, metric: Metric)
    | DropCollection(cid: Cid)
    | RenameCollection(cid: Cid, newName: string)
    | SwapCollectionNames(a: Cid, b: Cid)
    | UpdateMeta(cid: Cid, id: Id, metadata: Metadata)

  datatype ColImg = ColImg(name: string, dim: nat, metric: Metric, recs: map<Id, StoredRecord>)

  datatype Img = Img(cols: map<Cid, ColImg>, names: map<string, Cid>, next: Cid)

  const EMPTY_IMG := Img(map[], map[], 0)

  function Max(a: nat, b: nat): nat {
    if a >= b then a else b
  }

  /** One WAL record; `None` is the error `Corrupted`. */
  function Step(s: Img, r: WalRecord): Option<Img> {
    match r
    case CreateCollection(c, name, dim, metric) =>
      Some(Img(s.cols[c := ColImg(name, dim, metric, map[])], s.names[name := c], Max(s.next, c + 1)))
    case DropCollection(c) =>
      if c in s.cols then Some(s.(cols := s.cols - {c}, names := s.names - {s.cols[c].name})) else Some(s)
    case RenameCollection(c, n) =>
      if c !in s.cols then None else
        Some(s.(cols := s.cols[c := s.cols[c].(name := n)], names := (s.names - {s.cols[c].name})[n := c]))
    case SwapCollectionNames(a, b) =>
      if a !in s.cols || b !in s.cols then None else
        var na, nb := s.cols[a].name, s.cols[b].name;
        var cols := s.cols[a := s.cols[a].(name := nb)];
        Some(s.(cols := cols[b := cols[b].(name := na)], names := s.names[nb := a][na := b]))
    case UpdateMeta(c, id, meta) =>
      if c !in s.cols then None else Some(SetRecs(s, c, UpdateRecs(s.cols[c].recs, r)))
    case Upsert(c, id, vec, meta) =>
      if c !in s.cols then None else Some(SetRecs(s, c, UpdateRecs(s.cols[c].recs, r)))
    case Delete(c, id) =>
      if c !in s.cols then None else Some(SetRecs(s, c, UpdateRecs(s.cols[c].recs, r)))
  }

  /** The three record types that change a collection's records. */
  predicate IsData(r: WalRecord) {
    r.Upsert? || r.Delete? || r.UpdateMeta?
  }

  function SetRecs(s: Img, c: Cid, recs: map<Id, StoredRecord>): Img
    requires c in s.cols
  {
    s.(cols := s.cols[c := s.cols[c].(recs := recs)])
  }

  /** A data record's effect on the live records: put, remove, or replace the metadata of a live record only. */
  function UpdateRecs(recs: map<Id, StoredRecord>, r: WalRecord): map<Id, StoredRecord>
    requires IsData(r)
  {
    match r
    case Upsert(_, id, vec, meta) => recs[id := StoredRecord(vec, meta)]
    case Delete(_, id) => recs - {id}
    case UpdateMeta(_, id, meta) => if id in recs then recs[id := StoredRecord(recs[id].vector, meta)] else recs
  }

  function Replay(s: Img, log: seq<WalRecord>): Option<Img>
    decreases |log|
  {
    if log == [] then Some(s)
    else match Step(s, log[0])
      case None => None
      case Some(s') => Replay(s', log[1..])
  }

  lemma {:induction false} ReplayAppend(s: Img, a: seq<WalRecord>, b: seq<WalRecord>)
    decreases |a|
    ensures Replay(s, a + b) == match Replay(s, a) case None => None case Some(m) => Replay(m, b)
  {
    if a == [] {
      assert a + b == b;
    } else {
      assert (a + b)[1..] == a[1..] + b;
      match Step(s, a[0])
      case None =>
      case Some(s') => ReplayAppend(s', a[1..], b);
    }
  }

  // ---------------------------------------------------------------------
  // Well-formed images and the records the public API can log
  // ---------------------------------------------------------------------

  /** The directory is exactly the inverse of the collections' names; ids stay below `next`. */
  ghost predicate Consistent(s: Img) {
    && (forall c :: c in s.cols ==> c < s.next)
    && (forall c :: c in s.cols ==> s.cols[c].name in s.names && s.names[s.cols[c].name] == c)
    && (forall n :: n in s.names ==> s.names[n] in s.cols && s.cols[s.names[n]].name == n)
  }

  /**
   * String ids: exactly the ids of the assigned range carry one, and no two live records
   * carry the same one.
   */
  ghost predicate ExtOk(recs: map<Id, StoredRecord>) {
    && (forall id :: id in recs ==> (id >= EXT_ID_BASE <==> ExtOf(recs[id].metadata).Some?))
    && (forall i, j | i in recs && j in recs && ExtOf(recs[i].metadata).Some? ::
          ExtOf(recs[i].metadata) == ExtOf(recs[j].metadata) ==> i == j)
  }

  ghost predicate AllExtOk(s: Img) {
    forall c :: c in s.cols ==> ExtOk(s.cols[c].recs)
  }

  /** A record the public API logs in image `s` (fresh id for create, free target name for rename, ...). */
  ghost predicate Legal(s: Img, r: WalRecord) {
    match r
    case CreateCollection(c, name, _, _) => c == s.next && name !in s.names
    case DropCollection(c) => c in s.cols
    case RenameCollection(c, n) => c in s.cols && n !in s.names
    case SwapCollectionNames(a, b) => a in s.cols && b in s.cols && a != b
    case _ => r.cid in s.cols && ExtOk(UpdateRecs(s.cols[r.cid].recs, r))
  }

  ghost function Next(s: Img, r: WalRecord): Img
    requires Legal(s, r)
  {
    Step(s, r).value
  }

  /** Every record of the log was legal when it was logged. */
  ghost predicate GoodLog(s: Img, log: seq<WalRecord>)
    decreases |log|
  {
    log == [] || (Legal(s, log[0]) && GoodLog(Next(s, log[0]), log[1..]))
  }

  lemma LegalKeepsConsistent(s: Img, r: WalRecord)
    requires Consistent(s) && Legal(s, r)
    ensures Consistent(Next(s, r))
  {
  }

  lemma LegalKeepsExt(s: Img, r: WalRecord)
    requires AllExtOk(s) && Legal(s, r)
    ensures AllExtOk(Next(s, r))
  {
  }

  lemma {:induction false} GoodLogAppend(s: Img, a: seq<WalRecord>, b: seq<WalRecord>)
    requires GoodLog(s, a)
    ensures Replay(s, a).Some?
    decreases |a|
    ensures GoodLog(s, a + b) <==> GoodLog(Replay(s, a).value, b)
  {
    if a == [] {
      assert a + b == b;
    } else {
      assert (a + b)[1..] == a[1..] + b;
      GoodLogAppend(Next(s, a[0]), a[1..], b);
    }
  }

  lemma {:induction false} GoodLogKeeps(s: Img, log: seq<WalRecord>)
    requires GoodLog(s, log) && Consistent(s) && AllExtOk(s)
    decreases |log|
    ensures Replay(s, log).Some? && Consistent(Replay(s, log).value) && AllExtOk(Replay(s, log).value)
  {
    if log != [] {
      LegalKeepsConsistent(s, log[0]);
      LegalKeepsExt(s, log[0]);
      GoodLogKeeps(Next(s, log[0]), log[1..]);
    }
  }

  /** What a legal log creates is new. */
  lemma {:induction false} CreatedIsNew(base: Img, log: seq<WalRecord>, i: nat)
    requires GoodLog(base, log) && i < |log| && log[i].CreateCollection? && Consistent(base)
    ensures log[i].cid >= base.next
    decreases |log|
  {
    if i > 0 {
      LegalKeepsConsistent(base, log[0]);
      assert Next(base, log[0]).next >= base.next;
      CreatedIsNew(Next(base, log[0]), log[1..], i - 1);
    }
  }

  /**
   * A log that recovery can replay from `s`: no record is rejected, and string ids stay unique
   * throughout, so that the string-id dictionary rebuilt along the way is right.
   */
  ghost predicate Replayable(s: Img, log: seq<WalRecord>)
    decreases |log|
  {
    AllExtOk(s) && (log == [] || (Step(s, log[0]).Some? && Replayable(Step(s, log[0]).value, log[1..])))
  }

  lemma {:induction false} ReplayableAppend(s: Img, a: seq<WalRecord>, b: seq<WalRecord>)
    requires Replayable(s, a)
    ensures Replay(s, a).Some?
    decreases |a|
    ensures Replayable(s, a + b) <==> Replayable(Replay(s, a).value, b)
  {
    if a == [] {
      assert a + b == b;
    } else {
      assert (a + b)[1..] == a[1..] + b;
      ReplayableAppend(Step(s, a[0]).value, a[1..], b);
    }
  }

  lemma {:induction false} GoodLogReplayable(s: Img, log: seq<WalRecord>)
    requires GoodLog(s, log) && AllExtOk(s)
    ensures Replayable(s, log)
    decreases |log|
  {
    if log != [] {
      LegalKeepsExt(s, log[0]);
      GoodLogReplayable(Next(s, log[0]), log[1..]);
    }
  }
}
