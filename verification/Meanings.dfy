/**
 * What a log record on the wire means to the store: byte strings are text, bit patterns are numbers,
 * and ordered metadata entries are a map. How text and floats are read is left open.
 */
module Meanings {
  import opened Records
  import opened Bytes
  import opened Wire
  import Image

  /** Reading of UTF-8 strings and of 32-bit and 64-bit floats. */
  datatype Reading = Reading(text: seq<Byte> -> string, f32: nat -> real, f64: nat -> real)

  function ValueOf(rd: Reading, v: Value): MetaValue {
    match v
    case WStr(s) => Str(rd.text(s))
    case WInt(i) => Int(i)
    case WFloat(bits) => Float(rd.f64(bits))
    case WBool(b) => Bool(b)
  }

  function MetaOf(rd: Reading, m: Entries): Metadata {
    if m == [] then map[] else MetaOf(rd, m[..|m| - 1])[rd.text(m[|m| - 1].0) := ValueOf(rd, m[|m| - 1].1)]
  }

  function VectorOf(rd: Reading, words: seq<nat>): seq<real> {
    seq(|words|, i requires 0 <= i < |words| => rd.f32(words[i]))
  }

  function Meaning(rd: Reading, r: Record): Image.WalRecord {
    match r
    case Upsert(cid, id, vector, meta) => Image.WalRecord.Upsert(cid, id, VectorOf(rd, vector), MetaOf(rd, meta))
    case Delete(cid, id) => Image.WalRecord.Delete(cid, id)
    case CreateCollection(cid, name, dim, metric) => Image.WalRecord.CreateCollection(cid, rd.text(name), dim, metric)
    case DropCollection(cid) => Image.WalRecord.DropCollection(cid)
    case RenameCollection(cid, newName) => Image.WalRecord.RenameCollection(cid, rd.text(newName))
    case SwapCollectionNames(a, b) => Image.WalRecord.SwapCollectionNames(a, b)
    case UpdateMeta(cid, id, meta) => Image.WalRecord.UpdateMeta(cid, id, MetaOf(rd, meta))
  }

  /** A metadata map lists exactly the entries of a record whose keys read as different texts. */
  lemma {:induction false} MetaMeans(rd: Reading, m: Entries)
    requires forall i, j :: 0 <= i < j < |m| ==> rd.text(m[i].0) != rd.text(m[j].0)
    ensures forall i :: 0 <= i < |m| ==>
              rd.text(m[i].0) in MetaOf(rd, m) && MetaOf(rd, m)[rd.text(m[i].0)] == ValueOf(rd, m[i].1)
    ensures forall k :: k in MetaOf(rd, m) ==> exists i :: 0 <= i < |m| && rd.text(m[i].0) == k
  {
    if m != [] {
      var front, last := m[..|m| - 1], m[|m| - 1];
      MetaMeans(rd, front);
      forall i | 0 <= i < |m|
        ensures rd.text(m[i].0) in MetaOf(rd, m) && MetaOf(rd, m)[rd.text(m[i].0)] == ValueOf(rd, m[i].1)
      {
        if i < |front| {
          assert front[i] == m[i];
        }
      }
      forall k | k in MetaOf(rd, m) ensures exists i :: 0 <= i < |m| && rd.text(m[i].0) == k {
        if k == rd.text(last.0) {
          assert m[|m| - 1] == last;
        } else {
          assert k in MetaOf(rd, front);
          var i :| 0 <= i < |front| && rd.text(front[i].0) == k;
          assert front[i] == m[i];
        }
      }
    }
  }

  /** A record keeps its collections, ids, dimension, metric and numbers; only texts and metadata are read. */
  lemma MeaningKeeps(rd: Reading, r: Record)
    ensures var w := Meaning(rd, r);
            && (r.Upsert? ==> w.Upsert? && w.cid == r.cid && w.id == r.id && w.metadata == MetaOf(rd, r.meta))
            && (r.Upsert? ==> |w.vector| == |r.vector|)
            && (r.Upsert? ==> forall i :: 0 <= i < |r.vector| ==> w.vector[i] == rd.f32(r.vector[i]))
            && (r.Delete? ==> w.Delete? && w.cid == r.cid && w.id == r.id)
            && (r.CreateCollection? ==> w.CreateCollection? && w.cid == r.cid && w.name == rd.text(r.name))
            && (r.CreateCollection? ==> w.dim == r.dim && w.metric == r.metric)
            && (r.DropCollection? ==> w.DropCollection? && w.cid == r.cid)
            && (r.RenameCollection? ==> w.RenameCollection? && w.cid == r.cid && w.newName == rd.text(r.newName))
            && (r.SwapCollectionNames? ==> w.SwapCollectionNames? && w.a == r.a && w.b == r.b)
            && (r.UpdateMeta? ==> w.UpdateMeta? && w.cid == r.cid && w.id == r.id && w.metadata == MetaOf(rd, r.meta))
  {
  }

  function MeaningAll(rd: Reading, records: seq<Record>): (log: seq<Image.WalRecord>)
    ensures |log| == |records|
  {
    seq(|records|, i requires 0 <= i < |records| => Meaning(rd, records[i]))
  }

  /** Applying a list of records to an image; `None` is a rejected record. */
  function Fold(rd: Reading, s: Image.Img, records: seq<Record>): Option<Image.Img> {
    Image.Replay(s, MeaningAll(rd, records))
  }

  lemma MeaningAppend(rd: Reading, a: seq<Record>, b: seq<Record>)
    ensures MeaningAll(rd, a + b) == MeaningAll(rd, a) + MeaningAll(rd, b)
  {
    hide Meaning;
  }

  lemma FoldAppend(rd: Reading, s: Image.Img, a: seq<Record>, b: seq<Record>)
    ensures Fold(rd, s, a + b) == match Fold(rd, s, a) case None => None case Some(m) => Fold(rd, m, b)
  {
    hide MeaningAll;
    MeaningAppend(rd, a, b);
    Image.ReplayAppend(s, MeaningAll(rd, a), MeaningAll(rd, b));
  }

  lemma OneRecord(rd: Reading, s: Image.Img, r: Record)
    ensures Fold(rd, s, [r]) == Image.Step(s, Meaning(rd, r))
  {
    hide Image.Step, Meaning;
    var log := MeaningAll(rd, [r]);
    assert log == [Meaning(rd, r)] && log[1..] == [];
    assert Image.Step(s, log[0]).Some? ==> Image.Replay(Image.Step(s, log[0]).value, log[1..]) == Image.Step(s, log[0]);
  }

  /** Records accepted by the primary are accepted by the follower up to any point. */
  lemma FoldPrefix(rd: Reading, s: Image.Img, records: seq<Record>, k: nat)
    requires k <= |records| && Fold(rd, s, records).Some?
    ensures Fold(rd, s, records[..k]).Some?
  {
    hide Fold;
    FoldAppend(rd, s, records[..k], records[k..]);
    assert records[..k] + records[k..] == records;
  }

  // ---------------------------------------------------------------------
  // Up to the first rejected record
  // ---------------------------------------------------------------------

  /** How many records are accepted before one is rejected. */
  function Accepted(rd: Reading, s: Image.Img, records: seq<Record>): (n: nat)
    ensures n <= |records|
    decreases |records|
  {
    if records == [] then 0
    else match Image.Step(s, Meaning(rd, records[0]))
      case None => 0
      case Some(next) => 1 + Accepted(rd, next, records[1..])
  }

  /** The image that the accepted records lead to. */
  function Reach(rd: Reading, s: Image.Img, records: seq<Record>): Image.Img
    decreases |records|
  {
    if records == [] then s
    else match Image.Step(s, Meaning(rd, records[0]))
      case None => s
      case Some(next) => Reach(rd, next, records[1..])
  }

  lemma FoldNothing(rd: Reading, s: Image.Img, records: seq<Record>)
    requires |records| == 0
    ensures Fold(rd, s, records) == Some(s)
  {
  }

  lemma FoldCons(rd: Reading, s: Image.Img, records: seq<Record>)
    requires records != []
    ensures Fold(rd, s, records) ==
      match Image.Step(s, Meaning(rd, records[0]))
      case None => None
      case Some(next) => Fold(rd, next, records[1..])
  {
    hide Fold, Image.Step, Meaning;
    assert records == [records[0]] + records[1..];
    FoldAppend(rd, s, [records[0]], records[1..]);
    OneRecord(rd, s, records[0]);
  }

  /** The first rejected record is the next one, and the image in front of it is the fold of the others. */
  lemma {:induction false} AcceptedFacts(rd: Reading, s: Image.Img, records: seq<Record>)
    ensures var n := Accepted(rd, s, records);
            && Fold(rd, s, records[..n]) == Some(Reach(rd, s, records))
            && (n == |records| <==> Fold(rd, s, records).Some?)
            && (n < |records| ==> Image.Step(Reach(rd, s, records), Meaning(rd, records[n])).None?)
    decreases |records|
  {
    hide Fold, Image.Step, Meaning;
    var n := Accepted(rd, s, records);
    if records == [] {
      FoldNothing(rd, s, records[..0]);
      FoldNothing(rd, s, records);
    } else {
      FoldCons(rd, s, records);
      match Image.Step(s, Meaning(rd, records[0]))
      case None => FoldNothing(rd, s, records[..0]);
      case Some(next) =>
        AcceptedFacts(rd, next, records[1..]);
        FoldCons(rd, s, records[..n]);
        assert records[..n][1..] == records[1..][..n - 1];
    }
  }

  /** Everything accepted: the reached image is the fold. */
  lemma ReachIsFold(rd: Reading, s: Image.Img, records: seq<Record>)
    requires Fold(rd, s, records).Some?
    ensures Fold(rd, s, records) == Some(Reach(rd, s, records))
  {
    hide Fold;
    AcceptedFacts(rd, s, records);
    assert records[..|records|] == records;
  }
}
