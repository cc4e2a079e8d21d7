/**
 * What the decoders accept: the encodings and nothing else. The metadata of a record may come in any order and with
 * repeated keys, the last of which counts.
 */
module Decoding {
  import opened Records
  import opened Bytes
  import opened Wire
  import ManifestFormat

  // ---------------------------------------------------------------------
  // What was read stands in the buffer
  // ---------------------------------------------------------------------

  lemma AtJoin(buf: seq<Byte>, pos: nat, a: seq<Byte>, b: seq<Byte>)
    requires At(buf, pos, a) && At(buf, pos + |a|, b)
    ensures At(buf, pos, a + b)
  {
    assert buf[pos..pos + |a| + |b|] == buf[pos..pos + |a|] + buf[pos + |a|..pos + |a| + |b|];
  }

  lemma IntIs(buf: seq<Byte>, pos: nat, n: nat)
    requires ReadInt(buf, pos, n).Got?
    ensures var r := ReadInt(buf, pos, n); r.value < Pow256(n) && At(buf, pos, Le(r.value, n)) && r.pos == pos + n
  {
    LeOfBytes(buf[pos..pos + n]);
  }

  lemma Int4Is(buf: seq<Byte>, pos: nat)
    requires ReadInt(buf, pos, 4).Got?
    ensures var r := ReadInt(buf, pos, 4); r.value < U32_SIZE && At(buf, pos, U32(r.value)) && r.pos == pos + 4
  {
    IntIs(buf, pos, 4);
    Widths();
  }

  lemma Int8Is(buf: seq<Byte>, pos: nat)
    requires ReadInt(buf, pos, 8).Got?
    ensures var r := ReadInt(buf, pos, 8); r.value < U64_SIZE && At(buf, pos, U64(r.value)) && r.pos == pos + 8
  {
    IntIs(buf, pos, 8);
    Widths();
  }

  lemma ByteIs(buf: seq<Byte>, pos: nat)
    requires ReadInt(buf, pos, 1).Got?
    ensures var r := ReadInt(buf, pos, 1); r.value < 256 && At(buf, pos, [r.value]) && r.pos == pos + 1
  {
    IntIs(buf, pos, 1);
    var n := ReadInt(buf, pos, 1).value;
    Widths();
    assert Le(n, 1) == [n % 256] + Le(n / 256, 0);
  }

  lemma StringIs(buf: seq<Byte>, pos: nat, utf8: Utf8)
    requires ReadString(buf, pos, utf8).Got?
    ensures var r := ReadString(buf, pos, utf8);
            StringOk(r.value, utf8) && At(buf, pos, PutString(r.value)) && r.pos == pos + |PutString(r.value)|
  {
    Int4Is(buf, pos);
    var r := ReadString(buf, pos, utf8);
    AtJoin(buf, pos, U32(|r.value|), r.value);
  }

  lemma BitsBack(n: nat)
    requires n < U64_SIZE
    ensures Bits64(SignedOf(n)) == n && I64_MIN <= SignedOf(n) <= I64_MAX
  {
  }

  lemma ValueIs(buf: seq<Byte>, pos: nat, utf8: Utf8)
    requires ReadValue(buf, pos, utf8).Got?
    ensures var r := ReadValue(buf, pos, utf8);
            ValueOk(r.value, utf8) && At(buf, pos, PutValue(r.value)) && r.pos == pos + |PutValue(r.value)|
  {
    hide ReadInt, ReadString, U64, PutString, StringOk, At;
    ByteIs(buf, pos);
    var tag, p := ReadInt(buf, pos, 1).value, ReadInt(buf, pos, 1).pos;
    if tag == 0 {
      StringIs(buf, p, utf8);
      AtJoin(buf, pos, [0], PutString(ReadString(buf, p, utf8).value));
    } else if tag == 1 {
      Int8Is(buf, p);
      var n := ReadInt(buf, p, 8).value;
      BitsBack(n);
      AtJoin(buf, pos, [1], U64(n));
    } else if tag == 2 {
      Int8Is(buf, p);
      AtJoin(buf, pos, [2], U64(ReadInt(buf, p, 8).value));
    } else {
      ByteIs(buf, p);
      AtJoin(buf, pos, [3], [ReadInt(buf, p, 1).value]);
    }
  }

  /** Entries put into a map one after another. */
  function InsertAll(acc: Entries, raw: Entries): Entries
    decreases |raw|
  {
    if raw == [] then acc else InsertAll(Insert(acc, raw[0].0, raw[0].1), raw[1..])
  }

  ghost predicate EntriesOk(raw: Entries, utf8: Utf8) {
    forall i :: 0 <= i < |raw| ==> StringOk(raw[i].0, utf8) && ValueOk(raw[i].1, utf8)
  }

  lemma {:induction false} EntriesAre(buf: seq<Byte>, pos: nat, count: nat, acc: Entries, utf8: Utf8)
    returns (raw: Entries)
    requires pos <= |buf| && ReadEntries(buf, pos, count, acc, utf8).Got?
    ensures |raw| == count && EntriesOk(raw, utf8) && At(buf, pos, PutEntries(raw))
    ensures ReadEntries(buf, pos, count, acc, utf8) == Got(InsertAll(acc, raw), pos + |PutEntries(raw)|)
    decreases count
  {
    hide ReadString, ReadValue, PutString, PutValue, StringOk, ValueOk, At, Insert;
    if count == 0 {
      raw := [];
      NothingAt(buf, pos);
    } else {
      StringIs(buf, pos, utf8);
      var key, p := ReadString(buf, pos, utf8).value, ReadString(buf, pos, utf8).pos;
      ValueIs(buf, p, utf8);
      var value, q := ReadValue(buf, p, utf8).value, ReadValue(buf, p, utf8).pos;
      var rest := EntriesAre(buf, q, count - 1, Insert(acc, key, value), utf8);
      raw := [(key, value)] + rest;
      assert raw[1..] == rest;
      AtJoin(buf, pos, PutString(key), PutValue(value));
      AtJoin(buf, pos, PutString(key) + PutValue(value), PutEntries(rest));
    }
  }

  lemma NothingAt(buf: seq<Byte>, pos: nat)
    requires pos <= |buf|
    ensures At(buf, pos, [])
  {
  }

  lemma MetadataIs(buf: seq<Byte>, pos: nat, utf8: Utf8) returns (raw: Entries)
    requires ReadMetadata(buf, pos, utf8).Got?
    ensures |raw| < U32_SIZE && EntriesOk(raw, utf8) && At(buf, pos, PutMetadata(raw))
    ensures ReadMetadata(buf, pos, utf8) == Got(InsertAll([], raw), pos + |PutMetadata(raw)|)
  {
    hide ReadInt, ReadEntries, PutEntries, At, U32, EntriesOk, InsertAll;
    Int4Is(buf, pos);
    var count, p := ReadInt(buf, pos, 4).value, ReadInt(buf, pos, 4).pos;
    raw := EntriesAre(buf, p, count, [], utf8);
    AtJoin(buf, pos, U32(count), PutEntries(raw));
  }

  lemma {:induction false} WordsAre(buf: seq<Byte>, pos: nat, len: nat)
    requires GetWords(buf, pos, len).Some? && pos <= |buf|
    ensures var ws := GetWords(buf, pos, len).value; |ws| == len && Small(ws) && At(buf, pos, Words(ws))
    decreases len
  {
    if len > 0 {
      WordsAre(buf, pos + 4, len - 1);
      var rest := GetWords(buf, pos + 4, len - 1).value;
      LeOfBytes(buf[pos..pos + 4]);
      Widths();
      AtJoin(buf, pos, buf[pos..pos + 4], Words(rest));
    }
  }

  /** The tag bytes of metrics. */
  lemma MetricIs(tag: nat)
    ensures MetricOf(tag).Some? <==> tag < 3
    ensures MetricOf(tag).Some? ==> MetricTag(MetricOf(tag).value) == tag
  {
  }

  // ---------------------------------------------------------------------
  // Log records
  // ---------------------------------------------------------------------

  /** The record with other metadata, if it has any. */
  function WithEntries(r: Record, raw: Entries): Record {
    if r.Upsert? || r.UpdateMeta? then r.(meta := raw) else r
  }

  /** The record as it stands in the buffer. */
  ghost predicate Stands(buf: seq<Byte>, r: Record, end: nat, raw: Entries, utf8: Utf8) {
    && end == |Encoded(WithEntries(r, raw))| && At(buf, 0, Encoded(WithEntries(r, raw)))
    && EntriesOk(raw, utf8) && EntriesOf(r) == InsertAll([], raw)
  }

  lemma UpsertIs(buf: seq<Byte>, utf8: Utf8) returns (raw: Entries)
    requires At(buf, 0, [1]) && ReadUpsert(buf, 1, utf8).Got?
    ensures var r := ReadUpsert(buf, 1, utf8); Stands(buf, r.value, r.pos, raw, utf8)
  {
    hide ReadInt, ReadWords, ReadMetadata, U32, U64, Words, PutMetadata, At, EntriesOk, InsertAll;
    Int4Is(buf, 1);
    var cid := ReadInt(buf, 1, 4).value;
    AtJoin(buf, 0, [1], U32(cid));
    Int8Is(buf, 5);
    var id := ReadInt(buf, 5, 8).value;
    AtJoin(buf, 0, [1] + U32(cid), U64(id));
    Int4Is(buf, 13);
    var dim := ReadInt(buf, 13, 4).value;
    AtJoin(buf, 0, [1] + U32(cid) + U64(id), U32(dim));
    ReadWordsAre(buf, 17, dim);
    var vector := ReadWords(buf, 17, dim).value;
    AtJoin(buf, 0, [1] + U32(cid) + U64(id) + U32(dim), Words(vector));
    var p := ReadWords(buf, 17, dim).pos;
    raw := MetadataIs(buf, p, utf8);
    AtJoin(buf, 0, [1] + U32(cid) + U64(id) + U32(dim) + Words(vector), PutMetadata(raw));
  }

  lemma ReadWordsAre(buf: seq<Byte>, pos: nat, len: nat)
    requires ReadWords(buf, pos, len).Got?
    ensures var r := ReadWords(buf, pos, len);
            |r.value| == len && At(buf, pos, Words(r.value)) && r.pos == pos + |Words(r.value)|
  {
    WordsAre(buf, pos, len);
  }

  lemma UpdateIs(buf: seq<Byte>, utf8: Utf8) returns (raw: Entries)
    requires At(buf, 0, [7]) && ReadRest(buf, 7, 1, utf8).Got?
    ensures var r := ReadRest(buf, 7, 1, utf8); Stands(buf, r.value, r.pos, raw, utf8)
  {
    hide ReadInt, ReadMetadata, U32, U64, PutMetadata, At, EntriesOk, InsertAll;
    Int4Is(buf, 1);
    var cid := ReadInt(buf, 1, 4).value;
    AtJoin(buf, 0, [7], U32(cid));
    Int8Is(buf, 5);
    var id := ReadInt(buf, 5, 8).value;
    AtJoin(buf, 0, [7] + U32(cid), U64(id));
    raw := MetadataIs(buf, 13, utf8);
    AtJoin(buf, 0, [7] + U32(cid) + U64(id), PutMetadata(raw));
  }

  lemma CreateIs(buf: seq<Byte>, utf8: Utf8)
    requires At(buf, 0, [3]) && ReadCreate(buf, 1, utf8).Got?
    ensures var r := ReadCreate(buf, 1, utf8); Stands(buf, r.value, r.pos, [], utf8)
  {
    hide ReadInt, ReadString, U32, PutString, At, MetricOf;
    Int4Is(buf, 1);
    var cid := ReadInt(buf, 1, 4).value;
    AtJoin(buf, 0, [3], U32(cid));
    StringIs(buf, 5, utf8);
    var name, p := ReadString(buf, 5, utf8).value, ReadString(buf, 5, utf8).pos;
    AtJoin(buf, 0, [3] + U32(cid), PutString(name));
    Int4Is(buf, p);
    var dim := ReadInt(buf, p, 4).value;
    AtJoin(buf, 0, [3] + U32(cid) + PutString(name), U32(dim));
    ByteIs(buf, p + 4);
    var tag := ReadInt(buf, p + 4, 1).value;
    MetricIs(tag);
    AtJoin(buf, 0, [3] + U32(cid) + PutString(name) + U32(dim), [tag]);
  }

  /** The four records of numbers and names. */
  lemma PlainIs(buf: seq<Byte>, tag: Byte, utf8: Utf8)
    requires tag in {2, 4, 5, 6} && At(buf, 0, [tag]) && ReadRest(buf, tag, 1, utf8).Got?
    ensures var r := ReadRest(buf, tag, 1, utf8); Stands(buf, r.value, r.pos, [], utf8)
  {
    hide ReadInt, ReadString, U32, U64, PutString, At;
    Int4Is(buf, 1);
    var first := ReadInt(buf, 1, 4).value;
    AtJoin(buf, 0, [tag], U32(first));
    if tag == 2 {
      Int8Is(buf, 5);
      AtJoin(buf, 0, [tag] + U32(first), U64(ReadInt(buf, 5, 8).value));
    } else if tag == 5 {
      StringIs(buf, 5, utf8);
      AtJoin(buf, 0, [tag] + U32(first), PutString(ReadString(buf, 5, utf8).value));
    } else if tag == 6 {
      Int4Is(buf, 5);
      AtJoin(buf, 0, [tag] + U32(first), U32(ReadInt(buf, 5, 4).value));
    }
  }

  /** A body that decodes is the encoding of its record, apart from order and repetition of metadata keys. */
  lemma DecodedIs(body: seq<Byte>, utf8: Utf8) returns (raw: Entries)
    requires Decode(body, utf8).Some?
    ensures var r := Decode(body, utf8).value;
            body == Encoded(WithEntries(r, raw)) && EntriesOk(raw, utf8) && EntriesOf(r) == InsertAll([], raw)
  {
    hide ReadInt, ReadUpsert, ReadCreate, Encoded, EntriesOk, InsertAll;
    ByteIs(body, 0);
    var tag := ReadInt(body, 0, 1).value;
    raw := [];
    if tag == 1 {
      raw := UpsertIs(body, utf8);
    } else if tag == 3 {
      CreateIs(body, utf8);
    } else if tag == 7 {
      raw := UpdateIs(body, utf8);
    } else {
      PlainIs(body, tag, utf8);
    }
  }

  /** Without metadata there is one body for each record. */
  lemma PlainBody(body: seq<Byte>, utf8: Utf8)
    requires Decode(body, utf8).Some? && !Decode(body, utf8).value.Upsert? && !Decode(body, utf8).value.UpdateMeta?
    ensures body == Encoded(Decode(body, utf8).value)
  {
    hide Decode, Encoded;
    var raw := DecodedIs(body, utf8);
  }

  // ---------------------------------------------------------------------
  // Manifests
  // ---------------------------------------------------------------------

  lemma SegmentIs(buf: seq<Byte>, pos: nat)
    requires ManifestFormat.ReadSegment(buf, pos).Got?
    ensures var r := ManifestFormat.ReadSegment(buf, pos);
            && ManifestFormat.SegmentOk(r.value) && At(buf, pos, ManifestFormat.PutSegment(r.value))
            && r.pos == pos + |ManifestFormat.PutSegment(r.value)|
  {
    hide ReadInt, U64, At;
    Int8Is(buf, pos);
    Int8Is(buf, pos + 8);
    Int8Is(buf, pos + 16);
    var a, b := U64(ReadInt(buf, pos, 8).value), U64(ReadInt(buf, pos + 8, 8).value);
    AtJoin(buf, pos, a, b);
    AtJoin(buf, pos, a + b, U64(ReadInt(buf, pos + 16, 8).value));
  }

  lemma {:induction false} SegmentsAre(buf: seq<Byte>, pos: nat, count: nat)
    requires pos <= |buf| && ManifestFormat.ReadSegments(buf, pos, count).Got?
    ensures var r := ManifestFormat.ReadSegments(buf, pos, count);
            && |r.value| == count && (forall i :: 0 <= i < count ==> ManifestFormat.SegmentOk(r.value[i]))
            && At(buf, pos, ManifestFormat.PutSegments(r.value))
            && r.pos == pos + |ManifestFormat.PutSegments(r.value)|
    decreases count
  {
    hide ManifestFormat.ReadSegment, ManifestFormat.PutSegment, ManifestFormat.SegmentOk, At;
    if count == 0 {
      NothingAt(buf, pos);
    } else {
      SegmentIs(buf, pos);
      var first := ManifestFormat.ReadSegment(buf, pos);
      SegmentsAre(buf, first.pos, count - 1);
      var rest := ManifestFormat.ReadSegments(buf, first.pos, count - 1).value;
      assert ([first.value] + rest)[1..] == rest;
      AtJoin(buf, pos, ManifestFormat.PutSegment(first.value), ManifestFormat.PutSegments(rest));
    }
  }

  /** Version 1 files must list segments by ascending number. */
  lemma {:induction false} AscendingMeans(s: seq<ManifestFormat.SegmentEntry>)
    ensures ManifestFormat.AscendingIds(s) <==> forall i, j :: 0 <= i < j < |s| ==> s[i].segId < s[j].segId
  {
    if |s| >= 2 {
      AscendingMeans(s[1..]);
      if ManifestFormat.AscendingIds(s) {
        forall i, j | 0 <= i < j < |s| ensures s[i].segId < s[j].segId {
          assert s[j] == s[1..][j - 1] && (i > 0 ==> s[i] == s[1..][i - 1]) && s[1] == s[1..][0];
        }
      } else if s[0].segId < s[1].segId {
        var i, j :| 0 <= i < j < |s[1..]| && s[1..][i].segId >= s[1..][j].segId;
        assert s[i + 1].segId >= s[j + 1].segId;
      }
    }
  }

  ghost predicate SegmentsAscend(cols: seq<ManifestFormat.CollectionEntry>) {
    forall c, i, j :: 0 <= c < |cols| && 0 <= i < j < |cols[c].segments| ==>
      cols[c].segments[i].segId < cols[c].segments[j].segId
  }

  lemma CollectionIs(buf: seq<Byte>, pos: nat, v1: bool, utf8: Utf8)
    requires ManifestFormat.ReadCollection(buf, pos, v1, utf8).Got?
    ensures var r := ManifestFormat.ReadCollection(buf, pos, v1, utf8);
            && ManifestFormat.CollectionOk(r.value, utf8) && At(buf, pos, ManifestFormat.PutCollection(r.value))
            && r.pos == pos + |ManifestFormat.PutCollection(r.value)|
            && (v1 ==> ManifestFormat.AscendingIds(r.value.segments))
  {
    hide ReadInt, ReadString, U32, PutString, StringOk, At, MetricOf, ManifestFormat.ReadSegments,
         ManifestFormat.PutSegments, ManifestFormat.SegmentOk, ManifestFormat.AscendingIds;
    var c := ManifestFormat.ReadCollection(buf, pos, v1, utf8).value;
    Int4Is(buf, pos);
    StringIs(buf, pos + 4, utf8);
    AtJoin(buf, pos, U32(c.cid), PutString(c.name));
    var p := ReadString(buf, pos + 4, utf8).pos;
    Int4Is(buf, p);
    AtJoin(buf, pos, U32(c.cid) + PutString(c.name), U32(c.dim));
    ByteIs(buf, p + 4);
    MetricIs(ReadInt(buf, p + 4, 1).value);
    AtJoin(buf, pos, U32(c.cid) + PutString(c.name) + U32(c.dim), [MetricTag(c.metric)]);
    Int4Is(buf, p + 5);
    SegmentsAre(buf, p + 9, ReadInt(buf, p + 5, 4).value);
    var front := U32(c.cid) + PutString(c.name) + U32(c.dim) + [MetricTag(c.metric)];
    AtJoin(buf, pos, front, U32(|c.segments|));
    AtJoin(buf, pos, front + U32(|c.segments|), ManifestFormat.PutSegments(c.segments));
  }

  lemma {:induction false} CollectionsAre(buf: seq<Byte>, pos: nat, count: nat, v1: bool, utf8: Utf8)
    requires pos <= |buf| && ManifestFormat.ReadCollections(buf, pos, count, v1, utf8).Got?
    ensures var r := ManifestFormat.ReadCollections(buf, pos, count, v1, utf8);
            && |r.value| == count && (forall i :: 0 <= i < count ==> ManifestFormat.CollectionOk(r.value[i], utf8))
            && At(buf, pos, ManifestFormat.PutCollections(r.value))
            && r.pos == pos + |ManifestFormat.PutCollections(r.value)|
            && (v1 ==> SegmentsAscend(r.value))
    decreases count
  {
    hide ManifestFormat.ReadCollection, ManifestFormat.PutCollection, ManifestFormat.CollectionOk, At,
         ManifestFormat.AscendingIds;
    if count == 0 {
      NothingAt(buf, pos);
    } else {
      CollectionIs(buf, pos, v1, utf8);
      var first := ManifestFormat.ReadCollection(buf, pos, v1, utf8);
      CollectionsAre(buf, first.pos, count - 1, v1, utf8);
      var rest := ManifestFormat.ReadCollections(buf, first.pos, count - 1, v1, utf8).value;
      assert ([first.value] + rest)[1..] == rest;
      AscendingMeans(first.value.segments);
      AtJoin(buf, pos, ManifestFormat.PutCollection(first.value), ManifestFormat.PutCollections(rest));
    }
  }

  lemma FieldsAre(buf: seq<Byte>, v1: bool, utf8: Utf8)
    requires ManifestFormat.ReadFields(buf, v1, utf8).Got?
    ensures var r := ManifestFormat.ReadFields(buf, v1, utf8);
            && ManifestFormat.ManifestOk(r.value, utf8) && At(buf, 8, ManifestFormat.Fields(r.value))
            && r.pos == 8 + |ManifestFormat.Fields(r.value)| && (v1 ==> SegmentsAscend(r.value.cols))
  {
    hide ReadInt, U32, U64, At, ManifestFormat.ReadCollections, ManifestFormat.PutCollections,
         ManifestFormat.CollectionOk, SegmentsAscend;
    var m := ManifestFormat.ReadFields(buf, v1, utf8).value;
    Int8Is(buf, 8);
    Int4Is(buf, 16);
    AtJoin(buf, 8, U64(m.gen), U32(m.nextCid));
    Int8Is(buf, 20);
    AtJoin(buf, 8, U64(m.gen) + U32(m.nextCid), U64(m.nextSegId));
    Int8Is(buf, 28);
    AtJoin(buf, 8, U64(m.gen) + U32(m.nextCid) + U64(m.nextSegId), U64(m.walSeq));
    Int4Is(buf, 36);
    CollectionsAre(buf, 40, ReadInt(buf, 36, 4).value, v1, utf8);
    var front := U64(m.gen) + U32(m.nextCid) + U64(m.nextSegId) + U64(m.walSeq);
    AtJoin(buf, 8, front, U32(|m.cols|));
    AtJoin(buf, 8, front + U32(|m.cols|), ManifestFormat.PutCollections(m.cols));
  }

  /** The content of a file, with its checksum behind it. */
  function Sealed(content: seq<Byte>, crc: Crc): seq<Byte> {
    content + U32(crc(content))
  }

  /** A manifest file that decodes consists of its magic, the fields decoded and their checksum. */
  lemma ManifestIs(buf: seq<Byte>, crc: Crc, utf8: Utf8)
    requires ManifestFormat.Decode(buf, crc, utf8).Some?
    ensures var m := ManifestFormat.Decode(buf, crc, utf8).value;
            && ManifestFormat.ManifestOk(m, utf8) && (buf[..8] == ManifestFormat.MAGIC_V1 ==> SegmentsAscend(m.cols))
            && buf == Sealed(buf[..8] + ManifestFormat.Fields(m), crc)
  {
    hide ManifestFormat.ReadFields, ManifestFormat.Fields, ManifestFormat.ManifestOk, SegmentsAscend, FromLe, U32;
    var content, stored := buf[..|buf| - 4], buf[|buf| - 4..];
    FieldsAre(content, buf[..8] == ManifestFormat.MAGIC_V1, utf8);
    var m := ManifestFormat.Decode(buf, crc, utf8).value;
    assert content == content[..8] + content[8..8 + |ManifestFormat.Fields(m)|];
    StoredIs(stored, crc(content));
    assert buf == content + stored && content[..8] == buf[..8];
  }

  lemma StoredIs(stored: seq<Byte>, n: nat)
    requires |stored| == 4 && FromLe(stored) == n
    ensures stored == U32(n)
  {
    LeOfBytes(stored);
  }

  /** A file of the current version decodes to a manifest if and only if it is the encoding of that manifest. */
  lemma ManifestDecodesIff(buf: seq<Byte>, m: ManifestFormat.Manifest, crc: Crc, utf8: Utf8)
    requires CrcOk(crc) && |buf| >= 8 && buf[..8] == ManifestFormat.MAGIC_V2
    ensures ManifestFormat.Decode(buf, crc, utf8) == Some(m)
            <==> buf == ManifestFormat.Encoded(m, crc) && ManifestFormat.ManifestOk(m, utf8)
  {
    hide ManifestFormat.Decode, ManifestFormat.Fields, ManifestFormat.ManifestOk;
    if ManifestFormat.Decode(buf, crc, utf8) == Some(m) {
      ManifestIs(buf, crc, utf8);
    } else if buf == ManifestFormat.Encoded(m, crc) && ManifestFormat.ManifestOk(m, utf8) {
      ManifestFormat.RoundTrip(m, crc, utf8);
    }
  }
}
