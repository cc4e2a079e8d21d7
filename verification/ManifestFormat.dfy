/** The bytes of a manifest file: magic, counters, collections with their segments, and a checksum footer. */
module ManifestFormat {
  import opened Records
  import opened Bytes
  import opened Wire
  import opened WalCodec

  /** A segment listed by a manifest. */
  datatype SegmentEntry = SegmentEntry(segId: nat, recordCount: nat, tombstoneCount: nat)

  datatype CollectionEntry = CollectionEntry(cid: nat, name: seq<Byte>, dim: nat, metric: Metric,
      segments: seq<SegmentEntry>)

  datatype Manifest = Manifest(gen: nat, nextCid: nat, nextSegId: nat, walSeq: nat, cols: seq<CollectionEntry>)

  const MAGIC_V1: seq<Byte> := [72, 65, 77, 65, 78, 69, 70, 1]
  const MAGIC_V2: seq<Byte> := [72, 65, 77, 65, 78, 69, 70, 2]

  // ---------------------------------------------------------------------
  // encode
  // ---------------------------------------------------------------------

  function PutSegment(s: SegmentEntry): (b: seq<Byte>)
  {
    U64(s.segId) + U64(s.recordCount) + U64(s.tombstoneCount)
  }

  function PutSegments(s: seq<SegmentEntry>): seq<Byte> {
    if s == [] then [] else PutSegment(s[0]) + PutSegments(s[1..])
  }

  function PutCollection(c: CollectionEntry): seq<Byte> {
    U32(c.cid) + PutString(c.name) + U32(c.dim) + [MetricTag(c.metric)] + U32(|c.segments|) + PutSegments(c.segments)
  }

  function PutCollections(cols: seq<CollectionEntry>): seq<Byte> {
    if cols == [] then [] else PutCollection(cols[0]) + PutCollections(cols[1..])
  }

  function Fields(m: Manifest): seq<Byte> {
    U64(m.gen) + U32(m.nextCid) + U64(m.nextSegId) + U64(m.walSeq) + U32(|m.cols|) + PutCollections(m.cols)
  }

  function Encoded(m: Manifest, crc: Crc): seq<Byte> {
    var content := MAGIC_V2 + Fields(m);
    content + U32(crc(content))
  }

  ghost predicate SegmentOk(s: SegmentEntry) {
    s.segId < U64_SIZE && s.recordCount < U64_SIZE && s.tombstoneCount < U64_SIZE
  }

  ghost predicate CollectionOk(c: CollectionEntry, utf8: Utf8) {
    && c.cid < U32_SIZE && StringOk(c.name, utf8) && c.dim < U32_SIZE && |c.segments| < U32_SIZE
    && forall i :: 0 <= i < |c.segments| ==> SegmentOk(c.segments[i])
  }

  ghost predicate ManifestOk(m: Manifest, utf8: Utf8) {
    && m.gen < U64_SIZE && m.nextCid < U32_SIZE && m.nextSegId < U64_SIZE && m.walSeq < U64_SIZE && |m.cols| < U32_SIZE
    && forall i :: 0 <= i < |m.cols| ==> CollectionOk(m.cols[i], utf8)
  }

  lemma {:induction false} SegmentsSnoc(s: seq<SegmentEntry>, x: SegmentEntry)
    ensures PutSegments(s + [x]) == PutSegments(s) + PutSegment(x)
  {
    hide PutSegment;
    if s == [] {
      assert s + [x] == [x] && [x][1..] == [];
    } else {
      assert (s + [x])[1..] == s[1..] + [x];
      SegmentsSnoc(s[1..], x);
    }
  }

  lemma {:induction false} CollectionsSnoc(cols: seq<CollectionEntry>, x: CollectionEntry)
    ensures PutCollections(cols + [x]) == PutCollections(cols) + PutCollection(x)
  {
    hide PutCollection;
    if cols == [] {
      assert cols + [x] == [x] && [x][1..] == [];
    } else {
      assert (cols + [x])[1..] == cols[1..] + [x];
      CollectionsSnoc(cols[1..], x);
    }
  }

  method AppendCollection(out: seq<Byte>, c: CollectionEntry) returns (out': seq<Byte>)
    ensures out' == out + PutCollection(c)
  {
    hide U32, U64, PutString, PutSegment;
    out' := out + U32(c.cid) + PutString(c.name) + U32(c.dim) + [MetricTag(c.metric)] + U32(|c.segments|);
    ghost var start := out';
    for i := 0 to |c.segments|
      invariant out' == start + PutSegments(c.segments[..i])
    {
      SegmentsSnoc(c.segments[..i], c.segments[i]);
      assert c.segments[..i + 1] == c.segments[..i] + [c.segments[i]];
      out' := out' + PutSegment(c.segments[i]);
    }
    assert c.segments[..|c.segments|] == c.segments;
  }

  /** `Manifest::encode` */
  method Encode(m: Manifest, crc: Crc) returns (buf: seq<Byte>)
    ensures buf == Encoded(m, crc)
  {
    hide U32, U64, PutCollection;
    buf := MAGIC_V2 + U64(m.gen) + U32(m.nextCid) + U64(m.nextSegId) + U64(m.walSeq) + U32(|m.cols|);
    ghost var start := buf;
    for i := 0 to |m.cols|
      invariant buf == start + PutCollections(m.cols[..i])
    {
      CollectionsSnoc(m.cols[..i], m.cols[i]);
      assert m.cols[..i + 1] == m.cols[..i] + [m.cols[i]];
      buf := AppendCollection(buf, m.cols[i]);
    }
    assert m.cols[..|m.cols|] == m.cols;
    assert buf == MAGIC_V2 + Fields(m);
    buf := buf + U32(crc(buf));
  }

  // ---------------------------------------------------------------------
  // decode
  // ---------------------------------------------------------------------

  function ReadSegment(buf: seq<Byte>, pos: nat): (r: Got<SegmentEntry>)
    ensures r.Got? ==> pos <= r.pos <= |buf|
  {
    match ReadInt(buf, pos, 8) case Bad => Bad case Got(segId, p) =>
      match ReadInt(buf, p, 8) case Bad => Bad case Got(records, p1) =>
        match ReadInt(buf, p1, 8) case Bad => Bad case Got(tombstones, q) =>
          Got(SegmentEntry(segId, records, tombstones), q)
  }

  function ReadSegments(buf: seq<Byte>, pos: nat, count: nat): (r: Got<seq<SegmentEntry>>)
    requires pos <= |buf|
    ensures r.Got? ==> pos <= r.pos <= |buf|
    decreases count
  {
    if count == 0 then Got([], pos)
    else match ReadSegment(buf, pos) case Bad => Bad case Got(first, p) =>
        match ReadSegments(buf, p, count - 1) case Bad => Bad case Got(rest, q) => Got([first] + rest, q)
  }

  /** Version 1 files list segments in ascending id order, and only they must. */
  predicate AscendingIds(s: seq<SegmentEntry>) {
    |s| < 2 || (s[0].segId < s[1].segId && AscendingIds(s[1..]))
  }

  function ReadCollection(buf: seq<Byte>, pos: nat, v1: bool, utf8: Utf8): (r: Got<CollectionEntry>)
    ensures r.Got? ==> pos <= r.pos <= |buf|
  {
    match ReadInt(buf, pos, 4) case Bad => Bad case Got(cid, p) =>
      match ReadString(buf, p, utf8) case Bad => Bad case Got(name, p1) =>
        match ReadInt(buf, p1, 4) case Bad => Bad case Got(dim, p2) =>
          match ReadInt(buf, p2, 1) case Bad => Bad case Got(tag, p3) =>
            match MetricOf(tag) case None => Bad case Some(metric) =>
              match ReadInt(buf, p3, 4) case Bad => Bad case Got(count, p4) =>
                match ReadSegments(buf, p4, count) case Bad => Bad case Got(segments, q) =>
                  if v1 && !AscendingIds(segments) then Bad
                  else Got(CollectionEntry(cid, name, dim, metric, segments), q)
  }

  function ReadCollections(buf: seq<Byte>, pos: nat, count: nat, v1: bool, utf8: Utf8): (r: Got<seq<CollectionEntry>>)
    requires pos <= |buf|
    ensures r.Got? ==> pos <= r.pos <= |buf|
    decreases count
  {
    if count == 0 then Got([], pos)
    else match ReadCollection(buf, pos, v1, utf8) case Bad => Bad case Got(first, p) =>
        match ReadCollections(buf, p, count - 1, v1, utf8) case Bad => Bad case Got(rest, q) => Got([first] + rest, q)
  }

  function ReadFields(buf: seq<Byte>, v1: bool, utf8: Utf8): (r: Got<Manifest>)
  {
    match ReadInt(buf, 8, 8) case Bad => Bad case Got(gen, p) =>
      match ReadInt(buf, p, 4) case Bad => Bad case Got(nextCid, p1) =>
        match ReadInt(buf, p1, 8) case Bad => Bad case Got(nextSegId, p2) =>
          match ReadInt(buf, p2, 8) case Bad => Bad case Got(walSeq, p3) =>
            match ReadInt(buf, p3, 4) case Bad => Bad case Got(count, p4) =>
              match ReadCollections(buf, p4, count, v1, utf8) case Bad => Bad case Got(cols, q) =>
                Got(Manifest(gen, nextCid, nextSegId, walSeq, cols), q)
  }

  /** `Manifest::decode`; `None` is `Corrupted`. */
  function Decode(buf: seq<Byte>, crc: Crc, utf8: Utf8): Option<Manifest> {
    if |buf| < 12 || (buf[..8] != MAGIC_V1 && buf[..8] != MAGIC_V2) then None else
      var content, stored := buf[..|buf| - 4], FromLe(buf[|buf| - 4..]);
      if crc(content) != stored then None else
        match ReadFields(content, buf[..8] == MAGIC_V1, utf8)
        case Bad => None
        case Got(m, q) => if q == |content| then Some(m) else None
  }

  method TakeSegment(reader: Reader) returns (r: Option<SegmentEntry>)
    requires reader.Valid()
    modifies reader`pos
    ensures reader.Valid() && Advances(r, ReadSegment(reader.buf, old(reader.pos)), reader.pos)
  {
    hide FromLe;
    var segId := reader.TakeInt(8);
    if segId.None? {
      return None;
    }
    var records := reader.TakeInt(8);
    if records.None? {
      return None;
    }
    var tombstones := reader.TakeInt(8);
    if tombstones.None? {
      return None;
    }
    return Some(SegmentEntry(segId.value, records.value, tombstones.value));
  }

  /** The rest of a list, behind what has been read of it. */
  function Behind<T>(front: seq<T>, rest: Got<seq<T>>): Got<seq<T>> {
    match rest case Bad => Bad case Got(s, p) => Got(front + s, p)
  }

  lemma BehindSnoc<T>(front: seq<T>, x: T, rest: Got<seq<T>>)
    ensures Behind(front, Behind([x], rest)) == Behind(front + [x], rest)
  {
    if rest.Got? {
      assert front + ([x] + rest.value) == (front + [x]) + rest.value;
    }
  }

  lemma BehindNothing<T>(rest: Got<seq<T>>)
    ensures Behind([], rest) == rest
  {
    if rest.Got? {
      assert [] + rest.value == rest.value;
    }
  }

  lemma BehindEnds<T>(front: seq<T>, pos: nat)
    ensures Behind(front, Bad) == Bad && Behind(front, Got([], pos)) == Got(front, pos)
  {
    assert front + [] == front;
  }

  lemma SegmentsStep(buf: seq<Byte>, pos: nat, count: nat)
    requires pos <= |buf|
    ensures count == 0 ==> ReadSegments(buf, pos, count) == Got([], pos)
    ensures count > 0 ==>
              ReadSegments(buf, pos, count)
              == (match ReadSegment(buf, pos) case Bad => Bad
                  case Got(first, p) => Behind([first], ReadSegments(buf, p, count - 1)))
  {
  }

  method TakeSegments(reader: Reader, count: nat) returns (r: Option<seq<SegmentEntry>>)
    requires reader.Valid()
    modifies reader`pos
    ensures reader.Valid() && Advances(r, ReadSegments(reader.buf, old(reader.pos), count), reader.pos)
  {
    var segments: seq<SegmentEntry> := [];
    hide ReadSegment, ReadSegments, Behind;
    BehindNothing(ReadSegments(reader.buf, reader.pos, count));
    for i := 0 to count
      invariant reader.Valid()
      invariant ReadSegments(reader.buf, old(reader.pos), count)
          == Behind(segments, ReadSegments(reader.buf, reader.pos, count - i))
    {
      SegmentsStep(reader.buf, reader.pos, count - i);
      var entry := TakeSegment(reader);
      if entry.None? {
        BehindEnds(segments, reader.pos);
        return None;
      }
      BehindSnoc(segments, entry.value, ReadSegments(reader.buf, reader.pos, count - i - 1));
      segments := segments + [entry.value];
    }
    SegmentsStep(reader.buf, reader.pos, 0);
    BehindEnds(segments, reader.pos);
    return Some(segments);
  }

  method TakeCollection(reader: Reader, v1: bool, utf8: Utf8) returns (r: Option<CollectionEntry>)
    requires reader.Valid()
    modifies reader`pos
    ensures reader.Valid() && Advances(r, ReadCollection(reader.buf, old(reader.pos), v1, utf8), reader.pos)
  {
    hide FromLe, ReadString, ReadSegments, AscendingIds;
    var cid := reader.TakeInt(4);
    if cid.None? {
      return None;
    }
    var name := TakeString(reader, utf8);
    if name.None? {
      return None;
    }
    var dim := reader.TakeInt(4);
    if dim.None? {
      return None;
    }
    var tag := reader.TakeInt(1);
    if tag.None? || MetricOf(tag.value).None? {
      return None;
    }
    var count := reader.TakeInt(4);
    if count.None? {
      return None;
    }
    var segments := TakeSegments(reader, count.value);
    if segments.None? || (v1 && !AscendingIds(segments.value)) {
      return None;
    }
    return Some(CollectionEntry(cid.value, name.value, dim.value, MetricOf(tag.value).value, segments.value));
  }

  lemma CollectionsStep(buf: seq<Byte>, pos: nat, count: nat, v1: bool, utf8: Utf8)
    requires pos <= |buf|
    ensures count == 0 ==> ReadCollections(buf, pos, count, v1, utf8) == Got([], pos)
    ensures count > 0 ==>
              ReadCollections(buf, pos, count, v1, utf8)
              == (match ReadCollection(buf, pos, v1, utf8)
                  case Bad => Bad
                  case Got(first, p) => Behind([first], ReadCollections(buf, p, count - 1, v1, utf8)))
  {
  }

  method TakeCollections(reader: Reader, count: nat, v1: bool, utf8: Utf8) returns (r: Option<seq<CollectionEntry>>)
    requires reader.Valid()
    modifies reader`pos
    ensures reader.Valid() && Advances(r, ReadCollections(reader.buf, old(reader.pos), count, v1, utf8), reader.pos)
  {
    var cols: seq<CollectionEntry> := [];
    hide ReadCollection, ReadCollections, Behind;
    BehindNothing(ReadCollections(reader.buf, reader.pos, count, v1, utf8));
    for i := 0 to count
      invariant reader.Valid()
      invariant ReadCollections(reader.buf, old(reader.pos), count, v1, utf8)
                == Behind(cols, ReadCollections(reader.buf, reader.pos, count - i, v1, utf8))
    {
      CollectionsStep(reader.buf, reader.pos, count - i, v1, utf8);
      var entry := TakeCollection(reader, v1, utf8);
      if entry.None? {
        BehindEnds(cols, reader.pos);
        return None;
      }
      BehindSnoc(cols, entry.value, ReadCollections(reader.buf, reader.pos, count - i - 1, v1, utf8));
      cols := cols + [entry.value];
    }
    CollectionsStep(reader.buf, reader.pos, 0, v1, utf8);
    BehindEnds(cols, reader.pos);
    return Some(cols);
  }

  method TakeFields(reader: Reader, v1: bool, utf8: Utf8) returns (r: Option<Manifest>)
    requires reader.Valid() && reader.pos == 8
    modifies reader`pos
    ensures reader.Valid() && Advances(r, ReadFields(reader.buf, v1, utf8), reader.pos)
  {
    hide FromLe, ReadCollections;
    var gen := reader.TakeInt(8);
    if gen.None? {
      return None;
    }
    var nextCid := reader.TakeInt(4);
    if nextCid.None? {
      return None;
    }
    var nextSegId := reader.TakeInt(8);
    if nextSegId.None? {
      return None;
    }
    var walSeq := reader.TakeInt(8);
    if walSeq.None? {
      return None;
    }
    var count := reader.TakeInt(4);
    if count.None? {
      return None;
    }
    var cols := TakeCollections(reader, count.value, v1, utf8);
    if cols.None? {
      return None;
    }
    return Some(Manifest(gen.value, nextCid.value, nextSegId.value, walSeq.value, cols.value));
  }

  /** `Manifest::decode` */
  method DecodeManifest(buf: seq<Byte>, crc: Crc, utf8: Utf8) returns (r: Option<Manifest>)
    ensures r == Decode(buf, crc, utf8)
  {
    hide FromLe, ReadFields;
    if |buf| < 12 || (buf[..8] != MAGIC_V1 && buf[..8] != MAGIC_V2) {
      return None;
    }
    var content := buf[..|buf| - 4];
    if crc(content) != FromLe(buf[|buf| - 4..]) {
      return None;
    }
    var reader := new Reader(content);
    var magic := reader.Take(8);
    var m := TakeFields(reader, buf[..8] == MAGIC_V1, utf8);
    if m.None? || reader.pos != |content| {
      return None;
    }
    return m;
  }

  // ---------------------------------------------------------------------
  // Round trip
  // ---------------------------------------------------------------------

  lemma SegmentReads(buf: seq<Byte>, pos: nat, s: SegmentEntry)
    requires At(buf, pos, PutSegment(s)) && SegmentOk(s)
    ensures ReadSegment(buf, pos) == Got(s, pos + |PutSegment(s)|)
  {
    hide At, U64, ReadInt;
    AtSplit(buf, pos, U64(s.segId) + U64(s.recordCount), U64(s.tombstoneCount));
    AtSplit(buf, pos, U64(s.segId), U64(s.recordCount));
    ReadsInt64(buf, pos, s.segId);
    ReadsInt64(buf, pos + 8, s.recordCount);
    ReadsInt64(buf, pos + 16, s.tombstoneCount);
  }

  lemma {:induction false} SegmentsRead(buf: seq<Byte>, pos: nat, s: seq<SegmentEntry>)
    requires pos <= |buf| && At(buf, pos, PutSegments(s)) && forall i :: 0 <= i < |s| ==> SegmentOk(s[i])
    ensures ReadSegments(buf, pos, |s|) == Got(s, pos + |PutSegments(s)|)
    decreases |s|
  {
    hide At, PutSegment, ReadSegment, SegmentOk;
    if s != [] {
      AtSplit(buf, pos, PutSegment(s[0]), PutSegments(s[1..]));
      SegmentReads(buf, pos, s[0]);
      SegmentsRead(buf, pos + |PutSegment(s[0])|, s[1..]);
      assert [s[0]] + s[1..] == s;
    }
  }

  lemma SixParts(buf: seq<Byte>, pos: nat, a: seq<Byte>, b: seq<Byte>, c: seq<Byte>, d: seq<Byte>, e: seq<Byte>,
      f: seq<Byte>)
    requires At(buf, pos, a + b + c + d + e + f)
    ensures At(buf, pos, a) && At(buf, pos + |a|, b) && At(buf, pos + |a| + |b|, c) && At(buf, pos + |a| + |b| + |c|, d)
    ensures At(buf, pos + |a| + |b| + |c| + |d|, e) && At(buf, pos + |a| + |b| + |c| + |d| + |e|, f)
  {
    hide At;
    AtSplit(buf, pos, a + b + c + d + e, f);
    AtSplit(buf, pos, a + b + c + d, e);
    AtSplit(buf, pos, a + b + c, d);
    AtSplit(buf, pos, a + b, c);
    AtSplit(buf, pos, a, b);
  }

  lemma CollectionReads(buf: seq<Byte>, pos: nat, c: CollectionEntry, utf8: Utf8)
    requires At(buf, pos, PutCollection(c)) && CollectionOk(c, utf8)
    ensures ReadCollection(buf, pos, false, utf8) == Got(c, pos + |PutCollection(c)|)
  {
    hide At, U32, PutString, PutSegments, ReadInt, ReadString, ReadSegments, StringOk;
    SixParts(buf, pos, U32(c.cid), PutString(c.name), U32(c.dim), [MetricTag(c.metric)], U32(|c.segments|),
        PutSegments(c.segments));
    var p := pos + 4 + |PutString(c.name)|;
    ReadsInt32(buf, pos, c.cid);
    ReadsString(buf, pos + 4, c.name, utf8);
    ReadsInt32(buf, p, c.dim);
    ReadsTag(buf, p + 4, MetricTag(c.metric));
    ReadsInt32(buf, p + 5, |c.segments|);
    SegmentsFit(buf, p + 9, c.segments);
  }

  lemma SegmentsFit(buf: seq<Byte>, pos: nat, s: seq<SegmentEntry>)
    requires At(buf, pos, PutSegments(s)) && forall i :: 0 <= i < |s| ==> SegmentOk(s[i])
    ensures pos <= |buf| && ReadSegments(buf, pos, |s|) == Got(s, pos + |PutSegments(s)|)
  {
    SegmentsRead(buf, pos, s);
  }

  lemma {:induction false} CollectionsRead(buf: seq<Byte>, pos: nat, cols: seq<CollectionEntry>, utf8: Utf8)
    requires pos <= |buf| && At(buf, pos, PutCollections(cols)) &&
         forall i :: 0 <= i < |cols| ==> CollectionOk(cols[i], utf8)
    ensures ReadCollections(buf, pos, |cols|, false, utf8) == Got(cols, pos + |PutCollections(cols)|)
    decreases |cols|
  {
    hide At, PutCollection, ReadCollection, CollectionOk;
    if cols != [] {
      AtSplit(buf, pos, PutCollection(cols[0]), PutCollections(cols[1..]));
      CollectionReads(buf, pos, cols[0], utf8);
      CollectionsRead(buf, pos + |PutCollection(cols[0])|, cols[1..], utf8);
      assert [cols[0]] + cols[1..] == cols;
    }
  }

  lemma FieldsRead(buf: seq<Byte>, m: Manifest, utf8: Utf8)
    requires buf == MAGIC_V2 + Fields(m) && ManifestOk(m, utf8)
    ensures ReadFields(buf, false, utf8) == Got(m, |buf|)
  {
    hide At, U32, U64, PutCollections, ReadInt, ReadCollections, CollectionOk;
    AtWhole(buf);
    AtSplit(buf, 0, MAGIC_V2, Fields(m));
    SixParts(buf, 8, U64(m.gen), U32(m.nextCid), U64(m.nextSegId), U64(m.walSeq), U32(|m.cols|),
        PutCollections(m.cols));
    ReadsInt64(buf, 8, m.gen);
    ReadsInt32(buf, 16, m.nextCid);
    ReadsInt64(buf, 20, m.nextSegId);
    ReadsInt64(buf, 28, m.walSeq);
    ReadsInt32(buf, 36, |m.cols|);
    CollectionsFit(buf, 40, m.cols, utf8);
  }

  lemma CollectionsFit(buf: seq<Byte>, pos: nat, cols: seq<CollectionEntry>, utf8: Utf8)
    requires At(buf, pos, PutCollections(cols)) && forall i :: 0 <= i < |cols| ==> CollectionOk(cols[i], utf8)
    ensures pos <= |buf| && ReadCollections(buf, pos, |cols|, false, utf8) == Got(cols, pos + |PutCollections(cols)|)
  {
    CollectionsRead(buf, pos, cols, utf8);
  }

  /** Decoding an encoded manifest gives the manifest back, for any checksum function. */
  lemma RoundTrip(m: Manifest, crc: Crc, utf8: Utf8)
    requires ManifestOk(m, utf8) && crc(MAGIC_V2 + Fields(m)) < U32_SIZE
    ensures Decode(Encoded(m, crc), crc, utf8) == Some(m)
  {
    hide Fields, ReadFields, ManifestOk, U32, FromLe;
    var content := MAGIC_V2 + Fields(m);
    var buf := Encoded(m, crc);
    assert buf[..|buf| - 4] == content && buf[|buf| - 4..] == U32(crc(content)) && buf[..8] == MAGIC_V2;
    U32RoundTrip(crc(content));
    FieldsRead(content, m, utf8);
    assert MAGIC_V2[7] != MAGIC_V1[7];
    FieldsSize(m);
  }

  lemma FieldsSize(m: Manifest)
    ensures |Fields(m)| >= 32
  {
  }

  /** A manifest whose checksum does not match is never accepted. */
  lemma BadChecksum(buf: seq<Byte>, crc: Crc, utf8: Utf8)
    requires |buf| >= 12 && crc(buf[..|buf| - 4]) != FromLe(buf[|buf| - 4..])
    ensures Decode(buf, crc, utf8) == None
  {
    hide ReadFields;
  }
}
