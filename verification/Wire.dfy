/**
 * The byte codec of WAL records (`format.rs`, `WalRecord::encode` / `decode`). Strings are byte
 * strings accepted by an arbitrary UTF-8 test, floats are their bit patterns, and metadata is the
 * key-ordered list that a `BTreeMap` iterates.
 */
module Wire {
  import opened Records
  import opened Bytes

  datatype Value = WStr(s: seq<Byte>) | WInt(i: int) | WFloat(bits: nat) | WBool(b: bool)

  type Entries = seq<(seq<Byte>, Value)>

  datatype Record =
    | Upsert(cid: nat, id: nat, vector: seq<nat>, meta: Entries)
    | Delete(cid: nat, id: nat)
    | CreateCollection(cid: nat, name: seq<Byte>, dim: nat, metric: Metric)
    | DropCollection(cid: nat)
    | RenameCollection(cid: nat, newName: seq<Byte>)
    | SwapCollectionNames(a: nat, b: nat)
    | UpdateMeta(cid: nat, id: nat, meta: Entries)

  type Utf8 = seq<Byte> -> bool

  // ---------------------------------------------------------------------
  // Key order
  // ---------------------------------------------------------------------

  /** Byte-wise lexicographic order, the order of Rust strings. */
  predicate Before(a: seq<Byte>, b: seq<Byte>) {
    if b == [] then false
    else if a == [] then true
    else a[0] < b[0] || (a[0] == b[0] && Before(a[1..], b[1..]))
  }

  lemma {:induction false} BeforeTotal(a: seq<Byte>, b: seq<Byte>)
    ensures a == b || Before(a, b) || Before(b, a)
    ensures !(Before(a, b) && Before(b, a)) && !Before(a, a)
  {
    if a != [] {
      BeforeTotal(a[1..], if b != [] then b[1..] else []);
    }
    if a != [] && b != [] && a[0] == b[0] {
      assert a == [a[0]] + a[1..] && b == [b[0]] + b[1..];
    }
  }

  lemma {:induction false} BeforeTransitive(a: seq<Byte>, b: seq<Byte>, c: seq<Byte>)
    requires Before(a, b) && Before(b, c)
    ensures Before(a, c)
  {
    if a != [] {
      if a[0] == b[0] == c[0] {
        BeforeTransitive(a[1..], b[1..], c[1..]);
      }
    }
  }

  ghost predicate Ordered(m: Entries) {
    forall i, j :: 0 <= i < j < |m| ==> Before(m[i].0, m[j].0)
  }

  /** `BTreeMap::insert` on the ordered list. */
  function Insert(m: Entries, key: seq<Byte>, value: Value): (r: Entries)
  {
    if m == [] then [(key, value)]
    else
      var last := m[|m| - 1];
      if Before(last.0, key) then m + [(key, value)]
      else if last.0 == key then m[..|m| - 1] + [(key, value)]
      else Insert(m[..|m| - 1], key, value) + [last]
  }

  /** A list whose last key stands before `key` does not hold `key`. */
  lemma KeysBefore(m: Entries, key: seq<Byte>, e: (seq<Byte>, Value))
    requires Ordered(m) && (m != [] ==> Before(m[|m| - 1].0, key))
    ensures e in m ==> Before(e.0, key) && e.0 != key
  {
    BeforeTotal(key, key);
    if e in m {
      var i :| 0 <= i < |m| && m[i] == e;
      if i < |m| - 1 {
        BeforeTransitive(e.0, m[|m| - 1].0, key);
      }
    }
  }

  /** What the new list holds: the new value under its key, and what was there under every other key. */
  lemma {:induction false} InsertUpdates(m: Entries, key: seq<Byte>, value: Value, e: (seq<Byte>, Value))
    requires Ordered(m)
    ensures e in Insert(m, key, value) <==> if e.0 == key then e.1 == value else e in m
  {
    if m != [] {
      var front, last := m[..|m| - 1], m[|m| - 1];
      assert m == front + [last];
      BeforeTotal(last.0, key);
      if Before(last.0, key) {
        KeysBefore(m, key, e);
      } else if last.0 == key {
        KeysBefore(front, key, e);
      } else {
        InsertUpdates(front, key, value, e);
      }
    }
  }

  lemma {:induction false} InsertOrdered(m: Entries, key: seq<Byte>, value: Value)
    requires Ordered(m)
    ensures Ordered(Insert(m, key, value))
  {
    if m != [] {
      var front, last := m[..|m| - 1], m[|m| - 1];
      BeforeTotal(last.0, key);
      if Before(last.0, key) {
        forall i | 0 <= i < |m| ensures Before(m[i].0, key) {
          KeysBefore(m, key, m[i]);
        }
      } else if last.0 != key {
        InsertOrdered(front, key, value);
        var r := Insert(front, key, value);
        forall i | 0 <= i < |r| ensures Before(r[i].0, last.0) {
          InsertUpdates(front, key, value, r[i]);
        }
      }
    }
  }

  // ---------------------------------------------------------------------
  // Encoding
  // ---------------------------------------------------------------------

  function PutString(s: seq<Byte>): seq<Byte> {
    U32(|s|) + s
  }

  const I64_MIN: int := -0x8000_0000_0000_0000
  const I64_MAX: int := 0x7FFF_FFFF_FFFF_FFFF

  /** Two's complement. */
  function Bits64(i: int): nat {
    if 0 <= i then i else if i + U64_SIZE >= 0 then i + U64_SIZE else 0
  }

  function PutValue(v: Value): seq<Byte> {
    match v
    case WStr(s) => [0] + PutString(s)
    case WInt(i) => [1] + U64(Bits64(i))
    case WFloat(bits) => [2] + U64(bits)
    case WBool(b) => [3] + [if b then 1 else 0]
  }

  function PutEntries(m: Entries): seq<Byte> {
    if m == [] then [] else PutString(m[0].0) + PutValue(m[0].1) + PutEntries(m[1..])
  }

  function PutMetadata(m: Entries): seq<Byte> {
    U32(|m|) + PutEntries(m)
  }

  function MetricTag(m: Metric): Byte {
    match m case L2 => 0 case Cosine => 1 case Dot => 2
  }

  /** `WalRecord::encode` */
  function Encoded(r: Record): seq<Byte> {
    match r
    case Upsert(cid, id, vector, meta) => [1] + U32(cid) + U64(id) + U32(|vector|) + Words(vector) + PutMetadata(meta)
    case Delete(cid, id) => [2] + U32(cid) + U64(id)
    case CreateCollection(cid, name, dim, metric) => [3] + U32(cid) + PutString(name) + U32(dim) + [MetricTag(metric)]
    case DropCollection(cid) => [4] + U32(cid)
    case RenameCollection(cid, newName) => [5] + U32(cid) + PutString(newName)
    case SwapCollectionNames(a, b) => [6] + U32(a) + U32(b)
    case UpdateMeta(cid, id, meta) => [7] + U32(cid) + U64(id) + PutMetadata(meta)
  }

  // ---------------------------------------------------------------------
  // What the integer types guarantee
  // ---------------------------------------------------------------------

  ghost predicate StringOk(s: seq<Byte>, utf8: Utf8) {
    |s| < U32_SIZE && utf8(s)
  }

  ghost predicate ValueOk(v: Value, utf8: Utf8) {
    match v
    case WStr(s) => StringOk(s, utf8)
    case WInt(i) => I64_MIN <= i <= I64_MAX
    case WFloat(bits) => bits < U64_SIZE
    case WBool(_) => true
  }

  ghost predicate MetaOk(m: Entries, utf8: Utf8) {
    |m| < U32_SIZE && Ordered(m) && forall i :: 0 <= i < |m| ==> StringOk(m[i].0, utf8) && ValueOk(m[i].1, utf8)
  }

  ghost predicate RecordOk(r: Record, utf8: Utf8) {
    match r
    case Upsert(cid, id, vector, meta) => cid < U32_SIZE && id < U64_SIZE && |vector| < U32_SIZE && Small(vector)
        && MetaOk(meta, utf8)
    case Delete(cid, id) => cid < U32_SIZE && id < U64_SIZE
    case CreateCollection(cid, name, dim, _) => cid < U32_SIZE && StringOk(name, utf8) && dim < U32_SIZE
    case DropCollection(cid) => cid < U32_SIZE
    case RenameCollection(cid, newName) => cid < U32_SIZE && StringOk(newName, utf8)
    case SwapCollectionNames(a, b) => a < U32_SIZE && b < U32_SIZE
    case UpdateMeta(cid, id, meta) => cid < U32_SIZE && id < U64_SIZE && MetaOk(meta, utf8)
  }

  // ---------------------------------------------------------------------
  // Decoding: each reader gives a value and the position after it
  // ---------------------------------------------------------------------

  datatype Got<+T> = Got(value: T, pos: nat) | Bad

  function ReadInt(buf: seq<Byte>, pos: nat, n: nat): (r: Got<nat>)
    ensures r.Got? ==> r.pos == pos + n <= |buf|
  {
    if pos > |buf| then Bad else
      match GetInt(buf, pos, n)
      case None => Bad
      case Some(v) => Got(v, pos + n)
  }

  function ReadString(buf: seq<Byte>, pos: nat, utf8: Utf8): (r: Got<seq<Byte>>)
    ensures r.Got? ==> pos <= r.pos <= |buf|
  {
    match ReadInt(buf, pos, 4)
    case Bad => Bad
    case Got(len, p) =>
      match GetBytes(buf, p, len)
      case None => Bad
      case Some(s) => if utf8(s) then Got(s, p + len) else Bad
  }

  function SignedOf(n: nat): int {
    if n < 0x8000_0000_0000_0000 then n else n - U64_SIZE
  }

  function ReadValue(buf: seq<Byte>, pos: nat, utf8: Utf8): (r: Got<Value>)
    ensures r.Got? ==> pos <= r.pos <= |buf|
  {
    match ReadInt(buf, pos, 1)
    case Bad => Bad
    case Got(tag, p) =>
      if tag == 0 then match ReadString(buf, p, utf8) case Bad => Bad case Got(s, q) => Got(WStr(s), q)
      else if tag == 1 then match ReadInt(buf, p, 8) case Bad => Bad case Got(n, q) => Got(WInt(SignedOf(n)), q)
      else if tag == 2 then match ReadInt(buf, p, 8) case Bad => Bad case Got(n, q) => Got(WFloat(n), q)
      else if tag == 3 then
        match ReadInt(buf, p, 1)
        case Bad => Bad
        case Got(n, q) => if n <= 1 then Got(WBool(n == 1), q) else Bad
      else Bad
  }

  function ReadEntries(buf: seq<Byte>, pos: nat, count: nat, acc: Entries, utf8: Utf8): (r: Got<Entries>)
    requires pos <= |buf|
    ensures r.Got? ==> pos <= r.pos <= |buf|
    decreases count
  {
    if count == 0 then Got(acc, pos)
    else match ReadString(buf, pos, utf8)
      case Bad => Bad
      case Got(key, p) =>
        match ReadValue(buf, p, utf8)
        case Bad => Bad
        case Got(value, q) => ReadEntries(buf, q, count - 1, Insert(acc, key, value), utf8)
  }

  function ReadMetadata(buf: seq<Byte>, pos: nat, utf8: Utf8): (r: Got<Entries>)
    ensures r.Got? ==> pos <= r.pos <= |buf|
  {
    match ReadInt(buf, pos, 4)
    case Bad => Bad
    case Got(count, p) => ReadEntries(buf, p, count, [], utf8)
  }

  /** Decoded metadata is in key order, whatever order the bytes had. */
  lemma {:induction false} EntriesOrdered(buf: seq<Byte>, pos: nat, count: nat, acc: Entries, utf8: Utf8)
    requires pos <= |buf| && Ordered(acc)
    ensures var r := ReadEntries(buf, pos, count, acc, utf8); r.Got? ==> Ordered(r.value)
    decreases count
  {
    hide ReadInt;
    if count > 0 {
      match ReadString(buf, pos, utf8)
      case Bad =>
      case Got(key, p) =>
        match ReadValue(buf, p, utf8)
        case Bad =>
        case Got(value, q) =>
          InsertOrdered(acc, key, value);
          EntriesOrdered(buf, q, count - 1, Insert(acc, key, value), utf8);
    }
  }

  lemma MetadataOrdered(buf: seq<Byte>, pos: nat, utf8: Utf8)
    ensures var r := ReadMetadata(buf, pos, utf8); r.Got? ==> Ordered(r.value)
  {
    hide ReadEntries, Ordered;
    match ReadInt(buf, pos, 4)
    case Bad =>
    case Got(count, p) =>
      NothingOrdered();
      EntriesOrdered(buf, p, count, [], utf8);
  }

  lemma NothingOrdered()
    ensures Ordered([])
  {
  }

  function ReadWords(buf: seq<Byte>, pos: nat, len: nat): (r: Got<seq<nat>>)
    ensures r.Got? ==> pos <= r.pos <= |buf|
  {
    if pos > |buf| then Bad else
      match GetWords(buf, pos, len)
      case None => Bad
      case Some(ws) => Got(ws, pos + 4 * len)
  }

  function MetricOf(tag: nat): Option<Metric> {
    if tag == 0 then Some(L2) else if tag == 1 then Some(Cosine) else if tag == 2 then Some(Dot) else None
  }

  function ReadUpsert(buf: seq<Byte>, pos: nat, utf8: Utf8): (r: Got<Record>) {
    match ReadInt(buf, pos, 4) case Bad => Bad case Got(cid, p) =>
      match ReadInt(buf, p, 8) case Bad => Bad case Got(id, p1) =>
        match ReadInt(buf, p1, 4) case Bad => Bad case Got(dim, p2) =>
          match ReadWords(buf, p2, dim) case Bad => Bad case Got(vector, p3) =>
            match ReadMetadata(buf, p3, utf8) case Bad => Bad case Got(meta, q) => Got(Upsert(cid, id, vector, meta), q)
  }

  function ReadCreate(buf: seq<Byte>, pos: nat, utf8: Utf8): (r: Got<Record>) {
    match ReadInt(buf, pos, 4) case Bad => Bad case Got(cid, p) =>
      match ReadString(buf, p, utf8) case Bad => Bad case Got(name, p1) =>
        match ReadInt(buf, p1, 4) case Bad => Bad case Got(dim, p2) =>
          match ReadInt(buf, p2, 1) case Bad => Bad case Got(tag, q) =>
            match MetricOf(tag) case None => Bad case Some(metric) => Got(CreateCollection(cid, name, dim, metric), q)
  }

  function ReadRest(buf: seq<Byte>, tag: nat, pos: nat, utf8: Utf8): (r: Got<Record>) {
    if tag == 1 then ReadUpsert(buf, pos, utf8)
    else if tag == 3 then ReadCreate(buf, pos, utf8)
    else if tag == 2 then
      match ReadInt(buf, pos, 4) case Bad => Bad case Got(cid, p) =>
        match ReadInt(buf, p, 8) case Bad => Bad case Got(id, q) => Got(Delete(cid, id), q)
    else if tag == 4 then
      match ReadInt(buf, pos, 4) case Bad => Bad case Got(cid, q) => Got(DropCollection(cid), q)
    else if tag == 5 then
      match ReadInt(buf, pos, 4) case Bad => Bad case Got(cid, p) =>
        match ReadString(buf, p, utf8) case Bad => Bad case Got(name, q) => Got(RenameCollection(cid, name), q)
    else if tag == 6 then
      match ReadInt(buf, pos, 4) case Bad => Bad case Got(a, p) =>
        match ReadInt(buf, p, 4) case Bad => Bad case Got(b, q) => Got(SwapCollectionNames(a, b), q)
    else if tag == 7 then
      match ReadInt(buf, pos, 4) case Bad => Bad case Got(cid, p) =>
        match ReadInt(buf, p, 8) case Bad => Bad case Got(id, p1) =>
          match ReadMetadata(buf, p1, utf8) case Bad => Bad case Got(meta, q) => Got(UpdateMeta(cid, id, meta), q)
    else Bad
  }

  /** `WalRecord::decode`; `None` is the error `Corrupted`. */
  function Decode(body: seq<Byte>, utf8: Utf8): (r: Option<Record>) {
    match ReadInt(body, 0, 1)
    case Bad => None
    case Got(tag, p) =>
      match ReadRest(body, tag, p, utf8)
      case Bad => None
      case Got(rec, q) => if q == |body| then Some(rec) else None
  }

  /** The entries a record carries; none for the records without metadata. */
  function EntriesOf(r: Record): Entries {
    if r.Upsert? || r.UpdateMeta? then r.meta else []
  }

  lemma UpsertOrdered(buf: seq<Byte>, pos: nat, utf8: Utf8)
    ensures var r := ReadUpsert(buf, pos, utf8); r.Got? ==> r.value.Upsert? && Ordered(r.value.meta)
  {
    hide ReadMetadata, ReadInt, ReadWords, Ordered;
    match ReadInt(buf, pos, 4) case Bad => case Got(_, p) =>
      match ReadInt(buf, p, 8) case Bad => case Got(_, p1) =>
        match ReadInt(buf, p1, 4) case Bad => case Got(dim, p2) =>
          match ReadWords(buf, p2, dim) case Bad => case Got(_, p3) => MetadataOrdered(buf, p3, utf8);
  }

  lemma UpdateOrdered(buf: seq<Byte>, pos: nat, utf8: Utf8)
    ensures var r := ReadRest(buf, 7, pos, utf8); r.Got? ==> r.value.UpdateMeta? && Ordered(r.value.meta)
  {
    hide ReadMetadata, ReadInt, Ordered;
    match ReadInt(buf, pos, 4) case Bad => case Got(_, p) =>
      match ReadInt(buf, p, 8) case Bad => case Got(_, p1) => MetadataOrdered(buf, p1, utf8);
  }

  /** Whatever the bytes of a record, its metadata come out as an ordered map. */
  lemma DecodedOrdered(body: seq<Byte>, utf8: Utf8)
    ensures var r := Decode(body, utf8); r.Some? ==> Ordered(EntriesOf(r.value))
  {
    hide ReadMetadata, ReadInt, ReadWords, ReadString, Ordered;
    NothingOrdered();
    match ReadInt(body, 0, 1)
    case Bad =>
    case Got(tag, p) =>
      if tag == 1 {
        UpsertOrdered(body, p, utf8);
      } else if tag == 7 {
        UpdateOrdered(body, p, utf8);
      }
  }

  // ---------------------------------------------------------------------
  // Decoding inverts encoding
  // ---------------------------------------------------------------------

  lemma ReadsInt32(buf: seq<Byte>, pos: nat, n: nat)
    requires At(buf, pos, U32(n)) && n < U32_SIZE
    ensures ReadInt(buf, pos, 4) == Got(n, pos + 4)
  {
    ReadsU32(buf, pos, n);
  }

  lemma ReadsInt64(buf: seq<Byte>, pos: nat, n: nat)
    requires At(buf, pos, U64(n)) && n < U64_SIZE
    ensures ReadInt(buf, pos, 8) == Got(n, pos + 8)
  {
    ReadsU64(buf, pos, n);
  }

  lemma ReadsTag(buf: seq<Byte>, pos: nat, b: Byte)
    requires At(buf, pos, [b])
    ensures ReadInt(buf, pos, 1) == Got(b, pos + 1)
  {
    ReadsByte(buf, pos, b);
  }

  lemma ReadsString(buf: seq<Byte>, pos: nat, s: seq<Byte>, utf8: Utf8)
    requires At(buf, pos, PutString(s)) && StringOk(s, utf8)
    ensures ReadString(buf, pos, utf8) == Got(s, pos + |PutString(s)|)
  {
    AtSplit(buf, pos, U32(|s|), s);
    ReadsInt32(buf, pos, |s|);
  }

  lemma ReadsValue(buf: seq<Byte>, pos: nat, v: Value, utf8: Utf8)
    requires At(buf, pos, PutValue(v)) && ValueOk(v, utf8)
    ensures ReadValue(buf, pos, utf8) == Got(v, pos + |PutValue(v)|)
  {
    hide At, U64, PutString, ReadInt, ReadString;
    match v {
      case WStr(s) =>
        AtSplit(buf, pos, [0], PutString(s));
        ReadsTag(buf, pos, 0);
        ReadsString(buf, pos + 1, s, utf8);
      case WInt(i) =>
        AtSplit(buf, pos, [1], U64(Bits64(i)));
        ReadsTag(buf, pos, 1);
        ReadsInt64(buf, pos + 1, Bits64(i));
      case WFloat(bits) =>
        AtSplit(buf, pos, [2], U64(bits));
        ReadsTag(buf, pos, 2);
        ReadsInt64(buf, pos + 1, bits);
      case WBool(b) =>
        AtSplit(buf, pos, [3], [if b then 1 else 0]);
        ReadsTag(buf, pos, 3);
        ReadsTag(buf, pos + 1, if b then 1 else 0);
    }
  }

  /** Entries in key order are rebuilt one by one, each behind the last. */
  lemma {:induction false} ReadsEntries(buf: seq<Byte>, pos: nat, acc: Entries, m: Entries, utf8: Utf8)
    requires pos <= |buf| && At(buf, pos, PutEntries(m)) && Ordered(acc + m)
    requires forall i :: 0 <= i < |m| ==> StringOk(m[i].0, utf8) && ValueOk(m[i].1, utf8)
    ensures ReadEntries(buf, pos, |m|, acc, utf8) == Got(acc + m, pos + |PutEntries(m)|)
    decreases |m|
  {
    hide At, PutString, PutValue, ReadString, ReadValue, StringOk, ValueOk, Insert, Ordered;
    if m == [] {
      assert acc + m == acc;
    } else {
      EntryReads(buf, pos, m, utf8);
      InsertLast(acc, m[0].0, m[0].1, m);
      assert acc + [m[0]] + m[1..] == acc + m;
      var next := pos + |PutString(m[0].0)| + |PutValue(m[0].1)|;
      ReadsEntries(buf, next, acc + [m[0]], m[1..], utf8);
    }
  }

  lemma EntryReads(buf: seq<Byte>, pos: nat, m: Entries, utf8: Utf8)
    requires At(buf, pos, PutEntries(m)) && m != [] && StringOk(m[0].0, utf8) && ValueOk(m[0].1, utf8)
    ensures ReadString(buf, pos, utf8) == Got(m[0].0, pos + |PutString(m[0].0)|)
    ensures ReadValue(buf, pos + |PutString(m[0].0)|, utf8) == Got(m[0].1,
        pos + |PutString(m[0].0)| + |PutValue(m[0].1)|)
    ensures At(buf, pos + |PutString(m[0].0)| + |PutValue(m[0].1)|, PutEntries(m[1..]))
  {
    hide At, PutString, PutValue, ReadString, ReadValue, StringOk, ValueOk;
    var key, value := m[0].0, m[0].1;
    AtSplit(buf, pos, PutString(key) + PutValue(value), PutEntries(m[1..]));
    AtSplit(buf, pos, PutString(key), PutValue(value));
    ReadsString(buf, pos, key, utf8);
    ReadsValue(buf, pos + |PutString(key)|, value, utf8);
  }

  lemma InsertLast(acc: Entries, key: seq<Byte>, value: Value, m: Entries)
    requires m != [] && m[0] == (key, value) && Ordered(acc + m)
    ensures Insert(acc, key, value) == acc + [m[0]]
  {
    if acc != [] {
      assert (acc + m)[|acc| - 1] == acc[|acc| - 1] && (acc + m)[|acc|] == m[0];
    }
  }

  lemma ReadsMetadata(buf: seq<Byte>, pos: nat, m: Entries, utf8: Utf8)
    requires At(buf, pos, PutMetadata(m)) && MetaOk(m, utf8)
    ensures ReadMetadata(buf, pos, utf8) == Got(m, pos + |PutMetadata(m)|)
  {
    hide PutEntries, ReadEntries, ReadInt, U32;
    AtSplit(buf, pos, U32(|m|), PutEntries(m));
    ReadsInt32(buf, pos, |m|);
    assert [] + m == m;
    ReadsEntries(buf, pos + 4, [], m, utf8);
  }

  lemma ReadsVector(buf: seq<Byte>, pos: nat, ws: seq<nat>)
    requires At(buf, pos, Words(ws)) && Small(ws)
    ensures ReadWords(buf, pos, |ws|) == Got(ws, pos + |Words(ws)|)
  {
    ReadsWords(buf, pos, ws);
  }

  lemma FiveParts(buf: seq<Byte>, t: seq<Byte>, a: seq<Byte>, b: seq<Byte>, c: seq<Byte>, d: seq<Byte>)
    requires At(buf, 0, t + a + b + c + d)
    ensures At(buf, 0, t) && At(buf, |t|, a) && At(buf, |t| + |a|, b) && At(buf, |t| + |a| + |b|, c)
    ensures At(buf, |t| + |a| + |b| + |c|, d)
  {
    hide At;
    AtSplit(buf, 0, t + a + b + c, d);
    AtSplit(buf, 0, t + a + b, c);
    AtSplit(buf, 0, t + a, b);
    AtSplit(buf, 0, t, a);
  }

  lemma UpsertReads(r: Record, utf8: Utf8, buf: seq<Byte>)
    requires r.Upsert? && RecordOk(r, utf8) && buf == Encoded(r)
    ensures ReadUpsert(buf, 1, utf8) == Got(r, |buf|)
  {
    hide At, U32, U64, Words, PutMetadata, ReadInt, ReadWords, ReadMetadata, Small, MetaOk;
    UpsertParts(r, buf);
    ReadsInt32(buf, 1, r.cid);
    ReadsInt64(buf, 5, r.id);
    ReadsInt32(buf, 13, |r.vector|);
    ReadsVector(buf, 17, r.vector);
    ReadsMetadata(buf, 17 + |Words(r.vector)|, r.meta, utf8);
  }

  lemma UpsertParts(r: Record, buf: seq<Byte>)
    requires r.Upsert? && buf == Encoded(r)
    ensures At(buf, 1, U32(r.cid)) && At(buf, 5, U64(r.id)) && At(buf, 13, U32(|r.vector|))
    ensures At(buf, 17, Words(r.vector)) && At(buf, 17 + |Words(r.vector)|, PutMetadata(r.meta))
    ensures |buf| == 17 + |Words(r.vector)| + |PutMetadata(r.meta)|
  {
    hide At, U32, U64, Words, PutMetadata;
    var t, a, b, c, d, e := [1], U32(r.cid), U64(r.id), U32(|r.vector|), Words(r.vector), PutMetadata(r.meta);
    AtWhole(buf);
    AtSplit(buf, 0, t + a + b + c + d, e);
    FiveParts(buf, t, a, b, c, d);
  }

  lemma CreateReads(r: Record, utf8: Utf8, buf: seq<Byte>)
    requires r.CreateCollection? && RecordOk(r, utf8) && buf == Encoded(r)
    ensures ReadCreate(buf, 1, utf8) == Got(r, |buf|)
  {
    hide At, U32, PutString, ReadInt, ReadString, StringOk;
    AtWhole(buf);
    FiveParts(buf, [3], U32(r.cid), PutString(r.name), U32(r.dim), [MetricTag(r.metric)]);
    ReadsInt32(buf, 1, r.cid);
    ReadsString(buf, 5, r.name, utf8);
    ReadsInt32(buf, 5 + |PutString(r.name)|, r.dim);
    ReadsTag(buf, 9 + |PutString(r.name)|, MetricTag(r.metric));
  }

  lemma TwoNumbers(buf: seq<Byte>, t: seq<Byte>, a: seq<Byte>, b: seq<Byte>)
    requires buf == t + a + b
    ensures At(buf, 0, t) && At(buf, |t|, a) && At(buf, |t| + |a|, b)
  {
    AtWhole(buf);
    AtSplit(buf, 0, t + a, b);
    AtSplit(buf, 0, t, a);
  }

  lemma RestReads(r: Record, utf8: Utf8, buf: seq<Byte>)
    requires !r.Upsert? && !r.CreateCollection? && RecordOk(r, utf8) && buf == Encoded(r)
    ensures ReadRest(buf, buf[0], 1, utf8) == Got(r, |buf|)
  {
    hide At, U32, U64, PutString, PutMetadata, ReadInt, ReadString, ReadMetadata, StringOk, MetaOk, ReadUpsert,
         ReadCreate;
    match r {
      case Delete(cid, id) =>
        TwoNumbers(buf, [2], U32(cid), U64(id));
        ReadsInt32(buf, 1, cid);
        ReadsInt64(buf, 5, id);
      case DropCollection(cid) =>
        assert [4] + U32(cid) + [] == [4] + U32(cid);
        TwoNumbers(buf, [4], U32(cid), []);
        ReadsInt32(buf, 1, cid);
      case RenameCollection(cid, name) =>
        TwoNumbers(buf, [5], U32(cid), PutString(name));
        ReadsInt32(buf, 1, cid);
        ReadsString(buf, 5, name, utf8);
      case SwapCollectionNames(a, b) =>
        TwoNumbers(buf, [6], U32(a), U32(b));
        ReadsInt32(buf, 1, a);
        ReadsInt32(buf, 5, b);
      case UpdateMeta(cid, id, meta) =>
        TwoNumbers(buf, [7] + U32(cid), U64(id), PutMetadata(meta));
        AtSplit(buf, 0, [7], U32(cid));
        ReadsInt32(buf, 1, cid);
        ReadsInt64(buf, 5, id);
        ReadsMetadata(buf, 13, meta, utf8);
    }
  }

  lemma TagReads(r: Record, utf8: Utf8)
    ensures Encoded(r) != [] && ReadInt(Encoded(r), 0, 1) == Got(Encoded(r)[0], 1)
    ensures Encoded(r)[0] ==
      match r
      case Upsert(_, _, _, _) => 1
      case Delete(_, _) => 2
      case CreateCollection(_, _, _, _) => 3
      case DropCollection(_) => 4
      case RenameCollection(_, _) => 5
      case SwapCollectionNames(_, _) => 6
      case UpdateMeta(_, _, _) => 7
  {
    hide U32, U64, Words, PutString, PutMetadata, FromLe;
    var buf := Encoded(r);
    assert buf[0..1] == [buf[0]];
    ReadsByte(buf, 0, buf[0]);
  }

  /** Decoding an encoded record of any of the seven types gives the record back. */
  lemma RecordRoundTrip(r: Record, utf8: Utf8)
    requires RecordOk(r, utf8)
    ensures Decode(Encoded(r), utf8) == Some(r)
  {
    TagReads(r, utf8);
    hide Encoded, RecordOk, ReadInt, ReadUpsert, ReadCreate;
    if r.Upsert? {
      UpsertReads(r, utf8, Encoded(r));
    } else if r.CreateCollection? {
      CreateReads(r, utf8, Encoded(r));
    } else {
      hide ReadRest;
      RestReads(r, utf8, Encoded(r));
    }
  }
}
