/** The codec as it is written: encoders that append to a buffer, decoders that advance one `Reader`. */
module WalCodec {
  import opened Records
  import opened Bytes
  import opened Wire

  lemma {:induction false} EntriesSnoc(m: Entries, e: (seq<Byte>, Value))
    ensures PutEntries(m + [e]) == PutEntries(m) + PutString(e.0) + PutValue(e.1)
  {
    hide PutString, PutValue;
    if m == [] {
      assert m + [e] == [e] && [e][1..] == [];
    } else {
      assert (m + [e])[1..] == m[1..] + [e];
      EntriesSnoc(m[1..], e);
    }
  }

  /** `put_metadata` */
  method AppendMetadata(out: seq<Byte>, m: Entries) returns (out': seq<Byte>)
    ensures out' == out + PutMetadata(m)
  {
    hide PutString, PutValue, U32;
    out' := out + U32(|m|);
    ghost var start := out';
    for i := 0 to |m|
      invariant out' == start + PutEntries(m[..i])
    {
      assert m[..i + 1] == m[..i] + [m[i]];
      EntriesSnoc(m[..i], m[i]);
      out' := out' + PutString(m[i].0);
      out' := out' + PutValue(m[i].1);
    }
    assert m[..|m|] == m;
  }

  /** `put_f32_slice` */
  method AppendWords(out: seq<Byte>, ws: seq<nat>) returns (out': seq<Byte>)
    ensures out' == out + Words(ws)
  {
    hide U32;
    out' := out;
    for i := 0 to |ws|
      invariant out' == out + Words(ws[..i])
    {
      WordsAppend(ws[..i], [ws[i]]);
      assert ws[..i + 1] == ws[..i] + [ws[i]];
      assert [ws[i]][1..] == [];
      assert Words([ws[i]]) == U32(ws[i]) + [];
      out' := out' + U32(ws[i]);
    }
    assert ws[..|ws|] == ws;
  }

  /** `WalRecord::encode` */
  method Encode(r: Record) returns (body: seq<Byte>)
    ensures body == Encoded(r)
  {
    hide U32, U64, PutString, PutMetadata, Words;
    match r {
      case Upsert(cid, id, vector, meta) =>
        body := [1] + U32(cid) + U64(id) + U32(|vector|);
        body := AppendWords(body, vector);
        body := AppendMetadata(body, meta);
      case Delete(cid, id) => body := [2] + U32(cid) + U64(id);
      case CreateCollection(cid, name, dim, metric) => body := [3] + U32(cid) + PutString(name) + U32(dim)
          + [MetricTag(metric)];
      case DropCollection(cid) => body := [4] + U32(cid);
      case RenameCollection(cid, newName) => body := [5] + U32(cid) + PutString(newName);
      case SwapCollectionNames(a, b) => body := [6] + U32(a) + U32(b);
      case UpdateMeta(cid, id, meta) =>
        body := [7] + U32(cid) + U64(id);
        body := AppendMetadata(body, meta);
    }
  }

  /** A read at the cursor: the value, or nothing and an abandoned cursor. */
  ghost predicate Advances<T>(r: Option<T>, got: Got<T>, pos: nat) {
    match got
    case Bad => r.None?
    case Got(v, p) => r == Some(v) && pos == p
  }

  method TakeString(reader: Reader, utf8: Utf8) returns (r: Option<seq<Byte>>)
    requires reader.Valid()
    modifies reader`pos
    ensures reader.Valid() && Advances(r, ReadString(reader.buf, old(reader.pos), utf8), reader.pos)
  {
    var len := reader.TakeInt(4);
    if len.None? {
      return None;
    }
    var bytes := reader.Take(len.value);
    if bytes.None? || !utf8(bytes.value) {
      return None;
    }
    return bytes;
  }

  method TakeValue(reader: Reader, utf8: Utf8) returns (r: Option<Value>)
    requires reader.Valid()
    modifies reader`pos
    ensures reader.Valid() && Advances(r, ReadValue(reader.buf, old(reader.pos), utf8), reader.pos)
  {
    hide FromLe, ReadString;
    var tag := reader.TakeInt(1);
    if tag.None? {
      return None;
    }
    if tag.value == 0 {
      var s := TakeString(reader, utf8);
      return if s.Some? then Some(WStr(s.value)) else None;
    } else if tag.value == 1 {
      var n := reader.TakeInt(8);
      return if n.Some? then Some(WInt(SignedOf(n.value))) else None;
    } else if tag.value == 2 {
      var n := reader.TakeInt(8);
      return if n.Some? then Some(WFloat(n.value)) else None;
    } else if tag.value == 3 {
      var n := reader.TakeInt(1);
      return if n.Some? && n.value <= 1 then Some(WBool(n.value == 1)) else None;
    }
    return None;
  }

  lemma EntriesStep(buf: seq<Byte>, pos: nat, count: nat, acc: Entries, utf8: Utf8)
    requires pos <= |buf| && count > 0
    ensures ReadEntries(buf, pos, count, acc, utf8) ==
            match ReadString(buf, pos, utf8)
            case Bad => Bad
            case Got(key, p) =>
              match ReadValue(buf, p, utf8)
              case Bad => Bad
              case Got(value, q) => ReadEntries(buf, q, count - 1, Insert(acc, key, value), utf8)
  {
  }

  /** `read_metadata` */
  method TakeMetadata(reader: Reader, utf8: Utf8) returns (r: Option<Entries>)
    requires reader.Valid()
    modifies reader`pos
    ensures reader.Valid() && Advances(r, ReadMetadata(reader.buf, old(reader.pos), utf8), reader.pos)
  {
    hide FromLe, ReadEntries;
    var count := reader.TakeInt(4);
    if count.None? {
      return None;
    }
    r := TakeEntries(reader, count.value, utf8);
  }

  method TakeEntries(reader: Reader, count: nat, utf8: Utf8) returns (r: Option<Entries>)
    requires reader.Valid()
    modifies reader`pos
    ensures reader.Valid() && Advances(r, ReadEntries(reader.buf, old(reader.pos), count, [], utf8), reader.pos)
  {
    var meta: Entries := [];
    hide ReadEntries, ReadString, ReadValue, Insert;
    for i := 0 to count
      invariant reader.Valid()
      invariant ReadEntries(reader.buf, old(reader.pos), count, [], utf8)
          == ReadEntries(reader.buf, reader.pos, count - i, meta, utf8)
    {
      EntriesStep(reader.buf, reader.pos, count - i, meta, utf8);
      var key := TakeString(reader, utf8);
      if key.None? {
        return None;
      }
      var value := TakeValue(reader, utf8);
      if value.None? {
        return None;
      }
      meta := Insert(meta, key.value, value.value);
    }
    EntriesEnd(reader.buf, reader.pos, meta, utf8);
    return Some(meta);
  }

  lemma EntriesEnd(buf: seq<Byte>, pos: nat, acc: Entries, utf8: Utf8)
    requires pos <= |buf|
    ensures ReadEntries(buf, pos, 0, acc, utf8) == Got(acc, pos)
  {
  }

  method TakeUpsert(reader: Reader, utf8: Utf8) returns (r: Option<Record>)
    requires reader.Valid()
    modifies reader`pos
    ensures reader.Valid() && Advances(r, ReadUpsert(reader.buf, old(reader.pos), utf8), reader.pos)
  {
    hide FromLe, ReadMetadata, GetWords;
    var cid := reader.TakeInt(4);
    if cid.None? {
      return None;
    }
    var id := reader.TakeInt(8);
    if id.None? {
      return None;
    }
    var dim := reader.TakeInt(4);
    if dim.None? {
      return None;
    }
    var vector := GetWords(reader.buf, reader.pos, dim.value);
    if vector.None? {
      return None;
    }
    var skipped := reader.Take(4 * dim.value);
    var meta := TakeMetadata(reader, utf8);
    if meta.None? {
      return None;
    }
    return Some(Upsert(cid.value, id.value, vector.value, meta.value));
  }

  method TakeCreate(reader: Reader, utf8: Utf8) returns (r: Option<Record>)
    requires reader.Valid()
    modifies reader`pos
    ensures reader.Valid() && Advances(r, ReadCreate(reader.buf, old(reader.pos), utf8), reader.pos)
  {
    hide FromLe, ReadString;
    var cid := reader.TakeInt(4);
    if cid.None? {
      return None;
    }
    var name := TakeString(reader, utf8);
    if name.None? {
      return None;
    }
    var dim := reader.TakeInt(4);
    if dim.None? {
      return None;
    }
    var tag := reader.TakeInt(1);
    if tag.None? || MetricOf(tag.value).None? {
      return None;
    }
    return Some(CreateCollection(cid.value, name.value, dim.value, MetricOf(tag.value).value));
  }

  /** The remaining record types: at most two fields after the collection id. */
  method TakeRest(reader: Reader, tag: nat, utf8: Utf8) returns (r: Option<Record>)
    requires reader.Valid() && tag != 1 && tag != 3
    modifies reader`pos
    ensures reader.Valid() && Advances(r, ReadRest(reader.buf, tag, old(reader.pos), utf8), reader.pos)
  {
    hide FromLe, ReadString, ReadMetadata, ReadUpsert, ReadCreate;
    if tag < 2 || tag > 7 {
      return None;
    }
    var cid := reader.TakeInt(4);
    if cid.None? {
      return None;
    }
    if tag == 4 {
      return Some(DropCollection(cid.value));
    } else if tag == 5 {
      var name := TakeString(reader, utf8);
      return if name.Some? then Some(RenameCollection(cid.value, name.value)) else None;
    } else if tag == 6 {
      var b := reader.TakeInt(4);
      return if b.Some? then Some(SwapCollectionNames(cid.value, b.value)) else None;
    }
    var id := reader.TakeInt(8);
    if id.None? {
      return None;
    }
    if tag == 2 {
      return Some(Delete(cid.value, id.value));
    }
    var meta := TakeMetadata(reader, utf8);
    return if meta.Some? then Some(UpdateMeta(cid.value, id.value, meta.value)) else None;
  }

  /** `WalRecord::decode` */
  method DecodeRecord(body: seq<Byte>, utf8: Utf8) returns (r: Option<Record>)
    ensures r == Decode(body, utf8)
  {
    hide FromLe, ReadUpsert, ReadCreate;
    var reader := new Reader(body);
    var tag := reader.TakeInt(1);
    if tag.None? {
      return None;
    }
    var rec;
    if tag.value == 1 {
      rec := TakeUpsert(reader, utf8);
    } else if tag.value == 3 {
      rec := TakeCreate(reader, utf8);
    } else {
      rec := TakeRest(reader, tag.value, utf8);
    }
    if rec.None? || reader.pos != |body| {
      return None;
    }
    return rec;
  }
}
