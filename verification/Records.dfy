/** Values shared by every part of the model: ids, records, metadata, options. */
module Records {

  /** A record id, a `u64`. */
  type Id = nat

  /** A collection id, a `u32`. */
  type Cid = nat

  ghost predicate Distinct(s: seq<nat>) {
    forall i, j :: 0 <= i < j < |s| ==> s[i] != s[j]
  }

  ghost function Elements(s: seq<nat>): set<nat> {
    set x | x in s
  }

  lemma {:induction false} DistinctCount(s: seq<nat>)
    requires Distinct(s)
    ensures |Elements(s)| == |s|
  {
    if s != [] {
      var last := s[|s| - 1];
      assert s == s[..|s| - 1] + [last];
      assert Elements(s) == Elements(s[..|s| - 1]) + {last};
      DistinctCount(s[..|s| - 1]);
    } else {
      assert Elements(s) == {};
    }
  }

  /** The numbers below `n`, as a set of that size. */
  function Below(n: nat): (s: set<nat>)
    ensures |s| == n && forall v: nat :: v in s <==> v < n
  {
    if n == 0 then {} else Below(n - 1) + {n - 1}
  }

  datatype Option<+T> = None | Some(value: T)

  datatype Metric = L2 | Cosine | Dot

  datatype MetaValue = Str(s: string) | Int(i: int) | Float(f: real) | Bool(b: bool)

  type Metadata = map<string, MetaValue>

  type Filter = Metadata -> bool

  /** A validated record; vectors are copied, never computed with, by the store. */
  datatype StoredRecord = StoredRecord(vector: seq<real>, metadata: Metadata)

  /** Ids at or above this value are assigned by the store to string ids. */
  const EXT_ID_BASE: Id := 0x8000_0000_0000_0000

  /** The reserved metadata key that carries a record's string id. */
  const EXT_ID_META_KEY: string := "_ext_id"

  /** The string id carried by a record's metadata, if any. */
  function ExtOf(metadata: Metadata): Option<string> {
    if EXT_ID_META_KEY in metadata && metadata[EXT_ID_META_KEY].Str?
    then Some(metadata[EXT_ID_META_KEY].s)
    else None
  }
}
