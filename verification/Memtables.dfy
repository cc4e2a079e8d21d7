/** The in-memory write buffer: upserts, delete markers and byte accounting. */
module Memtables {
  import opened Records

  /** The value of a memtable: rows by id, and delete markers. A segment has the same value. */
  datatype Table = Table(rows: map<Id, StoredRecord>, deletes: set<Id>) {
    /** No id is both a row and a delete marker. */
    ghost predicate Valid() {
      rows.Keys !! deletes
    }

    predicate IsEmpty() {
      rows == map[] && deletes == {}
    }

    /** True if this table decides the fate of `id`, whatever older tables say. */
    predicate Mentions(id: Id) {
      id in rows || id in deletes
    }

    function Upsert(id: Id, rec: StoredRecord): (t: Table)
      ensures Valid() ==> t.Valid()
    {
      Table(rows[id := rec], deletes - {id})
    }

    function Delete(id: Id): (t: Table)
      ensures Valid() ==> t.Valid()
    {
      Table(rows - {id}, deletes + {id})
    }
  }

  const EMPTY_TABLE := Table(map[], {})

  /** Total weight of a set of rows; the choice of element does not matter (SumRemove). */
  ghost function Weight(rows: map<Id, StoredRecord>, w: StoredRecord -> nat): nat
    decreases |rows|
  {
    if rows == map[] then 0 else
      var id :| id in rows;
      w(rows[id]) + Weight(rows - {id}, w)
  }

  lemma {:induction false} SumRemove(rows: map<Id, StoredRecord>, w: StoredRecord -> nat, id: Id)
    requires id in rows
    ensures Weight(rows, w) == w(rows[id]) + Weight(rows - {id}, w)
    decreases |rows|
  {
    var first :| first in rows && Weight(rows, w) == w(rows[first]) + Weight(rows - {first}, w);
    if first != id {
      SumRemove(rows - {first}, w, id);
      SumRemove(rows - {id}, w, first);
      assert rows - {first} - {id} == rows - {id} - {first};
    }
  }

  lemma {:induction false} SumInsert(rows: map<Id, StoredRecord>, w: StoredRecord -> nat, id: Id, rec: StoredRecord)
    ensures Weight(rows[id := rec], w) == w(rec) + Weight(rows - {id}, w)
  {
    SumRemove(rows[id := rec], w, id);
    assert rows[id := rec] - {id} == rows - {id};
  }

  /** The mutable memtable. `weigh` stands for `StoredRecord::approx_bytes`. */
  class Memtable {
    const weigh: StoredRecord -> nat
    var upserts: map<Id, StoredRecord>
    var deletes: set<Id>
    var bytes: int

    /** Rows and delete markers are disjoint, and `bytes` is the weight of the rows. */
    ghost predicate Valid()
      reads this
    {
      Value().Valid() && bytes == Weight(upserts, weigh)
    }

    function Value(): Table
      reads this
    {
      Table(upserts, deletes)
    }

    constructor (weigh: StoredRecord -> nat)
      ensures Valid() && Value() == EMPTY_TABLE && this.weigh == weigh
    {
      this.weigh := weigh;
      upserts, deletes, bytes := map[], {}, 0;
    }

    method Upsert(id: Id, record: StoredRecord)
      requires Valid()
      modifies this
      ensures Valid() && Value() == old(Value()).Upsert(id, record)
    {
      deletes := deletes - {id};
      bytes := bytes + weigh(record);
      SumInsert(upserts, weigh, id, record);
      if id in upserts {
        SumRemove(upserts, weigh, id);
        bytes := bytes - weigh(upserts[id]);
      } else {
        assert upserts - {id} == upserts;
      }
      upserts := upserts[id := record];
    }

    method Delete(id: Id)
      requires Valid()
      modifies this
      ensures Valid() && Value() == old(Value()).Delete(id)
    {
      if id in upserts {
        SumRemove(upserts, weigh, id);
        bytes := bytes - weigh(upserts[id]);
      } else {
        assert upserts - {id} == upserts;
      }
      upserts := upserts - {id};
      deletes := deletes + {id};
    }
  }
}
