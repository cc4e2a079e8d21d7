/**
 * Exact search: bounded-heap top-k over one source (`search_flat`), and the merge of the per-source
 * answers over shadowed sources (`memtable_candidates`, the flat path of `segment`, `finalize`).
 */
module Query {
  import opened SearchLayers

  // ---------------------------------------------------------------------
  // Top k of a set
  // ---------------------------------------------------------------------

  ghost function Items(s: seq<Keyed>): (r: set<Keyed>)
    ensures forall x :: x in r <==> x in s
  {
    set x | x in s
  }

  /** The `k` smallest elements by (key, id), in order; all of them when there are fewer. */
  ghost predicate IsTopK(r: seq<Keyed>, s: set<Keyed>, k: nat) {
    && Sorted(r) && |r| <= k && (forall x :: x in r ==> x in s)
    && (forall x :: x in s && x !in r ==> |r| == k && forall y :: y in r ==> Less(y, x))
  }

  lemma LessTotal(a: Keyed, b: Keyed)
    ensures a == b || Less(a, b) || Less(b, a)
    ensures !(Less(a, b) && Less(b, a))
  {
  }

  lemma SortedItems(r: seq<Keyed>)
    requires Sorted(r)
    ensures |Items(r)| == |r|
  {
    if r != [] {
      var front, last := r[..|r| - 1], r[|r| - 1];
      SortedItems(front);
      assert Items(r) == Items(front) + {last};
      assert last !in front;
    }
  }

  lemma SubsetSizes(a: set<Keyed>, b: set<Keyed>)
    requires a <= b
    ensures |a| <= |b| && (|a| == |b| ==> a == b)
  {
    assert b == a + (b - a);
    assert |b| == |a| + |b - a|;
  }

  /** Two lists of at most `k` elements: if one of them has an element too many, the other lacks one. */
  lemma Lacking(a: seq<Keyed>, b: seq<Keyed>, x: Keyed) returns (y: Keyed)
    requires Sorted(a) && Sorted(b) && |a| <= |b| && x in a && x !in b
    ensures y in b && y !in a
  {
    SortedItems(a);
    SortedItems(b);
    if Items(b) <= Items(a) - {x} {
      SubsetSizes(Items(b), Items(a) - {x});
      assert false;
    }
    y :| y in Items(b) && y !in Items(a) - {x};
  }

  lemma TopKContains(r1: seq<Keyed>, r2: seq<Keyed>, s: set<Keyed>, k: nat, x: Keyed)
    requires IsTopK(r1, s, k) && IsTopK(r2, s, k) && x in r1
    ensures x in r2
  {
    if x !in r2 {
      var y := Lacking(r1, r2, x);
      LessTotal(x, y);
      assert false;
    }
  }

  /** A set has only one top-k. */
  lemma TopKUnique(r1: seq<Keyed>, r2: seq<Keyed>, s: set<Keyed>, k: nat)
    requires IsTopK(r1, s, k) && IsTopK(r2, s, k)
    ensures r1 == r2
  {
    forall x ensures x in r1 <==> x in r2 {
      if x in r1 {
        TopKContains(r1, r2, s, k, x);
      } else if x in r2 {
        TopKContains(r2, r1, s, k, x);
      }
    }
    SameItems(r1, r2);
  }

  lemma LastIsGreatest(r: seq<Keyed>, x: Keyed)
    requires Sorted(r) && x in r
    ensures r != [] && (x == r[|r| - 1] || Less(x, r[|r| - 1])) && r[|r| - 1] in r
    ensures x in r[..|r| - 1] <==> x != r[|r| - 1]
  {
    var i :| 0 <= i < |r| && r[i] == x;
    if i < |r| - 1 {
      assert r[..|r| - 1][i] == x;
    }
  }

  lemma {:induction false} SameItems(r1: seq<Keyed>, r2: seq<Keyed>)
    requires Sorted(r1) && Sorted(r2) && forall x :: x in r1 <==> x in r2
    ensures r1 == r2
  {
    if r1 != [] {
      var last := r1[|r1| - 1];
      assert last in r2;
      LastIsGreatest(r2, last);
      var other := r2[|r2| - 1];
      LastIsGreatest(r1, other);
      LessTotal(last, other);
      var f1, f2 := r1[..|r1| - 1], r2[..|r2| - 1];
      forall x ensures x in f1 <==> x in f2 {
        if x in r1 {
          LastIsGreatest(r1, x);
          LastIsGreatest(r2, x);
        }
      }
      SameItems(f1, f2);
    } else if r2 != [] {
      LastIsGreatest(r2, r2[0]);
      assert false;
    }
  }

  // ---------------------------------------------------------------------
  // search_flat
  // ---------------------------------------------------------------------

  /** The accepted candidates among the first `n`. */
  ghost function AcceptedOf(candidates: seq<Keyed>, accept: nat -> bool, n: nat): set<Keyed>
    requires n <= |candidates|
  {
    set i | 0 <= i < n && accept(candidates[i].node) :: candidates[i]
  }

  /** `search_flat` over one source: a heap of at most `k` entries, furthest on top. */
  method SearchFlat(candidates: seq<Keyed>, accept: nat -> bool, k: nat) returns (r: seq<Keyed>)
    requires DistinctNodes(candidates)
    ensures IsTopK(r, AcceptedOf(candidates, accept, |candidates|), k)
  {
    r := [];
    if k == 0 {
      return;
    }
    for i := 0 to |candidates|
      invariant IsTopK(r, AcceptedOf(candidates, accept, i), k)
    {
      var x := candidates[i];
      AcceptedSnoc(candidates, accept, i);
      if accept(x.node) {
        NewNode(candidates, accept, i, r, k);
        if |r| < k {
          r := PushItem(r, x);
        } else {
          var top := r[|r| - 1];
          if x.key < top.key || (x.key == top.key && x.node < top.node) {
            ghost var was := r;
            r := PushItem(r[..|r| - 1], x);
            Replaced(was, x, r, AcceptedOf(candidates, accept, i), k);
          } else {
            TooFar(r, x, AcceptedOf(candidates, accept, i), k);
          }
        }
      }
    }
  }

  lemma AcceptedSnoc(candidates: seq<Keyed>, accept: nat -> bool, i: nat)
    requires i < |candidates|
    ensures AcceptedOf(candidates, accept, i + 1)
            == AcceptedOf(candidates, accept, i) + if accept(candidates[i].node) then {candidates[i]} else {}
  {
  }

  lemma NewNode(candidates: seq<Keyed>, accept: nat -> bool, i: nat, r: seq<Keyed>, k: nat)
    requires DistinctNodes(candidates) && i < |candidates| && IsTopK(r, AcceptedOf(candidates, accept, i), k)
    ensures candidates[i] !in AcceptedOf(candidates, accept, i) && candidates[i].node !in Nodes(r)
  {
    forall j | 0 <= j < |r| ensures r[j].node != candidates[i].node {
      assert r[j] in r;
    }
  }

  /** `push` on the ordered contents. */
  method PushItem(r: seq<Keyed>, x: Keyed) returns (r': seq<Keyed>)
    requires Sorted(r) && x.node !in Nodes(r)
    ensures Sorted(r') && |r'| == |r| + 1 && forall y :: y in r' <==> y in r || y == x
  {
    r' := Push(r, x);
    ghost var p :| 0 <= p <= |r| && r' == r[..p] + [x] + r[p..];
    Pushed(r, x, r', p);
  }

  lemma Replaced(was: seq<Keyed>, x: Keyed, r: seq<Keyed>, s: set<Keyed>, k: nat)
    requires IsTopK(was, s, k) && was != [] && |was| == k && Less(x, was[|was| - 1]) && x !in s
    requires Sorted(r) && |r| == |was| && forall y :: y in r <==> y in was[..|was| - 1] || y == x
    ensures IsTopK(r, s + {x}, k)
  {
    var top := was[|was| - 1];
    forall y | y in was ensures y == top || (y in was[..|was| - 1] && Less(y, top)) {
      var i :| 0 <= i < |was| && was[i] == y;
      assert i < |was| - 1 ==> was[..|was| - 1][i] == y;
    }
    forall y | y in r ensures Less(y, top) && y in s + {x} {
      if y != x {
        assert y in was;
      }
    }
    forall z | z in s + {x} && z !in r ensures forall y :: y in r ==> Less(y, z) {
      forall y | y in r ensures Less(y, z) {
        if z !in was {
          assert Less(top, z);
        }
      }
    }
  }

  lemma TooFar(r: seq<Keyed>, x: Keyed, s: set<Keyed>, k: nat)
    requires IsTopK(r, s, k) && r != [] && |r| == k && !Less(x, r[|r| - 1]) && x !in s
    ensures IsTopK(r, s + {x}, k)
  {
    var top := r[|r| - 1];
    assert top in r;
    forall y | y in r ensures Less(y, x) {
      var i :| 0 <= i < |r| && r[i] == y;
      assert i < |r| - 1 ==> Less(y, top);
      LessTotal(x, top);
    }
  }

  // ---------------------------------------------------------------------
  // Merging
  // ---------------------------------------------------------------------

  ghost function UnionOf(parts: seq<set<Keyed>>): set<Keyed> {
    if parts == [] then {} else UnionOf(parts[..|parts| - 1]) + parts[|parts| - 1]
  }

  /** A part may be cut to its own top k before the merge. */
  lemma CutPart(s: set<Keyed>, t: set<Keyed>, cut: seq<Keyed>, k: nat, r: seq<Keyed>)
    requires IsTopK(cut, t, k)
    ensures IsTopK(r, s + Items(cut), k) <==> IsTopK(r, s + t, k)
  {
    var small, all := s + Items(cut), s + t;
    if IsTopK(r, small, k) {
      forall x | x in all && x !in r ensures |r| == k && forall y :: y in r ==> Less(y, x) {
        if x !in small {
          // x was cut: k elements of `cut` are smaller than x; either all are results, or one of them bounds the
          // results
          CutAway(small, cut, t, k, r, x);
        }
      }
    }
    if IsTopK(r, all, k) {
      forall x | x in r ensures x in small {
        if x !in small {
          KeptBecauseCut(all, cut, t, k, r, x);
        }
      }
    }
  }

  lemma CutAway(small: set<Keyed>, cut: seq<Keyed>, t: set<Keyed>, k: nat, r: seq<Keyed>, x: Keyed)
    requires IsTopK(cut, t, k) && IsTopK(r, small, k) && Items(cut) <= small && x in t && x !in cut
    ensures |r| == k && forall y :: y in r ==> Less(y, x)
  {
    assert |cut| == k;
    if forall z :: z in cut ==> z in r {
      SortedItems(cut);
      SortedItems(r);
      SubsetSizes(Items(cut), Items(r));
    } else {
      var z :| z in cut && z !in r;
      assert Less(z, x);
    }
  }

  /** If a cut element were among the k smallest of everything, so would be the k elements that beat it. */
  lemma KeptBecauseCut(all: set<Keyed>, cut: seq<Keyed>, t: set<Keyed>, k: nat, r: seq<Keyed>, x: Keyed)
    requires IsTopK(cut, t, k) && IsTopK(r, all, k) && t <= all && x in t && x in r
    ensures x in cut
  {
    if x !in cut {
      var z := Lacking(r, cut, x);
      LessTotal(x, z);
      assert false;
    }
  }

  /** Every part may be cut: the top k of the union is the top k of the parts' top k. */
  lemma {:induction false} MergeTopK(parts: seq<set<Keyed>>, cuts: seq<seq<Keyed>>, k: nat, rest: set<Keyed>,
      r: seq<Keyed>)
    requires |cuts| == |parts| && forall i :: 0 <= i < |parts| ==> IsTopK(cuts[i], parts[i], k)
    ensures IsTopK(r, UnionOf(seq(|cuts|, i requires 0 <= i < |cuts| => Items(cuts[i]))) + rest, k)
        <==> IsTopK(r, UnionOf(parts) + rest, k)
    decreases |parts|
  {
    var items := seq(|cuts|, i requires 0 <= i < |cuts| => Items(cuts[i]));
    if parts == [] {
      assert items == [];
    } else {
      var n := |parts| - 1;
      var front := seq(|cuts[..n]|, i requires 0 <= i < |cuts[..n]| => Items(cuts[..n][i]));
      assert items[..n] == front;
      assert UnionOf(items) + rest == UnionOf(front) + rest + Items(cuts[n]);
      assert UnionOf(parts) + rest == UnionOf(parts[..n]) + (rest + parts[n]);
      CutPart(UnionOf(front) + rest, parts[n], cuts[n], k, r);
      assert UnionOf(front) + rest + parts[n] == UnionOf(front) + (rest + parts[n]);
      MergeTopK(parts[..n], cuts[..n], k, rest + parts[n], r);
    }
  }
}
