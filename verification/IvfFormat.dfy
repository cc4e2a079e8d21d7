/**
 * The inverted lists of an IVF segment: rows grouped by nearest coarse centroid, written as
 * prefix-sum offsets and one flat array of entries. The lists partition the rows, so probing
 * every list yields every row exactly once.
 */
module IvfFormat {
  import opened Records
  import opened Bytes
  import Segments

  const MAGIC_IVF: seq<Byte> := [72, 65, 77, 65, 78, 69, 67, 1]
  const IVF_HEADER_LEN: nat := 64

  // ---------------------------------------------------------------------
  // Lists
  // ---------------------------------------------------------------------

  /** The first `n` rows assigned to list `l`, ascending. */
  function ListOf(assign: seq<nat>, l: nat, n: nat): (rows: seq<nat>)
    requires n <= |assign|
  {
    if n == 0 then [] else ListOf(assign, l, n - 1) + if assign[n - 1] == l then [n - 1] else []
  }

  lemma {:induction false} ListFacts(assign: seq<nat>, l: nat, n: nat)
    requires n <= |assign|
    ensures Segments.Ascending(ListOf(assign, l, n))
    ensures forall i :: 0 <= i < |ListOf(assign, l, n)| ==> ListOf(assign, l, n)[i] < n
    ensures forall r: nat :: r in ListOf(assign, l, n) <==> r < n && assign[r] == l
  {
    if n > 0 {
      ListFacts(assign, l, n - 1);
    }
  }

  function Lists(assign: seq<nat>, nlist: nat, n: nat): (lists: seq<seq<nat>>)
    requires n <= |assign|
    ensures |lists| == nlist
  {
    seq(nlist, l requires 0 <= l < nlist => ListOf(assign, l, n))
  }

  /** The grouping loop of `write_ivf`. */
  method Group(assign: seq<nat>, nlist: nat) returns (lists: seq<seq<nat>>)
    requires forall r :: 0 <= r < |assign| ==> assign[r] < nlist
    ensures lists == Lists(assign, nlist, |assign|)
  {
    lists := seq(nlist, _ => []);
    for row := 0 to |assign|
      invariant lists == Lists(assign, nlist, row)
    {
      var l := assign[row];
      GroupNext(assign, nlist, row);
      lists := lists[l := lists[l] + [row]];
    }
  }

  lemma GroupNext(assign: seq<nat>, nlist: nat, row: nat)
    requires row < |assign| && assign[row] < nlist
    ensures
      var lists, l := Lists(assign, nlist, row), assign[row];
      lists[l := lists[l] + [row]] == Lists(assign, nlist, row + 1)
  {
    var lists, l := Lists(assign, nlist, row), assign[row];
    var left, right := lists[l := lists[l] + [row]], Lists(assign, nlist, row + 1);
    forall k | 0 <= k < nlist
      ensures left[k] == right[k]
    {
    }
  }

  function Concat(lists: seq<seq<nat>>): seq<nat> {
    if lists == [] then [] else Concat(lists[..|lists| - 1]) + lists[|lists| - 1]
  }

  function Offsets(lists: seq<seq<nat>>): (offsets: seq<nat>)
    ensures |offsets| == |lists| + 1
  {
    if lists == [] then [0]
    else
      var front := Offsets(lists[..|lists| - 1]);
      front + [front[|lists| - 1] + |lists[|lists| - 1]|]
  }

  /** The slice between two neighbouring offsets is the list between them. */
  lemma {:induction false} OffsetsCut(lists: seq<seq<nat>>, l: nat)
    requires l < |lists|
    ensures Offsets(lists)[|lists|] == |Concat(lists)|
    ensures Offsets(lists)[l] <= Offsets(lists)[l + 1] <= |Concat(lists)|
    ensures Concat(lists)[Offsets(lists)[l]..Offsets(lists)[l + 1]] == lists[l]
    decreases |lists|
  {
    var front := lists[..|lists| - 1];
    OffsetsLast(front);
    assert Offsets(lists)[..|lists|] == Offsets(front);
    if l < |lists| - 1 {
      OffsetsCut(front, l);
      assert Offsets(lists)[l] == Offsets(front)[l] && Offsets(lists)[l + 1] == Offsets(front)[l + 1];
    } else {
      assert Offsets(lists)[l] == |Concat(front)|;
    }
  }

  lemma {:induction false} OffsetsLast(lists: seq<seq<nat>>)
    ensures Offsets(lists)[|lists|] == |Concat(lists)|
    decreases |lists|
  {
    if lists != [] {
      OffsetsLast(lists[..|lists| - 1]);
    }
  }

  // ---------------------------------------------------------------------
  // Bytes
  // ---------------------------------------------------------------------

  /** `u64` words one after another. */
  function WideWords(ws: seq<nat>): (s: seq<Byte>)
    ensures |s| == 8 * |ws|
  {
    if ws == [] then [] else U64(ws[0]) + WideWords(ws[1..])
  }

  lemma {:induction false} WideAppend(a: seq<nat>, b: seq<nat>)
    ensures WideWords(a + b) == WideWords(a) + WideWords(b)
  {
    if a == [] {
      assert a + b == b;
    } else {
      assert (a + b)[1..] == a[1..] + b;
      WideAppend(a[1..], b);
    }
  }

  lemma {:induction false} WideAt(buf: seq<Byte>, pos: nat, ws: seq<nat>, i: nat)
    requires At(buf, pos, WideWords(ws)) && i < |ws| && ws[i] < U64_SIZE
    ensures pos + 8 * i + 8 <= |buf| && FromLe(buf[pos + 8 * i..pos + 8 * i + 8]) == ws[i]
    decreases i
  {
    hide Le;
    AtSplit(buf, pos, U64(ws[0]), WideWords(ws[1..]));
    if i == 0 {
      U64RoundTrip(ws[0]);
    } else {
      WideAt(buf, pos + 8, ws[1..], i - 1);
    }
  }

  lemma {:induction false} WordAt(buf: seq<Byte>, pos: nat, ws: seq<nat>, i: nat)
    requires At(buf, pos, Words(ws)) && i < |ws| && ws[i] < U32_SIZE
    ensures pos + 4 * i + 4 <= |buf| && FromLe(buf[pos + 4 * i..pos + 4 * i + 4]) == ws[i]
    decreases i
  {
    AtSplit(buf, pos, U32(ws[0]), Words(ws[1..]));
    if i == 0 {
      U32RoundTrip(ws[0]);
    } else {
      WordAt(buf, pos + 4, ws[1..], i - 1);
    }
  }

  function Header(dim: nat, count: nat, nlist: nat): (h: seq<Byte>)
    ensures |h| == IVF_HEADER_LEN
  {
    MAGIC_IVF + (U32(dim) + (U64(count) + (U32(nlist) + Zeros(40))))
  }

  /** The content of the file; centroids are the 32-bit words of their floats. */
  function Layout(dim: nat, centroids: seq<nat>, assign: seq<nat>, nlist: nat): seq<Byte> {
    var lists := Lists(assign, nlist, |assign|);
    Header(dim, |assign|, nlist) + (Words(centroids) + (WideWords(Offsets(lists)) + Words(Concat(lists))))
  }

  /** `write_ivf` after the k-means: `assign` is the nearest centroid of each row. */
  method WriteIvf(dim: nat, centroids: seq<nat>, assign: seq<nat>, nlist: nat) returns (buf: seq<Byte>)
    requires forall r :: 0 <= r < |assign| ==> assign[r] < nlist
    ensures buf == Layout(dim, centroids, assign, nlist)
  {
    hide Words, WideWords, Header, Offsets, Concat, Lists;
    var lists := Group(assign, nlist);
    buf := Header(dim, |assign|, nlist) + Words(centroids);
    buf := PutOffsets(buf, lists);
    buf := PutLists(buf, lists);
    assert buf == Header(dim, |assign|, nlist) + Words(centroids) + WideWords(Offsets(lists)) + Words(Concat(lists));
  }

  /** The prefix sums of the list lengths. */
  method PutOffsets(front: seq<Byte>, lists: seq<seq<nat>>) returns (buf: seq<Byte>)
    ensures buf == front + WideWords(Offsets(lists))
  {
    hide WideWords, U64;
    var offset: nat := 0;
    buf := front + U64(offset);
    WideOne(0);
    for l := 0 to |lists|
      invariant buf == front + WideWords(Offsets(lists[..l]))
      invariant offset == Offsets(lists[..l])[l]
    {
      OffsetsNext(lists, l);
      offset := offset + |lists[l]|;
      WideAppend(Offsets(lists[..l]), [offset]);
      WideOne(offset);
      buf := buf + U64(offset);
    }
    assert lists[..|lists|] == lists;
  }

  /** The entries of every list. */
  method PutLists(front: seq<Byte>, lists: seq<seq<nat>>) returns (buf: seq<Byte>)
    ensures buf == front + Words(Concat(lists))
  {
    hide Words;
    buf := front;
    EmptyWords();
    for l := 0 to |lists|
      invariant buf == front + Words(Concat(lists[..l]))
    {
      buf := PutRows(buf, lists[l]);
      WordsAppend(Concat(lists[..l]), lists[l]);
      assert lists[..l + 1][..l] == lists[..l];
    }
    assert lists[..|lists|] == lists;
  }

  lemma EmptyWords()
    ensures Words([]) == []
  {
  }

  lemma WideOne(n: nat)
    ensures WideWords([n]) == U64(n)
  {
    assert [n][1..] == [];
  }

  lemma OffsetsNext(lists: seq<seq<nat>>, l: nat)
    requires l < |lists|
    ensures Offsets(lists[..l + 1]) == Offsets(lists[..l]) + [Offsets(lists[..l])[l] + |lists[l]|]
  {
    assert lists[..l + 1][..l] == lists[..l];
  }

  method PutRows(buf: seq<Byte>, rows: seq<nat>) returns (r: seq<Byte>)
    ensures r == buf + Words(rows)
  {
    hide Words, U32;
    r := buf;
    NoWords();
    for i := 0 to |rows|
      invariant r == buf + Words(rows[..i])
    {
      OneMoreWord(rows, i);
      r := r + U32(rows[i]);
    }
    assert rows[..|rows|] == rows;
  }

  lemma NoWords()
    ensures Words([]) == []
  {
  }

  lemma OneMoreWord(rows: seq<nat>, i: nat)
    requires i < |rows|
    ensures Words(rows[..i + 1]) == Words(rows[..i]) + U32(rows[i])
  {
    WordsAppend(rows[..i], [rows[i]]);
    assert rows[..i + 1] == rows[..i] + [rows[i]];
    assert [rows[i]][1..] == [];
  }

  // ---------------------------------------------------------------------
  // Opening
  // ---------------------------------------------------------------------

  datatype View = View(content: seq<Byte>, nlist: nat, offsetsStart: nat, entriesStart: nat) {
    predicate Valid() {
      offsetsStart + 8 * (nlist + 1) == entriesStart <= |content|
    }

    function Offset(i: nat): nat
      requires Valid() && i <= nlist
    {
      FromLe(content[offsetsStart + 8 * i..offsetsStart + 8 * i + 8])
    }

    function Entry(i: nat): nat
      requires entriesStart + 4 * i + 4 <= |content|
    {
      FromLe(content[entriesStart + 4 * i..entriesStart + 4 * i + 4])
    }
  }

  function OffsetsStart(dim: nat, nlist: nat): nat {
    IVF_HEADER_LEN + nlist * dim * 4
  }

  /** `load_ivf`, after the checksum; `None` stands for its corruption errors. */
  function Open(content: seq<Byte>, segDim: nat, segCount: nat): (r: Option<View>)
    ensures r.Some? ==> r.value.Valid() && r.value.nlist > 0
  {
    if |content| < IVF_HEADER_LEN then None
    else
      var dim, count, nlist := FromLe(content[8..12]), FromLe(content[12..20]), FromLe(content[20..24]);
      var offsetsStart: nat := OffsetsStart(dim, nlist);
      var entriesStart := offsetsStart + 8 * (nlist + 1);
      if dim != segDim || count != segCount then None
      else if nlist == 0 then None
      else if |content| != entriesStart + count * 4 then None
      else if FromLe(content[entriesStart - 8..entriesStart]) != count then None
      else Some(View(content, nlist, offsetsStart, entriesStart))
  }

  /**
   * A well-formed file: the header has the segment's dimension and row count and at least one list, the size is that
   * of the offsets and entries, and the last offset is the row count.
   */
  ghost predicate OpensWith(content: seq<Byte>, dim: nat, count: nat, nlist: nat) {
    var entries := OffsetsStart(dim, nlist) + 8 * (nlist + 1);
    && 0 < nlist < U32_SIZE && |content| == entries + 4 * count
    && At(content, 8, U32(dim)) && At(content, 12, U64(count)) && At(content, 20, U32(nlist))
    && At(content, entries - 8, U64(count))
  }

  /** What opens is well-formed. */
  lemma OpenedIs(content: seq<Byte>, segDim: nat, segCount: nat)
    requires Open(content, segDim, segCount).Some?
    ensures OpensWith(content, segDim, segCount, Open(content, segDim, segCount).value.nlist)
  {
    hide FromLe, U32, U64, At, View.Valid, OffsetsStart;
    var v := Open(content, segDim, segCount).value;
    FourAt(content, 8);
    EightAt(content, 12);
    FourAt(content, 20);
    EightAt(content, v.entriesStart - 8);
  }

  /** What is well-formed opens, with the tables where they stand. */
  lemma WellFormedOpens(content: seq<Byte>, segDim: nat, segCount: nat, nlist: nat)
    requires segDim < U32_SIZE && segCount < U64_SIZE && OpensWith(content, segDim, segCount, nlist)
    ensures Open(content, segDim, segCount) ==
              Some(View(content, nlist, OffsetsStart(segDim, nlist), OffsetsStart(segDim, nlist) + 8 * (nlist + 1)))
  {
    hide FromLe, U32, U64, View.Valid;
    U32RoundTrip(segDim);
    U64RoundTrip(segCount);
    U32RoundTrip(nlist);
  }

  lemma FourAt(buf: seq<Byte>, pos: nat)
    requires pos + 4 <= |buf|
    ensures FromLe(buf[pos..pos + 4]) < U32_SIZE && At(buf, pos, U32(FromLe(buf[pos..pos + 4])))
  {
    LeOfBytes(buf[pos..pos + 4]);
    Widths();
  }

  lemma EightAt(buf: seq<Byte>, pos: nat)
    requires pos + 8 <= |buf|
    ensures At(buf, pos, U64(FromLe(buf[pos..pos + 8])))
  {
    LeOfBytes(buf[pos..pos + 8]);
  }

  /** The numbers fit their fields, and there are `nlist` centroids. */
  ghost predicate Fits(dim: nat, centroids: seq<nat>, assign: seq<nat>, nlist: nat) {
    && 0 < nlist < U32_SIZE && dim < U32_SIZE && |assign| < U32_SIZE && |centroids| == nlist * dim
    && forall r :: 0 <= r < |assign| ==> assign[r] < nlist
  }

  /** What a view must say about the assignment it was written from. */
  ghost predicate Shows(v: View, assign: seq<nat>, nlist: nat) {
    && v.Valid() && v.nlist == nlist
    && var lists := Lists(assign, nlist, |assign|);
       && v.entriesStart + 4 * |Concat(lists)| == |v.content|
       && (forall i :: 0 <= i <= nlist ==> v.Offset(i) == Offsets(lists)[i])
       && (forall i :: 0 <= i < |Concat(lists)| ==> v.Entry(i) == Concat(lists)[i])
  }

  // ---------------------------------------------------------------------
  // The lists partition the rows
  // ---------------------------------------------------------------------

  /** The rows of some lists, one list after the other. */
  function Chosen(assign: seq<nat>, picks: seq<nat>): seq<nat> {
    if picks == [] then []
    else Chosen(assign, picks[..|picks| - 1]) + ListOf(assign, picks[|picks| - 1], |assign|)
  }

  /** Distinct lists give each of their rows once, and no other row. */
  lemma {:induction false} ChosenFacts(assign: seq<nat>, picks: seq<nat>)
    requires Distinct(picks)
    ensures Distinct(Chosen(assign, picks))
    ensures forall r: nat :: r in Chosen(assign, picks) <==> r < |assign| && assign[r] in picks
    decreases |picks|
  {
    if picks != [] {
      var front, last := picks[..|picks| - 1], picks[|picks| - 1];
      ChosenFacts(assign, front);
      ListFacts(assign, last, |assign|);
      assert last !in front;
      assert picks == front + [last];
      DistinctConcat(Chosen(assign, front), ListOf(assign, last, |assign|));
    }
  }

  lemma DistinctConcat(a: seq<nat>, b: seq<nat>)
    requires Distinct(a) && Segments.Ascending(b)
    requires forall x :: x in a ==> x !in b
    ensures Distinct(a + b)
  {
    forall i, j | 0 <= i < j < |a + b|
      ensures (a + b)[i] != (a + b)[j]
    {
      if i < |a| <= j {
        assert (a + b)[i] in a && (a + b)[j] in b;
      }
    }
  }

  /** All lists in order are the flat array, so its length is the row count. */
  lemma {:induction false} ConcatChosen(assign: seq<nat>, nlist: nat, k: nat)
    requires k <= nlist
    ensures Concat(Lists(assign, nlist, |assign|)[..k]) == Chosen(assign, seq(k, i => i))
    decreases k
  {
    if k > 0 {
      ConcatChosen(assign, nlist, k - 1);
      var lists, picks := Lists(assign, nlist, |assign|), seq(k, i => i);
      assert lists[..k][..k - 1] == lists[..k - 1];
      assert picks[..k - 1] == seq(k - 1, i => i);
    }
  }

  lemma CountBelow(s: seq<nat>, n: nat)
    requires Distinct(s) && forall r: nat :: r in s <==> r < n
    ensures |s| == n
  {
    DistinctCount(s);
    assert Elements(s) == Below(n);
  }

  lemma Partition(assign: seq<nat>, nlist: nat)
    requires forall r :: 0 <= r < |assign| ==> assign[r] < nlist
    ensures var flat := Concat(Lists(assign, nlist, |assign|));
            && |flat| == |assign| && Distinct(flat)
            && (forall r: nat :: r in flat <==> r < |assign|)
  {
    hide Concat, Chosen;
    var picks: seq<nat> := seq(nlist, i => i);
    ConcatChosen(assign, nlist, nlist);
    assert Lists(assign, nlist, |assign|)[..nlist] == Lists(assign, nlist, |assign|);
    ChosenFacts(assign, picks);
    assert forall l :: 0 <= l < nlist ==> picks[l] == l;
    forall r: nat | r < |assign|
      ensures assign[r] in picks
    {
      assert picks[assign[r]] == assign[r];
    }
    CountBelow(Chosen(assign, picks), |assign|);
  }

  // ---------------------------------------------------------------------
  // Round trip
  // ---------------------------------------------------------------------

  lemma HeaderReads(content: seq<Byte>, dim: nat, count: nat, nlist: nat)
    requires At(content, 0, Header(dim, count, nlist))
    requires dim < U32_SIZE && count < U64_SIZE && nlist < U32_SIZE
    ensures |content| >= IVF_HEADER_LEN
    ensures FromLe(content[8..12]) == dim && FromLe(content[12..20]) == count && FromLe(content[20..24]) == nlist
  {
    hide U32, U64;
    AtSplit(content, 0, MAGIC_IVF, U32(dim) + (U64(count) + (U32(nlist) + Zeros(40))));
    AtSplit(content, 8, U32(dim), U64(count) + (U32(nlist) + Zeros(40)));
    AtSplit(content, 12, U64(count), U32(nlist) + Zeros(40));
    AtSplit(content, 20, U32(nlist), Zeros(40));
    U32RoundTrip(dim);
    U64RoundTrip(count);
    U32RoundTrip(nlist);
  }

  /** The four parts of the file, where the reader looks for them. */
  lemma PartsAt(dim: nat, centroids: seq<nat>, assign: seq<nat>, nlist: nat)
    ensures
      var buf := Layout(dim, centroids, assign, nlist);
      var lists := Lists(assign, nlist, |assign|);
      var start := IVF_HEADER_LEN + 4 * |centroids|;
      && At(buf, 0, Header(dim, |assign|, nlist))
      && At(buf, start, WideWords(Offsets(lists)))
      && At(buf, start + 8 * (nlist + 1), Words(Concat(lists)))
      && |buf| == start + 8 * (nlist + 1) + 4 * |Concat(lists)|
  {
    hide Words, WideWords, Header, Offsets, Concat, Lists;
    var lists := Lists(assign, nlist, |assign|);
    var table, flat := WideWords(Offsets(lists)), Words(Concat(lists));
    var buf := Layout(dim, centroids, assign, nlist);
    AtWhole(buf);
    AtSplit(buf, 0, Header(dim, |assign|, nlist), Words(centroids) + (table + flat));
    AtSplit(buf, IVF_HEADER_LEN, Words(centroids), table + flat);
    AtSplit(buf, IVF_HEADER_LEN + 4 * |centroids|, table, flat);
  }

  /** Opening what `write_ivf` wrote shows the same offsets and entries. */
  lemma RoundTrip(dim: nat, centroids: seq<nat>, assign: seq<nat>, nlist: nat)
    requires Fits(dim, centroids, assign, nlist)
    ensures
      var r := Open(Layout(dim, centroids, assign, nlist), dim, |assign|);
      r.Some? && Shows(r.value, assign, nlist)
  {
    hide Layout, Header, Words, WideWords, Concat, Offsets, Lists, At, FromLe;
    var buf := Layout(dim, centroids, assign, nlist);
    var lists := Lists(assign, nlist, |assign|);
    var start := IVF_HEADER_LEN + 4 * |centroids|;
    PartsAt(dim, centroids, assign, nlist);
    HeaderReads(buf, dim, |assign|, nlist);
    Partition(assign, nlist);
    OffsetsLast(lists);
    OffsetsSmall(lists);
    forall i | 0 <= i <= nlist
      ensures FromLe(buf[start + 8 * i..start + 8 * i + 8]) == Offsets(lists)[i]
    {
      WideAt(buf, start, Offsets(lists), i);
    }
    forall i | 0 <= i < |Concat(lists)|
      ensures FromLe(buf[start + 8 * (nlist + 1) + 4 * i..start + 8 * (nlist + 1) + 4 * i + 4]) == Concat(lists)[i]
    {
      assert Concat(lists)[i] in Concat(lists);
      WordAt(buf, start + 8 * (nlist + 1), Concat(lists), i);
    }
    assert nlist * dim * 4 == 4 * |centroids|;
  }

  lemma {:induction false} OffsetsSmall(lists: seq<seq<nat>>)
    ensures forall i :: 0 <= i <= |lists| ==> Offsets(lists)[i] <= |Concat(lists)|
  {
    forall i | 0 <= i <= |lists|
      ensures Offsets(lists)[i] <= |Concat(lists)|
    {
      if i < |lists| {
        OffsetsCut(lists, i);
      } else {
        OffsetsLast(lists);
      }
    }
  }

  // ---------------------------------------------------------------------
  // Probing
  // ---------------------------------------------------------------------

  /** All lists, nearest centroid first: what the library sort returns. */
  ghost predicate NearestFirst(dists: seq<real>, order: seq<nat>) {
    && |order| == |dists| && Distinct(order)
    && (forall l :: 0 <= l < |dists| ==> l in order)
    && (forall t :: 0 <= t < |order| ==> order[t] < |dists|)
    && (forall t, u :: 0 <= t < u < |order| ==> dists[order[t]] <= dists[order[u]])
  }

  /** `nprobe` lists, but at least one and no more than there are. */
  function ProbeCount(nprobe: nat, nlist: nat): (r: nat)
    requires nlist > 0
    ensures 1 <= nprobe <= nlist ==> r == nprobe
    ensures nprobe == 0 ==> r == 1
    ensures nprobe > nlist ==> r == nlist
  {
    if nprobe < 1 then 1 else if nprobe > nlist then nlist else nprobe
  }

  /** `candidate_rows`, after the distances to the centroids were sorted. */
  method CandidateRows(v: View, ghost assign: seq<nat>, dists: seq<real>, order: seq<nat>, nprobe: nat)
    returns (rows: seq<nat>)
    requires v.nlist > 0 && |dists| == v.nlist && NearestFirst(dists, order)
    requires Shows(v, assign, v.nlist)
    ensures Distinct(rows)
    ensures forall r: nat :: r in rows <==> r < |assign| && assign[r] in order[..ProbeCount(nprobe, v.nlist)]
    ensures nprobe >= v.nlist && (forall r :: 0 <= r < |assign| ==> assign[r] < v.nlist) ==>
      |rows| == |assign| && forall r: nat :: r in rows <==> r < |assign|
    ensures forall l, u :: l in order[..ProbeCount(nprobe, v.nlist)] && u in order[ProbeCount(nprobe, v.nlist)..] ==>
      dists[l] <= dists[u]
  {
    hide Concat, Offsets;
    rows := [];
    var take := ProbeCount(nprobe, v.nlist);
    for t := 0 to take
      invariant rows == Chosen(assign, order[..t])
    {
      hide Distinct;
      var l := order[t];
      rows := PutList(v, assign, l, rows);
      assert order[..t + 1][..t] == order[..t];
    }
    ChosenFacts(assign, order[..take]);
    if nprobe >= v.nlist && forall r :: 0 <= r < |assign| ==> assign[r] < v.nlist {
      assert order[..take] == order;
      CountBelow(rows, |assign|);
    }
  }

  method PutList(v: View, ghost assign: seq<nat>, l: nat, start: seq<nat>) returns (rows: seq<nat>)
    requires Shows(v, assign, v.nlist) && l < v.nlist
    ensures rows == start + ListOf(assign, l, |assign|)
  {
    hide Concat, Offsets;
    ghost var lists := Lists(assign, v.nlist, |assign|);
    OffsetsCut(lists, l);
    rows := start;
    var from, to := v.Offset(l), v.Offset(l + 1);
    for i := from to to
      invariant rows == start + Concat(lists)[from..i]
    {
      rows := rows + [v.Entry(i)];
      assert Concat(lists)[from..i + 1] == Concat(lists)[from..i] + [Concat(lists)[i]];
    }
  }
}
