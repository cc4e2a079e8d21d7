/**
 * A follower's polls, as values: what each does to the frames stored locally and to the picture. A poll
 * that meets a rejected record keeps the frames before it applied but stores none of them, so
 * the next poll applies them again. This module proves exactly when that makes a difference.
 */
module Polling {
  import opened Records
  import opened Bytes
  import opened Wire
  import opened WalFile
  import opened Meanings
  import LogBehind

  /** The frames in the local file, and the picture that queries see. */
  datatype Progress = Progress(stored: nat, state: Image.Img)

  /** Frames that `n` bytes of the primary's file hold. */
  ghost function FramesIn(records: seq<Record>, crc: Crc, n: nat): (k: nat)
    ensures k <= |records|
  {
    if n < |MAGIC_WAL| then 0 else WholeFrames(records, crc, n - |MAGIC_WAL|)
  }

  /** The frames that a poll up to byte `n` hands to the store: all that are not in the local file. */
  ghost function Due(records: seq<Record>, crc: Crc, stored: nat, n: nat): seq<Record> {
    var k := FramesIn(records, crc, n);
    if stored <= k then records[stored..k] else []
  }

  /** A poll without new bytes ends early; otherwise it succeeds when none of its frames is rejected. */
  ghost predicate Succeeds(rd: Reading, records: seq<Record>, crc: Crc, p: Progress, n0: nat, n: nat) {
    n == n0 || Fold(rd, p.state, Due(records, crc, p.stored, n)).Some?
  }

  /** What one poll does when `n0` bytes had been fetched before and `n` have been after it. */
  ghost function Poll(rd: Reading, records: seq<Record>, crc: Crc, p: Progress, n0: nat, n: nat): Progress {
    if n == n0 then p
    else
      var due := Due(records, crc, p.stored, n);
      Progress(if Fold(rd, p.state, due).Some? then p.stored + |due| else p.stored, Reach(rd, p.state, due))
  }

  /** One poll after the other; `cuts` are the lengths fetched after each. */
  ghost function Polls(rd: Reading, records: seq<Record>, crc: Crc, p: Progress, n0: nat, cuts: seq<nat>): Progress
    decreases |cuts|
  {
    if cuts == [] then p else Polls(rd, records, crc, Poll(rd, records, crc, p, n0, cuts[0]), cuts[0], cuts[1..])
  }

  /** A way of cutting the bytes from `n0` to `n`. */
  ghost predicate CutsTo(n0: nat, cuts: seq<nat>, n: nat)
    decreases |cuts|
  {
    if cuts == [] then n0 == n else n0 <= cuts[0] <= n && CutsTo(cuts[0], cuts[1..], n)
  }

  // ---------------------------------------------------------------------
  // Frames and bytes
  // ---------------------------------------------------------------------

  lemma {:induction false} WholeFramesGrow(records: seq<Record>, crc: Crc, len: nat, len': nat)
    requires len <= len'
    ensures WholeFrames(records, crc, len) <= WholeFrames(records, crc, len')
    decreases |records|
  {
    hide Framed, Encoded;
    if records != [] {
      var first := |Framed(Encoded(records[0]), crc)|;
      if first <= len {
        WholeFramesGrow(records[1..], crc, len - first, len' - first);
      }
    }
  }

  lemma FramesInGrow(records: seq<Record>, crc: Crc, n: nat, n': nat)
    requires n <= n'
    ensures FramesIn(records, crc, n) <= FramesIn(records, crc, n')
  {
    hide WholeFrames;
    if n >= |MAGIC_WAL| {
      WholeFramesGrow(records, crc, n - |MAGIC_WAL|, n' - |MAGIC_WAL|);
    }
  }

  lemma DueSplit(records: seq<Record>, crc: Crc, stored: nat, n: nat, n': nat)
    requires stored <= FramesIn(records, crc, n) && n <= n'
    ensures FramesIn(records, crc, n) <= FramesIn(records, crc, n')
    ensures Due(records, crc, stored, n') == Due(records, crc, stored, n)
        + Due(records, crc, FramesIn(records, crc, n), n')
  {
    hide FramesIn;
    FramesInGrow(records, crc, n, n');
  }

  // ---------------------------------------------------------------------
  // When every frame is accepted
  // ---------------------------------------------------------------------

  /**
   * However the bytes are cut, a follower whose picture accepts every frame ends with all of them stored and
   * applied.
   */
  lemma {:induction false} AllAcceptedPolls(rd: Reading, records: seq<Record>, crc: Crc, p: Progress, n0: nat,
      cuts: seq<nat>, n: nat)
    requires CutsTo(n0, cuts, n) && p.stored == FramesIn(records, crc, n0)
    requires Fold(rd, p.state, Due(records, crc, p.stored, n)).Some?
    ensures Polls(rd, records, crc, p, n0, cuts)
         == Progress(FramesIn(records, crc, n), Fold(rd, p.state, Due(records, crc, p.stored, n)).value)
    decreases |cuts|
  {
    hide FramesIn, Fold;
    if cuts == [] {
      FoldNothing(rd, p.state, Due(records, crc, p.stored, n));
    } else {
      FramesInGrow(records, crc, n0, cuts[0]);
      CutsEnd(cuts[0], cuts[1..], n);
      DueSplit(records, crc, p.stored, cuts[0], n);
      FoldAppend(rd, p.state, Due(records, crc, p.stored, cuts[0]),
          Due(records, crc, FramesIn(records, crc, cuts[0]), n));
      ReachIsFold(rd, p.state, Due(records, crc, p.stored, cuts[0]));
      FoldNothing(rd, p.state, []);
      AllAcceptedPolls(rd, records, crc, Poll(rd, records, crc, p, n0, cuts[0]), cuts[0], cuts[1..], n);
    }
  }

  lemma {:induction false} CutsEnd(n0: nat, cuts: seq<nat>, n: nat)
    requires CutsTo(n0, cuts, n)
    ensures n0 <= n
    decreases |cuts|
  {
  }

  // ---------------------------------------------------------------------
  // When the first frame is rejected
  // ---------------------------------------------------------------------

  /** The first frame that is not stored yet is one that the picture rejects. */
  ghost predicate Stuck(rd: Reading, records: seq<Record>, p: Progress) {
    p.stored < |records| && Image.Step(p.state, Meaning(rd, records[p.stored])).None?
  }

  lemma StuckPoll(rd: Reading, records: seq<Record>, crc: Crc, p: Progress, n0: nat, n: nat)
    requires Stuck(rd, records, p)
    ensures Poll(rd, records, crc, p, n0, n) == p
  {
    hide Fold, FramesIn, Image.Step, Meaning;
    var due := Due(records, crc, p.stored, n);
    if due != [] {
      assert due[0] == records[p.stored];
      FoldCons(rd, p.state, due);
    }
  }

  lemma {:induction false} StuckPolls(rd: Reading, records: seq<Record>, crc: Crc, p: Progress, n0: nat, cuts: seq<nat>)
    requires Stuck(rd, records, p)
    ensures Polls(rd, records, crc, p, n0, cuts) == p
    decreases |cuts|
  {
    hide Stuck, Poll;
    if cuts != [] {
      StuckPoll(rd, records, crc, p, n0, cuts[0]);
      StuckPolls(rd, records, crc, p, cuts[0], cuts[1..]);
    }
  }

  // ---------------------------------------------------------------------
  // Exactly when the cuts do not matter
  // ---------------------------------------------------------------------

  ghost predicate CutsAgree(rd: Reading, records: seq<Record>, crc: Crc, p: Progress, n0: nat, n: nat) {
    forall a, b :: CutsTo(n0, a, n) && CutsTo(n0, b, n)
         ==> Polls(rd, records, crc, p, n0, a) == Polls(rd, records, crc, p, n0, b)
  }

  /**
   * From a follower that has stored every whole frame it fetched: file and picture after fetching up to byte `n`
   * are independent of how the bytes were cut if and only if the picture accepts every
   * whole frame, or rejects the very first one, so that nothing is ever applied.
   */
  lemma CutsAgreeIff(rd: Reading, records: seq<Record>, crc: Crc, p: Progress, n0: nat, n: nat)
    requires n0 <= n <= |FileOf(records, crc)| && p.stored == FramesIn(records, crc, n0)
    ensures CutsAgree(rd, records, crc, p, n0, n)
            <==> Fold(rd, p.state, Due(records, crc, p.stored, n)).Some? || Stuck(rd, records, p)
  {
    hide Fold, Due, FramesIn, Stuck, CutsTo, Polls, FileOf;
    if Fold(rd, p.state, Due(records, crc, p.stored, n)).Some? {
      forall a, b | CutsTo(n0, a, n) && CutsTo(n0, b, n)
        ensures Polls(rd, records, crc, p, n0, a) == Polls(rd, records, crc, p, n0, b)
      {
        AllAcceptedPolls(rd, records, crc, p, n0, a, n);
        AllAcceptedPolls(rd, records, crc, p, n0, b, n);
      }
    } else if Stuck(rd, records, p) {
      forall a, b | CutsTo(n0, a, n) && CutsTo(n0, b, n)
        ensures Polls(rd, records, crc, p, n0, a) == Polls(rd, records, crc, p, n0, b)
      {
        StuckPolls(rd, records, crc, p, n0, a);
        StuckPolls(rd, records, crc, p, n0, b);
      }
    } else {
      var cut := CutAtRejected(rd, records, crc, p, n0, n);
    }
  }

  /** In between, a cut in front of the rejected frame stores the frames before it, which a single poll does not. */
  lemma CutAtRejected(rd: Reading, records: seq<Record>, crc: Crc, p: Progress, n0: nat, n: nat) returns (cut: nat)
    requires n0 <= n <= |FileOf(records, crc)| && p.stored == FramesIn(records, crc, n0)
    requires Fold(rd, p.state, Due(records, crc, p.stored, n)).None? && !Stuck(rd, records, p)
    ensures CutsTo(n0, [n], n) && CutsTo(n0, [cut, n], n)
    ensures Polls(rd, records, crc, p, n0, [n]).stored < Polls(rd, records, crc, p, n0, [cut, n]).stored
    ensures !Succeeds(rd, records, crc, p, n0, n)
  {
    hide Fold, FramesIn, Stuck, FileOf, WholeFrames;
    var due := Due(records, crc, p.stored, n);
    FramesInGrow(records, crc, n0, n);
    AcceptedFacts(rd, p.state, due);
    var b := Accepted(rd, p.state, due);
    DueNotEmpty(rd, records, crc, p, n);
    NotStuck(rd, records, crc, p, n);
    cut := |FileOf(records[..p.stored + b], crc)|;
    Boundary(records, crc, p.stored + b, n0, n);
    var q := Poll(rd, records, crc, p, n0, cut);
    assert Due(records, crc, p.stored, cut) == due[..b];
    SinglePoll(rd, records, crc, p, n0, n);
    TwoPolls(rd, records, crc, p, n0, cut, n);
    PollStores(rd, records, crc, q, cut, n);
  }

  lemma DueNotEmpty(rd: Reading, records: seq<Record>, crc: Crc, p: Progress, n: nat)
    requires Fold(rd, p.state, Due(records, crc, p.stored, n)).None?
    ensures Due(records, crc, p.stored, n) != []
  {
    hide Fold, Due;
    if Due(records, crc, p.stored, n) == [] {
      FoldNothing(rd, p.state, Due(records, crc, p.stored, n));
    }
  }

  lemma NotStuck(rd: Reading, records: seq<Record>, crc: Crc, p: Progress, n: nat)
    requires !Stuck(rd, records, p) && Due(records, crc, p.stored, n) != []
    ensures Accepted(rd, p.state, Due(records, crc, p.stored, n)) > 0
  {
    hide FramesIn, Image.Step, Meaning;
    assert Due(records, crc, p.stored, n)[0] == records[p.stored];
  }

  /** The end of frame `k - 1`, if the bytes up to `n0` hold fewer frames than that and those up to `n` more. */
  lemma Boundary(records: seq<Record>, crc: Crc, k: nat, n0: nat, n: nat)
    requires n <= |FileOf(records, crc)| && FramesIn(records, crc, n0) < k < FramesIn(records, crc, n)
    ensures FramesIn(records, crc, |FileOf(records[..k], crc)|) == k && n0 <= |FileOf(records[..k], crc)| < n
  {
    hide WholeFrames, Frames;
    var cut := |FileOf(records[..k], crc)|;
    FramesAtBoundary(records, crc, k);
    if cut < n0 {
      FramesInGrow(records, crc, cut, n0);
    }
    if n <= cut {
      FramesInGrow(records, crc, n, cut);
    }
  }

  lemma FramesAtBoundary(records: seq<Record>, crc: Crc, k: nat)
    requires k <= |records|
    ensures |FileOf(records[..k], crc)| >= |MAGIC_WAL| && |FileOf(records[..k], crc)| <= |FileOf(records, crc)|
    ensures FramesIn(records, crc, |FileOf(records[..k], crc)|) == k
  {
    hide Frames, WholeFrames;
    FileBoundary(records, crc, k);
  }

  lemma SinglePoll(rd: Reading, records: seq<Record>, crc: Crc, p: Progress, n0: nat, n: nat)
    ensures Polls(rd, records, crc, p, n0, [n]) == Poll(rd, records, crc, p, n0, n)
    ensures n0 <= n ==> CutsTo(n0, [n], n)
  {
    hide Poll;
    assert [n][1..] == [];
  }

  lemma TwoPolls(rd: Reading, records: seq<Record>, crc: Crc, p: Progress, n0: nat, cut: nat, n: nat)
    ensures Polls(rd, records, crc, p, n0, [cut, n])
        == Poll(rd, records, crc, Poll(rd, records, crc, p, n0, cut), cut, n)
    ensures n0 <= cut <= n ==> CutsTo(n0, [cut, n], n)
  {
    hide Poll;
    assert [cut, n][1..] == [n];
    SinglePoll(rd, records, crc, Poll(rd, records, crc, p, n0, cut), cut, n);
  }

  lemma PollStores(rd: Reading, records: seq<Record>, crc: Crc, p: Progress, n0: nat, n: nat)
    ensures Poll(rd, records, crc, p, n0, n).stored >= p.stored
  {
    hide Fold, Due;
  }

  // ---------------------------------------------------------------------
  // A swap that is applied twice
  // ---------------------------------------------------------------------

  /**
   * A swap in front of a record of an unknown collection: one poll for all the bytes leaves the names
   * swapped, but when the last byte comes with a poll of its own the swap is applied again and undone.
   * Neither way stores a frame, so a restart shows the names as they were.
   */
  lemma RetriedSwap(rd: Reading, crc: Crc, s: Image.Img, a: nat, b: nat, c: nat, id: nat, third: Record)
    requires Image.Consistent(s) && a in s.cols && b in s.cols && a != b && c !in s.cols
    ensures var records, p := [SwapCollectionNames(a, b), Delete(c, id), third], Progress(0, s);
            var n := |FileOf(records[..2], crc)|;
            && n < |FileOf(records, crc)| && CutsTo(0, [n + 1], n + 1) && CutsTo(0, [n, n + 1], n + 1)
            && Polls(rd, records, crc, p, 0, [n, n + 1]) == Progress(0, s)
            && Polls(rd, records, crc, p, 0, [n + 1])
                 == Progress(0, Image.Next(s, Image.WalRecord.SwapCollectionNames(a, b)))
            && Image.Next(s, Image.WalRecord.SwapCollectionNames(a, b)) != s
  {
    hide FramesIn, FileOf, Image.Step, Image.Next, Image.Consistent, Image.Legal, Poll;
    var records, p := [SwapCollectionNames(a, b), Delete(c, id), third], Progress(0, s);
    var n := |FileOf(records[..2], crc)|;
    LogBehind.SwapTwice(s, a, b);
    SwapChanges(s, a, b);
    var swapped := Image.Next(s, Image.WalRecord.SwapCollectionNames(a, b));
    FramesAtBoundary(records, crc, 2);
    OneByteMore(records, crc, 2);
    assert records[0..2] == [SwapCollectionNames(a, b), Delete(c, id)];
    SinglePoll(rd, records, crc, p, 0, n + 1);
    TwoPolls(rd, records, crc, p, 0, n, n + 1);
    SwapReached(rd, s, swapped, a, b, c, id);
    SwapReached(rd, swapped, s, a, b, c, id);
    PollTwo(rd, records, crc, s, 0, n);
    PollTwo(rd, records, crc, swapped, n, n + 1);
    PollTwo(rd, records, crc, s, 0, n + 1);
  }

  lemma SwapChanges(s: Image.Img, a: nat, b: nat)
    requires Image.Consistent(s) && a in s.cols && b in s.cols && a != b
    ensures var swap := Image.WalRecord.SwapCollectionNames(a, b);
            Image.Legal(s, swap) && Image.Step(s, swap) == Some(Image.Next(s, swap)) && Image.Next(s, swap) != s
            && Image.Next(s, swap).cols.Keys == s.cols.Keys
  {
    var swap := Image.WalRecord.SwapCollectionNames(a, b);
    assert s.cols[a].name != s.cols[b].name;
    assert Image.Next(s, swap).cols[a].name == s.cols[b].name;
  }

  lemma OneByteMore(records: seq<Record>, crc: Crc, k: nat)
    requires k < |records|
    ensures var n := |FileOf(records[..k], crc)|; n < |FileOf(records, crc)| && FramesIn(records, crc, n + 1) == k
  {
    hide WholeFrames, Encoded;
    var n := |FileOf(records[..k], crc)|;
    FramesAtBoundary(records, crc, k);
    FramesAtBoundary(records, crc, k + 1);
    FramesInGrow(records, crc, n, n + 1);
    assert records[..k + 1] == records[..k] + [records[k]] && [records[k]][1..] == [];
    FramesAppend(records[..k], [records[k]], crc);
    assert Frames([records[k]], crc) == Framed(Encoded(records[k]), crc) + [];
    if FramesIn(records, crc, n + 1) > k {
      FramesWithin(records, crc, n + 1, k + 1);
    }
  }

  /** Whole frames fit. */
  lemma FramesWithin(records: seq<Record>, crc: Crc, n: nat, k: nat)
    requires |MAGIC_WAL| <= n && k <= FramesIn(records, crc, n)
    ensures |FileOf(records[..k], crc)| <= n
  {
    hide WholeFrames, Frames;
    WholeFramesFit(records, crc, n - |MAGIC_WAL|, k);
  }

  lemma {:induction false} WholeFramesFit(records: seq<Record>, crc: Crc, len: nat, k: nat)
    requires k <= WholeFrames(records, crc, len)
    ensures |Frames(records[..k], crc)| <= len
    decreases k
  {
    hide Framed, Encoded;
    if k > 0 {
      PrefixFrames(records, crc, k);
      assert records[1..][..k - 1] == records[..k][1..];
      WholeFramesFit(records[1..], crc, len - |Framed(Encoded(records[0]), crc)|, k - 1);
    }
  }

  lemma SwapReached(rd: Reading, s: Image.Img, t: Image.Img, a: nat, b: nat, c: nat, id: nat)
    requires Image.Step(s, Image.WalRecord.SwapCollectionNames(a, b)) == Some(t) && c !in t.cols
    ensures var due := [SwapCollectionNames(a, b), Delete(c, id)];
            Fold(rd, s, due).None? && Reach(rd, s, due) == t
  {
    hide Fold, Image.Step;
    var due := [SwapCollectionNames(a, b), Delete(c, id)];
    assert due[1..] == [Delete(c, id)] && due[1..][1..] == [];
    assert Image.Step(t, Meaning(rd, due[1])).None? by {
      UnknownRejected(t, c, id);
    }
    FoldCons(rd, s, due);
    FoldCons(rd, t, due[1..]);
    assert Reach(rd, t, due[1..]) == t;
  }

  lemma UnknownRejected(s: Image.Img, c: nat, id: nat)
    requires c !in s.cols
    ensures Image.Step(s, Image.WalRecord.Delete(c, id)).None?
  {
  }

  lemma PollTwo(rd: Reading, records: seq<Record>, crc: Crc, s: Image.Img, n0: nat, n: nat)
    requires n0 != n && |records| >= 2 && FramesIn(records, crc, n) == 2 && Fold(rd, s, records[0..2]).None?
    ensures Poll(rd, records, crc, Progress(0, s), n0, n) == Progress(0, Reach(rd, s, records[0..2]))
  {
    hide Fold, FramesIn, Reach;
  }
}
