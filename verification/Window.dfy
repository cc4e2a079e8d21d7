/**
 * The flush window. `rotate` fixes which records a flush covers, but phase 3 of the flush, some
 * time later, writes the names and the collection set of that later moment. Recovery therefore
 * replays the records of the window (the tail) on an image that already reflects part of them.
 * This module proves when that is harmless.
 */
module Window {
  import opened Records
  import opened Image

  /**
   * What a flush's manifest and segments stand for: the collections, names and next id of the
   * moment of phase 3 (`final`), with the records of the moment of `rotate` (`base`).
   */
  ghost function Checkpoint(base: Img, final: Img): Img {
    Img(map c | c in final.cols ::
          final.cols[c].(recs := if c in base.cols then base.cols[c].recs else map[]),
        final.names, final.next)
  }

  /** The record needs collection `c` to exist. */
  predicate Touches(r: WalRecord, c: Cid) {
    match r
    case CreateCollection(_, _, _, _) => false
    case DropCollection(_) => false
    case SwapCollectionNames(a, b) => a == c || b == c
    case _ => r.cid == c
  }

  /** Some collection that predates the window is used in the window and dropped later in it. */
  ghost predicate UsedThenDropped(before: set<Cid>, tail: seq<WalRecord>) {
    exists i, j :: 0 <= i < j < |tail| && tail[j].DropCollection? && tail[j].cid in before
        && Touches(tail[i], tail[j].cid)
  }

  ghost predicate HasSwap(tail: seq<WalRecord>) {
    exists i :: 0 <= i < |tail| && tail[i].SwapCollectionNames?
  }

  ghost predicate DroppedIn(c: Cid, tail: seq<WalRecord>) {
    exists j :: 0 <= j < |tail| && tail[j] == DropCollection(c)
  }

  /** A record that decides the name of `c`. */
  predicate Names(r: WalRecord, c: Cid) {
    match r
    case CreateCollection(k, _, _, _) => k == c
    case DropCollection(k) => k == c
    case RenameCollection(k, _) => k == c
    case _ => false
  }

  /** No record of the rest of the window decides the name of `c` any more. */
  ghost predicate Settled(c: Cid, rest: seq<WalRecord>) {
    forall i :: 0 <= i < |rest| ==> !Names(rest[i], c)
  }

  lemma SplitDropped(c: Cid, r: WalRecord, rest: seq<WalRecord>)
    ensures DroppedIn(c, [r] + rest) <==> r == DropCollection(c) || DroppedIn(c, rest)
  {
    var all := [r] + rest;
    if DroppedIn(c, rest) {
      var j :| 0 <= j < |rest| && rest[j] == DropCollection(c);
      assert all[j + 1] == DropCollection(c);
    }
    if r == DropCollection(c) {
      assert all[0] == DropCollection(c);
    }
  }

  /** Collections of the final image either exist now or are created later, with ids from `next` on. */
  lemma {:induction false} FinalKeys(s: Img, log: seq<WalRecord>, c: Cid)
    requires Consistent(s) && GoodLog(s, log) && Replay(s, log).Some?
    ensures c in Replay(s, log).value.cols ==> c in s.cols || c >= s.next
    ensures c in s.cols && c !in Replay(s, log).value.cols ==> DroppedIn(c, log)
    ensures c in Replay(s, log).value.cols && c < s.next ==> !DroppedIn(c, log)
    ensures Replay(s, log).value.next >= s.next
    decreases |log|
  {
    if log != [] {
      var r := log[0];
      LegalKeepsConsistent(s, r);
      FinalKeys(Next(s, r), log[1..], c);
      assert log == [r] + log[1..];
      SplitDropped(c, r, log[1..]);
    }
  }

  /** The name of a settled collection is already its final name. */
  lemma {:induction false} SettledName(s: Img, log: seq<WalRecord>, c: Cid)
    requires GoodLog(s, log) && Replay(s, log).Some? && !HasSwap(log)
    requires c in s.cols && Settled(c, log)
    ensures c in Replay(s, log).value.cols && Replay(s, log).value.cols[c].name == s.cols[c].name
    decreases |log|
  {
    if log != [] {
      var r := log[0];
      assert !Names(r, c) && !r.SwapCollectionNames?;
      assert Settled(c, log[1..]) by {
        forall i | 0 <= i < |log[1..]| ensures !Names(log[1..][i], c) {
          assert log[1..][i] == log[i + 1];
        }
      }
      NoSwapTail(log);
      SettledName(Next(s, r), log[1..], c);
    }
  }

  lemma NoSwapTail(log: seq<WalRecord>)
    requires log != [] && !HasSwap(log)
    ensures !HasSwap(log[1..]) && !log[0].SwapCollectionNames?
  {
    forall i | 0 <= i < |log[1..]| ensures !log[1..][i].SwapCollectionNames? {
      assert log[1..][i] == log[i + 1];
    }
  }

  lemma UsedThenDroppedTail(before: set<Cid>, tail: seq<WalRecord>)
    requires tail != []
    ensures UsedThenDropped(before, tail) <==>
            UsedThenDropped(before, tail[1..]) ||
                 exists c :: c in before && Touches(tail[0], c) && DroppedIn(c, tail[1..])
  {
    var rest := tail[1..];
    if UsedThenDropped(before, rest) {
      var i, j :| 0 <= i < j < |rest| && rest[j].DropCollection? && rest[j].cid in before
          && Touches(rest[i], rest[j].cid);
      assert tail[i + 1] == rest[i] && tail[j + 1] == rest[j];
    }
    if c :| c in before && Touches(tail[0], c) && DroppedIn(c, rest) {
      var j :| 0 <= j < |rest| && rest[j] == DropCollection(c);
      assert tail[j + 1] == rest[j];
    }
    if UsedThenDropped(before, tail) {
      var i, j :| 0 <= i < j < |tail| && tail[j].DropCollection? && tail[j].cid in before
          && Touches(tail[i], tail[j].cid);
      assert rest[j - 1] == tail[j];
      if i > 0 {
        assert rest[i - 1] == tail[i];
      } else {
        assert DroppedIn(tail[j].cid, rest);
      }
    }
  }

  // ---------------------------------------------------------------------
  // Exactly when replaying the window is rejected
  // ---------------------------------------------------------------------

  /** The collections of the replayed image, against those of the live run. */
  ghost predicate KeySim(before: set<Cid>, live: Img, replayed: Img, rest: seq<WalRecord>) {
    && (forall c :: c in live.cols && c !in replayed.cols ==> c in before && DroppedIn(c, rest))
    && (forall c :: c in live.cols && c in before && DroppedIn(c, rest) ==> c !in replayed.cols)
    && (forall c :: c in before ==> c < live.next)
  }

  lemma KeySimStep(before: set<Cid>, live: Img, replayed: Img, rest: seq<WalRecord>)
    requires rest != [] && Consistent(live) && GoodLog(live, rest)
    requires KeySim(before, live, replayed, rest)
    ensures Step(replayed, rest[0]).None? <==> exists c :: c in before && Touches(rest[0], c) && DroppedIn(c, rest[1..])
    ensures Step(replayed, rest[0]).Some? ==> KeySim(before, Next(live, rest[0]), Step(replayed, rest[0]).value,
        rest[1..])
  {
    var r := rest[0];
    forall c ensures DroppedIn(c, rest) <==> r == DropCollection(c) || DroppedIn(c, rest[1..]) {
      assert rest == [r] + rest[1..];
      SplitDropped(c, r, rest[1..]);
    }
    KeyRejected(before, live, replayed, rest);
    if Step(replayed, r).Some? {
      KeySimKept(before, live, replayed, rest);
    }
  }

  lemma KeyRejected(before: set<Cid>, live: Img, replayed: Img, rest: seq<WalRecord>)
    requires rest != [] && Legal(live, rest[0]) && KeySim(before, live, replayed, rest)
    requires forall c :: DroppedIn(c, rest) <==> rest[0] == DropCollection(c) || DroppedIn(c, rest[1..])
    ensures Step(replayed, rest[0]).None? <==> exists c :: c in before && Touches(rest[0], c) && DroppedIn(c, rest[1..])
  {
    var r := rest[0];
    forall c | Touches(r, c) ensures c in live.cols && (c !in replayed.cols
        <==> c in before && DroppedIn(c, rest[1..])) {
    }
    if Step(replayed, r).None? {
      if r.SwapCollectionNames? {
        var c := if r.a !in replayed.cols then r.a else r.b;
        assert Touches(r, c);
      } else {
        assert Touches(r, r.cid);
      }
    }
  }

  lemma KeySimKept(before: set<Cid>, live: Img, replayed: Img, rest: seq<WalRecord>)
    requires rest != [] && Consistent(live) && Legal(live, rest[0]) && KeySim(before, live, replayed, rest)
    requires forall c :: DroppedIn(c, rest) <==> rest[0] == DropCollection(c) || DroppedIn(c, rest[1..])
    requires Step(replayed, rest[0]).Some?
    ensures KeySim(before, Next(live, rest[0]), Step(replayed, rest[0]).value, rest[1..])
  {
  }

  lemma {:induction false} ReplayRejectedFrom(before: set<Cid>, live: Img, replayed: Img, rest: seq<WalRecord>)
    requires Consistent(live) && GoodLog(live, rest) && KeySim(before, live, replayed, rest)
    ensures Replay(replayed, rest).None? <==> UsedThenDropped(before, rest)
    decreases |rest|
  {
    if rest != [] {
      KeySimStep(before, live, replayed, rest);
      UsedThenDroppedTail(before, rest);
      LegalKeepsConsistent(live, rest[0]);
      if Step(replayed, rest[0]).Some? {
        ReplayRejectedFrom(before, Next(live, rest[0]), Step(replayed, rest[0]).value, rest[1..]);
      }
    }
  }

  /**
   * Recovery after a flush is rejected as corrupted exactly when some collection older than the
   * window was used in the window and dropped later in it.
   */
  lemma RejectedIffUsedThenDropped(base: Img, tail: seq<WalRecord>)
    requires Consistent(base) && GoodLog(base, tail) && Replay(base, tail).Some?
    ensures Replay(Checkpoint(base, Replay(base, tail).value), tail).None? <==> UsedThenDropped(base.cols.Keys, tail)
  {
    var final := Replay(base, tail).value;
    forall c | c in base.cols ensures c in final.cols <==> !DroppedIn(c, tail) {
      FinalKeys(base, tail, c);
    }
    ReplayRejectedFrom(base.cols.Keys, base, Checkpoint(base, final), tail);
  }

  // ---------------------------------------------------------------------
  // Without swaps and used-then-dropped collections, replay ends where the live run ended
  // ---------------------------------------------------------------------

  /** Records of the replayed image: equal to the live ones, or empty until their collection is created again. */
  ghost predicate RecordSim(live: Img, replayed: Img, final: Img) {
    forall c :: c in replayed.cols ==>
      && (c in live.cols ==> replayed.cols[c].recs == live.cols[c].recs && replayed.cols[c].dim == live.cols[c].dim
                             && replayed.cols[c].metric == live.cols[c].metric)
      && (c !in live.cols ==> c in final.cols && replayed.cols[c].recs == map[])
  }

  /** A replayed collection has its live name or, until the window names it, its final name. */
  ghost predicate NameSim(live: Img, replayed: Img, final: Img) {
    forall c :: c in replayed.cols ==>
      || (c in live.cols && replayed.cols[c].name == live.cols[c].name)
      || (c in final.cols && replayed.cols[c].name == final.cols[c].name)
  }

  /** A collection that replay has and the live run has not created yet still has its final name. */
  ghost predicate FreshSim(live: Img, replayed: Img, final: Img) {
    forall c :: c in replayed.cols && c !in live.cols ==> c in final.cols && replayed.cols[c].name == final.cols[c].name
  }

  /** Directory entries point to existing collections, under the replayed name or the final name. */
  ghost predicate EntrySim(replayed: Img, final: Img) {
    forall n :: n in replayed.names ==> EntryOk(replayed, final, n)
  }

  /** A collection whose name the rest of the window leaves alone is listed under its final name. */
  ghost predicate SettledSim(live: Img, replayed: Img, final: Img, rest: seq<WalRecord>) {
    forall c :: c in live.cols && c in final.cols && Settled(c, rest) ==>
      final.cols[c].name in replayed.names && replayed.names[final.cols[c].name] == c
  }

  ghost predicate Sim(before: set<Cid>, live: Img, replayed: Img, final: Img, rest: seq<WalRecord>) {
    && KeySim(before, live, replayed, rest)
    && RecordSim(live, replayed, final)
    && NameSim(live, replayed, final)
    && EntrySim(replayed, final)
    && SettledSim(live, replayed, final, rest)
    && replayed.next == final.next
  }

  /** The facts about the live run that every step of the simulation uses. */
  ghost predicate LiveRun(live: Img, final: Img, rest: seq<WalRecord>) {
    && Consistent(live) && Consistent(final) && GoodLog(live, rest)
    && Replay(live, rest) == Some(final) && !HasSwap(rest)
  }

  lemma LiveRunStep(live: Img, final: Img, rest: seq<WalRecord>)
    requires rest != [] && LiveRun(live, final, rest)
    ensures Legal(live, rest[0]) && LiveRun(Next(live, rest[0]), final, rest[1..])
    ensures !rest[0].SwapCollectionNames?
  {
    LegalKeepsConsistent(live, rest[0]);
    NoSwapTail(rest);
  }

  lemma SettledCons(c: Cid, rest: seq<WalRecord>)
    requires rest != [] && Settled(c, rest[1..]) && !Names(rest[0], c)
    ensures Settled(c, rest)
  {
    forall i | 0 <= i < |rest| ensures !Names(rest[i], c) {
      assert i > 0 ==> rest[i] == rest[1..][i - 1];
    }
  }

  /**
   * No record of the window can take a settled collection's name away: another collection that
   * leaves a name leaves either its live name or its own final name, and takes a free one.
   */
  lemma SettledSimStep(before: set<Cid>, live: Img, replayed: Img, final: Img, rest: seq<WalRecord>)
    requires rest != [] && LiveRun(live, final, rest) && Sim(before, live, replayed, final, rest)
    requires Legal(live, rest[0]) && Step(replayed, rest[0]).Some?
    ensures SettledSim(Next(live, rest[0]), Step(replayed, rest[0]).value, final, rest[1..])
  {
    LiveRunStep(live, final, rest);
    var r := rest[0];
    var live' := Next(live, r);
    var replayed' := Step(replayed, r).value;
    forall c | c in live'.cols && c in final.cols && Settled(c, rest[1..])
      ensures final.cols[c].name in replayed'.names && replayed'.names[final.cols[c].name] == c
    {
      SettledName(live', rest[1..], c);
      if !Names(r, c) {
        SettledCons(c, rest);
        SettledName(live, rest, c);
        NotTakenAway(before, live, replayed, final, rest, c);
      }
    }
  }

  lemma NotTakenAway(before: set<Cid>, live: Img, replayed: Img, final: Img, rest: seq<WalRecord>, c: Cid)
    requires rest != [] && LiveRun(live, final, rest) && Sim(before, live, replayed, final, rest)
    requires Legal(live, rest[0]) && Step(replayed, rest[0]).Some? && !rest[0].SwapCollectionNames?
    requires c in live.cols && c in final.cols && live.cols[c].name == final.cols[c].name && !Names(rest[0], c)
    requires final.cols[c].name in replayed.names && replayed.names[final.cols[c].name] == c
    ensures var replayed' := Step(replayed, rest[0]).value;
            final.cols[c].name in replayed'.names && replayed'.names[final.cols[c].name] == c
  {
    var r := rest[0];
    var name := final.cols[c].name;
    if r.RenameCollection? || r.DropCollection? {
      var k := r.cid;
      if k in replayed.cols {
        assert replayed.cols[k].name != name by {
          if k in live.cols && replayed.cols[k].name == live.cols[k].name {
            assert live.names[live.cols[k].name] == k && live.names[live.cols[c].name] == c;
          } else {
            assert final.names[final.cols[k].name] == k && final.names[final.cols[c].name] == c;
          }
        }
      }
    }
  }

  /** The entry under `n` is right: an existing collection, under its present or its final name. */
  ghost predicate EntryOk(s: Img, final: Img, n: string)
    requires n in s.names
  {
    var c := s.names[n];
    c in s.cols && (n == s.cols[c].name || (c in final.cols && n == final.cols[c].name))
  }

  lemma EntrySimStep(live: Img, replayed: Img, final: Img, r: WalRecord)
    requires EntrySim(replayed, final) && FreshSim(live, replayed, final)
    requires Consistent(live) && Legal(live, r) && Step(replayed, r).Some?
    requires r.DropCollection? ==> r.cid !in final.cols
    ensures EntrySim(Step(replayed, r).value, final)
  {
    hide FreshSim, EntryOk, Consistent;
    var replayed' := Step(replayed, r).value;
    forall n | n in replayed'.names ensures EntryOk(replayed', final, n) {
      EntryKept(live, replayed, final, r, n);
    }
  }

  lemma EntryKept(live: Img, replayed: Img, final: Img, r: WalRecord, n: string)
    requires FreshSim(live, replayed, final) && (n in replayed.names ==> EntryOk(replayed, final, n))
    requires Consistent(live) && Legal(live, r) && Step(replayed, r).Some?
    requires r.DropCollection? ==> r.cid !in final.cols
    ensures n in Step(replayed, r).value.names ==> EntryOk(Step(replayed, r).value, final, n)
  {
  }

  lemma NameSimStep(live: Img, replayed: Img, final: Img, r: WalRecord)
    requires NameSim(live, replayed, final) && !r.SwapCollectionNames?
    requires Legal(live, r) && Step(replayed, r).Some?
    ensures NameSim(Next(live, r), Step(replayed, r).value, final)
  {
  }

  lemma RecordSimStep(live: Img, replayed: Img, final: Img, r: WalRecord)
    requires RecordSim(live, replayed, final)
    requires Legal(live, r) && Step(replayed, r).Some?
    requires r.DropCollection? ==> r.cid !in final.cols
    ensures RecordSim(Next(live, r), Step(replayed, r).value, final)
  {
    hide Step, Legal, RecordSim;
    forall c | c in Step(replayed, r).value.cols ensures RecordSimOne(Next(live, r), Step(replayed, r).value, final,
        c) {
      RecordSimAt(live, replayed, final, r, c);
    }
    RecordSimAll(Next(live, r), Step(replayed, r).value, final);
  }

  /** `RecordSim` for one collection. */
  ghost predicate RecordSimOne(live: Img, replayed: Img, final: Img, c: Cid)
    requires c in replayed.cols
  {
    if c in live.cols
    then replayed.cols[c].recs == live.cols[c].recs && replayed.cols[c].dim == live.cols[c].dim
        && replayed.cols[c].metric == live.cols[c].metric
    else c in final.cols && replayed.cols[c].recs == map[]
  }

  lemma RecordSimAll(live: Img, replayed: Img, final: Img)
    requires forall c :: c in replayed.cols ==> RecordSimOne(live, replayed, final, c)
    ensures RecordSim(live, replayed, final)
  {
  }

  lemma RecordSimAt(live: Img, replayed: Img, final: Img, r: WalRecord, c: Cid)
    requires RecordSim(live, replayed, final)
    requires Legal(live, r) && Step(replayed, r).Some? && c in Step(replayed, r).value.cols
    requires r.DropCollection? ==> r.cid !in final.cols
    ensures RecordSimOne(Next(live, r), Step(replayed, r).value, final, c)
  {
    hide UpdateRecs, ExtOk;
  }

  lemma SimStep(before: set<Cid>, live: Img, replayed: Img, final: Img, rest: seq<WalRecord>)
    requires rest != [] && LiveRun(live, final, rest) && Sim(before, live, replayed, final, rest)
    requires Legal(live, rest[0]) && Step(replayed, rest[0]).Some?
    ensures Sim(before, Next(live, rest[0]), Step(replayed, rest[0]).value, final, rest[1..])
  {
    hide Legal, KeySim, RecordSim, EntrySim, SettledSim, UpdateRecs;
    var r := rest[0];
    LiveRunStep(live, final, rest);
    if r.DropCollection? {
      FinalKeys(live, rest, r.cid);
      assert rest[0] == DropCollection(r.cid);
    }
    KeySimStep(before, live, replayed, rest);
    RecordSimStep(live, replayed, final, r);
    NameSimStep(live, replayed, final, r);
    EntrySimStep(live, replayed, final, r);
    SettledSimStep(before, live, replayed, final, rest);
    FinalKeys(Next(live, r), rest[1..], 0);
  }

  lemma ReplayedExtOk(live: Img, replayed: Img, final: Img)
    requires RecordSim(live, replayed, final) && AllExtOk(live)
    ensures AllExtOk(replayed)
  {
    forall c | c in replayed.cols ensures ExtOk(replayed.cols[c].recs) {
      assert c in live.cols ==> ExtOk(live.cols[c].recs);
    }
  }

  /** At the end of the window the simulation is equality. */
  lemma SimDone(before: set<Cid>, final: Img, replayed: Img)
    requires Consistent(final) && Sim(before, final, replayed, final, [])
    ensures replayed == final
  {
    forall c ensures c in replayed.cols <==> c in final.cols {
    }
    assert replayed.cols == final.cols;
    forall c | c in final.cols ensures Settled(c, []) {
    }
    forall n | n in replayed.names ensures n in final.names && final.names[n] == replayed.names[n] {
    }
    assert replayed.names == final.names;
  }

  lemma {:induction false} ReplayEndsAtFinal(before: set<Cid>, live: Img, replayed: Img, final: Img,
      rest: seq<WalRecord>)
    requires LiveRun(live, final, rest) && Sim(before, live, replayed, final, rest)
    requires !UsedThenDropped(before, rest) && AllExtOk(live)
    ensures Replay(replayed, rest) == Some(final)
    ensures Replayable(replayed, rest)
    decreases |rest|
  {
    ReplayedExtOk(live, replayed, final);
    if rest == [] {
      SimDone(before, final, replayed);
    } else {
      LiveRunStep(live, final, rest);
      UsedThenDroppedTail(before, rest);
      KeySimStep(before, live, replayed, rest);
      SimStep(before, live, replayed, final, rest);
      LegalKeepsExt(live, rest[0]);
      ReplayEndsAtFinal(before, Next(live, rest[0]), Step(replayed, rest[0]).value, final, rest[1..]);
    }
  }

  /**
   * The window theorem. When the window has no swap, recovery from the flushed checkpoint ends in
   * exactly the image of the live run (names, ids, records and next id) if and only if no
   * collection older than the window was used in it and dropped later in it.
   */
  lemma WindowReplay(base: Img, tail: seq<WalRecord>)
    requires Consistent(base) && AllExtOk(base) && GoodLog(base, tail) && !HasSwap(tail)
    ensures Replay(base, tail).Some?
    ensures Replay(Checkpoint(base, Replay(base, tail).value), tail) == Replay(base, tail)
        <==> !UsedThenDropped(base.cols.Keys, tail)
    ensures !UsedThenDropped(base.cols.Keys, tail) ==> Replayable(Checkpoint(base, Replay(base, tail).value), tail)
  {
    GoodLogKeeps(base, tail);
    var final := Replay(base, tail).value;
    var start := Checkpoint(base, final);
    RejectedIffUsedThenDropped(base, tail);
    if !UsedThenDropped(base.cols.Keys, tail) {
      forall c | c in base.cols ensures c in final.cols <==> !DroppedIn(c, tail) {
        FinalKeys(base, tail, c);
      }
      SameShape(base, final, tail);
      assert Sim(base.cols.Keys, base, start, final, tail);
      ReplayEndsAtFinal(base.cols.Keys, base, start, final, tail);
    }
  }

  /** A collection keeps its dimension and metric for life. */
  lemma {:induction false} SameShape(s: Img, final: Img, log: seq<WalRecord>)
    requires Consistent(s) && GoodLog(s, log) && Replay(s, log) == Some(final)
    ensures forall c :: c in s.cols && c in final.cols ==>
              s.cols[c].dim == final.cols[c].dim && s.cols[c].metric == final.cols[c].metric
    decreases |log|
  {
    hide Consistent, Step;
    if log != [] {
      LegalKeepsConsistent(s, log[0]);
      LegalSteps(s, log[0]);
      SameShape(Next(s, log[0]), final, log[1..]);
      forall c | c in s.cols && c in final.cols
        ensures s.cols[c].dim == final.cols[c].dim && s.cols[c].metric == final.cols[c].metric
      {
        FinalKeys(s, log, c);
        FinalKeys(Next(s, log[0]), log[1..], c);
        ShapeStep(s, log[0], c);
      }
    }
  }

  lemma LegalSteps(s: Img, r: WalRecord)
    requires Legal(s, r)
    ensures Step(s, r) == Some(Next(s, r))
  {
  }

  lemma ShapeStep(s: Img, r: WalRecord, c: Cid)
    requires Consistent(s) && Legal(s, r) && c in s.cols
    ensures c < Next(s, r).next
    ensures c in Next(s, r).cols
         ==> Next(s, r).cols[c].dim == s.cols[c].dim && Next(s, r).cols[c].metric == s.cols[c].metric
  {
  }

  // ---------------------------------------------------------------------
  // Windows whose only directory records are swaps: exactly when recovery is right
  // ---------------------------------------------------------------------

  ghost predicate OnlySwaps(tail: seq<WalRecord>) {
    forall i :: 0 <= i < |tail| ==> DataOrSwap(tail[i])
  }

  /** The collection that one record hands `c` its name from. */
  function SourceOf(r: WalRecord, c: Cid): Cid {
    if r.SwapCollectionNames? then if c == r.a then r.b else if c == r.b then r.a else c else c
  }

  /** The collection whose starting name `c` ends up with. */
  function Origin(tail: seq<WalRecord>, c: Cid): Cid {
    if tail == [] then c else SourceOf(tail[0], Origin(tail[1..], c))
  }

  /** The same collections with the same records, under possibly different names. */
  ghost predicate SameRecords(s: Img, t: Img) {
    && s.cols.Keys == t.cols.Keys && s.next == t.next
    && forall c :: c in s.cols
          ==> t.cols[c].recs == s.cols[c].recs && t.cols[c].dim == s.cols[c].dim && t.cols[c].metric == s.cols[c].metric
  }

  predicate DataOrSwap(r: WalRecord) {
    IsData(r) || r.SwapCollectionNames?
  }

  lemma LegalSame(s: Img, t: Img, r: WalRecord)
    requires SameRecords(s, t) && Legal(s, r) && DataOrSwap(r)
    ensures Legal(t, r)
  {
    if IsData(r) {
      assert t.cols[r.cid].recs == s.cols[r.cid].recs;
    }
  }

  lemma SameRecordsStep(s: Img, t: Img, r: WalRecord)
    requires SameRecords(s, t) && Legal(s, r) && Legal(t, r) && DataOrSwap(r)
    ensures SameRecords(Next(s, r), Next(t, r))
  {
    var s', t' := Next(s, r), Next(t, r);
    forall c | c in s'.cols
      ensures t'.cols[c].recs == s'.cols[c].recs && t'.cols[c].dim == s'.cols[c].dim
          && t'.cols[c].metric == s'.cols[c].metric
    {
      assert t.cols[c].recs == s.cols[c].recs && t.cols[c].dim == s.cols[c].dim && t.cols[c].metric == s.cols[c].metric;
    }
  }

  lemma {:induction false} SwapKeys(s: Img, log: seq<WalRecord>)
    requires OnlySwaps(log) && Replay(s, log).Some?
    ensures Replay(s, log).value.cols.Keys == s.cols.Keys && Replay(s, log).value.next == s.next
    decreases |log|
  {
    if log != [] {
      OnlySwapsTail(log);
      SwapKeys(Step(s, log[0]).value, log[1..]);
    }
  }

  /** Replaying swaps moves names: `c` ends up with the starting name of its origin. */
  lemma {:induction false} SwapNameAt(t: Img, log: seq<WalRecord>, c: Cid)
    requires OnlySwaps(log) && Replay(t, log).Some? && c in t.cols
    ensures Origin(log, c) in t.cols && c in Replay(t, log).value.cols
    ensures Replay(t, log).value.cols[c].name == t.cols[Origin(log, c)].name
    decreases |log|
  {
    if log != [] {
      OnlySwapsTail(log);
      SwapNameAt(Step(t, log[0]).value, log[1..], c);
    }
  }

  lemma OnlySwapsTail(log: seq<WalRecord>)
    requires log != [] && OnlySwaps(log)
    ensures OnlySwaps(log[1..]) && DataOrSwap(log[0])
  {
    forall i | 0 <= i < |log[1..]| ensures DataOrSwap(log[1..][i]) {
      assert log[1..][i] == log[i + 1];
    }
  }

  lemma {:induction false} SwapReplay(s: Img, t: Img, log: seq<WalRecord>)
    requires Consistent(s) && Consistent(t) && SameRecords(s, t)
    requires GoodLog(s, log) && OnlySwaps(log)
    ensures Replay(s, log).Some? && Replay(t, log).Some?
    ensures Consistent(Replay(t, log).value) && SameRecords(Replay(s, log).value, Replay(t, log).value)
    decreases |log|
  {
    hide Consistent;
    if log != [] {
      var r := log[0];
      OnlySwapsTail(log);
      LegalSame(s, t, r);
      SameRecordsStep(s, t, r);
      LegalKeepsConsistent(s, r);
      LegalKeepsConsistent(t, r);
      SwapReplay(Next(s, r), Next(t, r), log[1..]);
    }
  }

  lemma ConsistentSame(s: Img, t: Img)
    requires Consistent(s) && Consistent(t) && SameRecords(s, t)
    requires forall c :: c in s.cols ==> s.cols[c].name == t.cols[c].name
    ensures s == t
  {
    SameNames(s, t);
    assert s.cols == t.cols;
  }

  /**
   * When swaps are the only directory records of the window, recovery is right if and only if
   * the swaps cancel out, that is, if the directory is back where it was at `rotate`.
   */
  lemma SwapWindowReplay(base: Img, tail: seq<WalRecord>)
    requires Consistent(base) && GoodLog(base, tail) && OnlySwaps(tail)
    ensures Replay(base, tail).Some?
    ensures Replay(Checkpoint(base, Replay(base, tail).value), tail) == Replay(base, tail)
            <==> Replay(base, tail).value.names == base.names
  {
    SwapReplay(base, base, tail);
    var final := Replay(base, tail).value;
    SwapKeys(base, tail);
    SameShape(base, final, tail);
    SwapCheckpoint(base, final);
    SwapReplay(base, Checkpoint(base, final), tail);
    SwapWindowCases(base, final, Checkpoint(base, final), tail);
  }

  lemma SwapCheckpoint(base: Img, final: Img)
    requires Consistent(final) && base.cols.Keys == final.cols.Keys && base.next == final.next
    requires forall c :: c in base.cols && c in final.cols ==>
              base.cols[c].dim == final.cols[c].dim && base.cols[c].metric == final.cols[c].metric
    ensures var start := Checkpoint(base, final);
            Consistent(start) && SameRecords(base, start) &&
                 forall c :: c in start.cols ==> start.cols[c].name == final.cols[c].name
  {
    hide Consistent, SameRecords;
    CheckpointConsistent(base, final);
    CheckpointRecords(base, final);
  }

  lemma CheckpointConsistent(base: Img, final: Img)
    requires Consistent(final)
    ensures Consistent(Checkpoint(base, final))
  {
    var start := Checkpoint(base, final);
    assert forall c :: c in start.cols <==> c in final.cols;
  }

  lemma CheckpointRecords(base: Img, final: Img)
    requires base.cols.Keys == final.cols.Keys && base.next == final.next
    requires forall c :: c in base.cols && c in final.cols ==>
              base.cols[c].dim == final.cols[c].dim && base.cols[c].metric == final.cols[c].metric
    ensures SameRecords(base, Checkpoint(base, final))
  {
    assert forall c :: c in base.cols.Keys <==> c in final.cols.Keys;
  }

  lemma SwapWindowCases(base: Img, final: Img, start: Img, tail: seq<WalRecord>)
    requires OnlySwaps(tail) && Replay(base, tail) == Some(final) && Replay(start, tail).Some?
    requires Consistent(base) && Consistent(final) && base.cols.Keys == final.cols.Keys == start.cols.Keys
    requires Consistent(Replay(start, tail).value) && SameRecords(final, Replay(start, tail).value)
    requires forall c :: c in start.cols ==> start.cols[c].name == final.cols[c].name
    ensures Replay(start, tail).value == final <==> final.names == base.names
  {
    var end := Replay(start, tail).value;
    if final.names == base.names {
      CancelledSwaps(base, final, start, tail, end);
    }
    if end == final {
      forall c | c in base.cols ensures final.cols[c].name == base.cols[c].name {
        RightNameIsOwnName(base, final, start, tail, c);
      }
      SameNames(base, final);
    }
  }

  lemma CancelledSwaps(base: Img, final: Img, start: Img, tail: seq<WalRecord>, end: Img)
    requires OnlySwaps(tail) && Replay(base, tail) == Some(final) && Replay(start, tail) == Some(end)
    requires Consistent(base) && Consistent(final) && Consistent(end) && SameRecords(final, end)
    requires base.cols.Keys == final.cols.Keys == start.cols.Keys
    requires forall c :: c in start.cols ==> start.cols[c].name == final.cols[c].name
    requires final.names == base.names
    ensures end == final
  {
    forall c | c in final.cols ensures end.cols[c].name == final.cols[c].name {
      SwapNameAt(start, tail, c);
      SameOrigin(base, final, Origin(tail, c));
      SwapNameAt(base, tail, c);
    }
    ConsistentSame(final, end);
  }

  lemma RightNameIsOwnName(base: Img, final: Img, start: Img, tail: seq<WalRecord>, c: Cid)
    requires OnlySwaps(tail) && Replay(base, tail) == Some(final) && Replay(start, tail) == Some(final)
    requires Consistent(final) && c in base.cols && c in start.cols && start.cols.Keys == final.cols.Keys
    requires forall k :: k in start.cols ==> start.cols[k].name == final.cols[k].name
    ensures c in final.cols && final.cols[c].name == base.cols[c].name
  {
    var o := Origin(tail, c);
    SwapNameAt(start, tail, c);
    SwapNameAt(base, tail, c);
    assert final.names[final.cols[o].name] == o && final.names[final.cols[c].name] == c;
  }

  lemma SameOrigin(s: Img, t: Img, c: Cid)
    requires Consistent(s) && Consistent(t) && s.names == t.names && c in s.cols && s.cols.Keys == t.cols.Keys
    ensures s.cols[c].name == t.cols[c].name
  {
    assert t.names[s.cols[c].name] == c;
  }

  lemma SameNames(s: Img, t: Img)
    requires Consistent(s) && Consistent(t) && s.cols.Keys == t.cols.Keys
    requires forall c :: c in s.cols ==> s.cols[c].name == t.cols[c].name
    ensures s.names == t.names
  {
    forall n | n in s.names ensures n in t.names && t.names[n] == s.names[n] {
      assert t.cols[s.names[n]].name == n;
    }
    forall n | n in t.names ensures n in s.names {
      assert s.cols[t.names[n]].name == n;
    }
  }

  /**
   * A lone swap in the window is applied twice by recovery, once by the checkpoint's names and
   * once by the log: the two collections come back under the names they had before the swap.
   */
  lemma SwapAppliedTwice(s: Img, a: Cid, b: Cid)
    requires Consistent(s) && a in s.cols && b in s.cols && a != b
    ensures var tail := [SwapCollectionNames(a, b)];
            && GoodLog(s, tail) && Replay(s, tail).Some?
            && var recovered := Replay(Checkpoint(s, Replay(s, tail).value), tail);
            && recovered.Some? && recovered != Replay(s, tail)
            && a in recovered.value.cols && recovered.value.cols[a].name == s.cols[a].name
  {
    var r := SwapCollectionNames(a, b);
    var tail := [r];
    assert tail[1..] == [];
    var final := Step(s, r).value;
    assert Replay(s, tail) == Some(final);
    SwapWindowReplay(s, tail);
    assert final.names[s.cols[a].name] == b;
    var start := Checkpoint(s, final);
    assert Step(start, r).Some? && Replay(start, tail) == Step(start, r);
    assert start.cols[b].name == s.cols[a].name;
  }
}
