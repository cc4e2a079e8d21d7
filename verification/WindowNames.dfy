/**
 * Flush windows with any directory records: creates, drops, renames and swaps in any order. Records,
 * ids and collections always come back; this module proves exactly when the names do too.
 */
module WindowNames {
  import opened Records
  import opened Image
  import opened Window

  // ---------------------------------------------------------------------
  // Where a name comes from
  // ---------------------------------------------------------------------

  /** A collection's name after part of the window: that of a collection at the start, one given since, or none. */
  datatype Slot = Kept(cid: Cid) | Given(name: string) | Gone

  /** Where `c` has its name from after the first `i` records of the window. */
  function NameSource(tail: seq<WalRecord>, i: nat, c: Cid): Slot
    requires i <= |tail|
  {
    if i == 0 then Kept(c)
    else match tail[i - 1]
      case CreateCollection(k, n, _, _) => if k == c then Given(n) else NameSource(tail, i - 1, c)
      case RenameCollection(k, n) => if k == c then Given(n) else NameSource(tail, i - 1, c)
      case DropCollection(k) => if k == c then Gone else NameSource(tail, i - 1, c)
      case SwapCollectionNames(a, b) => NameSource(tail, i - 1, if c == a then b else if c == b then a else c)
      case _ => NameSource(tail, i - 1, c)
  }

  /** The record decides the name of `c`, or moves it. */
  predicate Moves(r: WalRecord, c: Cid) {
    Names(r, c) || (r.SwapCollectionNames? && (r.a == c || r.b == c))
  }

  /** How many records there are up to the last one that names `c`. */
  function LastNaming(tail: seq<WalRecord>, i: nat, c: Cid): (n: nat)
    requires i <= |tail|
    ensures n <= i && (n > 0 ==> Moves(tail[n - 1], c))
    ensures forall j :: n <= j < i ==> !Moves(tail[j], c)
  {
    if i == 0 then 0 else if Moves(tail[i - 1], c) then i else LastNaming(tail, i - 1, c)
  }

  /** The window ends with `c` under a name of its own: its first one, or one the window gave to it. */
  predicate OwnName(tail: seq<WalRecord>, c: Cid) {
    NameSource(tail, |tail|, c) == Kept(c) || NameSource(tail, |tail|, c).Given?
  }

  /** Once the window has named `c` for the last time, no other collection stands under that name on replay. */
  ghost predicate NoRival(tail: seq<WalRecord>, c: Cid, name: string) {
    NoneStands(tail, LastNaming(tail, |tail|, c), c, name)
  }

  ghost predicate NoneStands(tail: seq<WalRecord>, i: nat, c: Cid, name: string)
    requires i <= |tail|
  {
    forall d: Cid :: d != c ==> !StandsUnder(tail, i, d, c, name)
  }

  /** After `i` records, `d` stands on replay under the final name of `c`. */
  predicate StandsUnder(tail: seq<WalRecord>, i: nat, d: Cid, c: Cid, name: string)
    requires i <= |tail|
  {
    NameSource(tail, i, d) == Kept(c) || NameSource(tail, i, d) == Given(name)
  }

  /** Every collection that is left at the end of the window gets its name back on replay. */
  ghost predicate NamesReturn(tail: seq<WalRecord>, final: Img) {
    forall c :: c in final.cols ==> OwnName(tail, c) && NoRival(tail, c, final.cols[c].name)
  }

  /** What a flush window must satisfy for its checkpoint to be recoverable. */
  ghost predicate WindowExact(base: Img, tail: seq<WalRecord>, final: Img) {
    !UsedThenDropped(base.cols.Keys, tail) && NamesReturn(tail, final)
  }

  // ---------------------------------------------------------------------
  // What replay keeps whatever the window holds
  // ---------------------------------------------------------------------

  ghost predicate Core(before: set<Cid>, live: Img, replayed: Img, final: Img, rest: seq<WalRecord>) {
    && KeySim(before, live, replayed, rest)
    && RecordSim(live, replayed, final)
    && EntrySim(replayed, final)
    && FreshSim(live, replayed, final)
    && replayed.next == final.next
  }

  ghost predicate Running(before: set<Cid>, live: Img, replayed: Img, final: Img, rest: seq<WalRecord>) {
    && Consistent(live) && Consistent(final) && AllExtOk(live)
    && GoodLog(live, rest) && Replay(live, rest) == Some(final)
    && !UsedThenDropped(before, rest)
    && Core(before, live, replayed, final, rest)
  }

  lemma FreshStep(live: Img, replayed: Img, final: Img, r: WalRecord)
    requires FreshSim(live, replayed, final) && Legal(live, r) && Step(replayed, r).Some?
    ensures FreshSim(Next(live, r), Step(replayed, r).value, final)
  {
  }

  /** One record: replay does not reject it, and what it keeps, it keeps. */
  lemma RunningStep(before: set<Cid>, live: Img, replayed: Img, final: Img, rest: seq<WalRecord>)
    requires rest != [] && Running(before, live, replayed, final, rest)
    ensures Legal(live, rest[0]) && Step(replayed, rest[0]).Some?
    ensures Running(before, Next(live, rest[0]), Step(replayed, rest[0]).value, final, rest[1..])
  {
    var r := rest[0];
    hide KeySim, RecordSim, EntrySim, FreshSim, UsedThenDropped, Consistent, AllExtOk, Step;
    RunningLive(live, final, rest);
    UsedThenDroppedTail(before, rest);
    KeySimStep(before, live, replayed, rest);
    if r.DropCollection? {
      DroppedIsGone(live, final, rest);
    }
    RecordSimStep(live, replayed, final, r);
    FreshStep(live, replayed, final, r);
    EntrySimStep(live, replayed, final, r);
    NextStep(live, replayed, final, rest);
  }

  lemma RunningLive(live: Img, final: Img, rest: seq<WalRecord>)
    requires rest != [] && Consistent(live) && AllExtOk(live) && GoodLog(live, rest)
        && Replay(live, rest) == Some(final)
    ensures Legal(live, rest[0]) && Consistent(Next(live, rest[0])) && AllExtOk(Next(live, rest[0]))
    ensures GoodLog(Next(live, rest[0]), rest[1..]) && Replay(Next(live, rest[0]), rest[1..]) == Some(final)
    ensures Step(live, rest[0]) == Some(Next(live, rest[0]))
  {
    LegalKeepsConsistent(live, rest[0]);
    LegalKeepsExt(live, rest[0]);
  }

  lemma DroppedIsGone(live: Img, final: Img, rest: seq<WalRecord>)
    requires rest != [] && Consistent(live) && GoodLog(live, rest) && Replay(live, rest) == Some(final)
    requires rest[0].DropCollection?
    ensures rest[0].cid !in final.cols
  {
    FinalKeys(live, rest, rest[0].cid);
    assert rest[0] == DropCollection(rest[0].cid);
  }

  lemma NextStep(live: Img, replayed: Img, final: Img, rest: seq<WalRecord>)
    requires rest != [] && Consistent(live) && GoodLog(live, rest) && Replay(live, rest) == Some(final)
    requires Step(replayed, rest[0]).Some? && replayed.next == final.next
    ensures Step(replayed, rest[0]).value.next == final.next
  {
    LegalKeepsConsistent(live, rest[0]);
    FinalKeys(Next(live, rest[0]), rest[1..], 0);
  }

  /** Along a whole part of the window. */
  lemma {:induction false} RunningAlong(before: set<Cid>, live: Img, replayed: Img, final: Img, part: seq<WalRecord>,
      rest: seq<WalRecord>)
    requires Running(before, live, replayed, final, part + rest)
    ensures Replay(live, part).Some? && Replay(replayed, part).Some?
    ensures Running(before, Replay(live, part).value, Replay(replayed, part).value, final, rest)
    decreases |part|
  {
    hide Running, Step;
    if part == [] {
      assert part + rest == rest;
    } else {
      RunningStep(before, live, replayed, final, part + rest);
      RunningNow(before, live, replayed, final, part + rest);
      assert (part + rest)[1..] == part[1..] + rest && (part + rest)[0] == part[0];
      RunningAlong(before, Next(live, part[0]), Step(replayed, part[0]).value, final, part[1..], rest);
    }
  }

  lemma RunningNow(before: set<Cid>, live: Img, replayed: Img, final: Img, rest: seq<WalRecord>)
    requires rest != [] && Running(before, live, replayed, final, rest)
    ensures Step(live, rest[0]) == Some(Next(live, rest[0]))
  {
    RunningLive(live, final, rest);
  }

  /** String ids stay unique all along the replay. */
  lemma {:induction false} RunningReplayable(before: set<Cid>, live: Img, replayed: Img, final: Img,
      rest: seq<WalRecord>)
    requires Running(before, live, replayed, final, rest)
    ensures Replayable(replayed, rest)
    decreases |rest|
  {
    ReplayedExtOk(live, replayed, final);
    hide Running, AllExtOk, Step;
    if rest != [] {
      RunningStep(before, live, replayed, final, rest);
      RunningReplayable(before, Next(live, rest[0]), Step(replayed, rest[0]).value, final, rest[1..]);
    }
  }

  lemma StartRunning(base: Img, tail: seq<WalRecord>, final: Img)
    requires Consistent(base) && AllExtOk(base) && GoodLog(base, tail) && Replay(base, tail) == Some(final)
    requires !UsedThenDropped(base.cols.Keys, tail)
    ensures Running(base.cols.Keys, base, Checkpoint(base, final), final, tail)
  {
    hide AllExtOk, UsedThenDropped, Step, RecordSim, EntrySim, FreshSim, KeySim, Checkpoint;
    GoodLogKeeps(base, tail);
    StartKeys(base, tail, final);
    SameShape(base, final, tail);
    StartSim(base, final);
  }

  lemma StartKeys(base: Img, tail: seq<WalRecord>, final: Img)
    requires Consistent(base) && GoodLog(base, tail) && Replay(base, tail) == Some(final)
    ensures KeySim(base.cols.Keys, base, Checkpoint(base, final), tail)
  {
    hide Step;
    forall c | c in base.cols ensures c in final.cols <==> !DroppedIn(c, tail) {
      FinalKeys(base, tail, c);
    }
  }

  lemma StartSim(base: Img, final: Img)
    requires Consistent(final)
    requires forall c :: c in base.cols && c in final.cols ==>
              base.cols[c].dim == final.cols[c].dim && base.cols[c].metric == final.cols[c].metric
    ensures var start := Checkpoint(base, final);
            RecordSim(base, start, final) && EntrySim(start, final) && FreshSim(base, start, final)
                && start.next == final.next
  {
  }

  // ---------------------------------------------------------------------
  // Names on replay
  // ---------------------------------------------------------------------

  lemma ReplaySnoc(s: Img, tail: seq<WalRecord>, i: nat)
    requires 0 < i <= |tail|
    ensures Replay(s, tail[..i]) ==
      match Replay(s, tail[..i - 1])
      case None => None
      case Some(m) => Step(m, tail[i - 1])
  {
    assert tail[..i] == tail[..i - 1] + [tail[i - 1]];
    ReplayAppend(s, tail[..i - 1], [tail[i - 1]]);
    assert [tail[i - 1]][1..] == [];
  }

  /** The name a collection has on replay is the one its source says. */
  ghost predicate HasName(start: Img, now: Img, c: Cid, slot: Slot) {
    match slot
    case Kept(o) => o in start.cols && c in now.cols && now.cols[c].name == start.cols[o].name
    case Given(n) => c in now.cols && now.cols[c].name == n
    case Gone => c !in now.cols
  }

  /**
   * Sources are right for every collection that exists, and a name that is not a collection's first one belongs to
   * some.
   */
  lemma {:induction false} SourceNames(start: Img, tail: seq<WalRecord>, i: nat, now: Img, c: Cid)
    requires i <= |tail| && Replay(start, tail[..i]) == Some(now)
    ensures SourceRight(start, now, c, NameSource(tail, i, c))
    decreases i
  {
    hide Step, SourceRight, Replay;
    if i == 0 {
      assert tail[..0] == [];
      StartsRight(start, now, c);
    } else {
      ReplaySnoc(start, tail, i);
      var was := Replay(start, tail[..i - 1]).value;
      var from := SourceOf(tail[i - 1], c);
      SourceNames(start, tail, i - 1, was, from);
      SourceStep(start, was, now, tail, i, c);
    }
  }

  ghost predicate SourceRight(start: Img, now: Img, c: Cid, slot: Slot) {
    c in now.cols || slot != Kept(c) ==> HasName(start, now, c, slot)
  }

  lemma StartsRight(start: Img, now: Img, c: Cid)
    requires Replay(start, []) == Some(now)
    ensures SourceRight(start, now, c, Kept(c))
  {
  }

  lemma SourceStep(start: Img, was: Img, now: Img, tail: seq<WalRecord>, i: nat, c: Cid)
    requires 0 < i <= |tail| && Step(was, tail[i - 1]) == Some(now)
    requires SourceRight(start, was, SourceOf(tail[i - 1], c), NameSource(tail, i - 1, SourceOf(tail[i - 1], c)))
    ensures SourceRight(start, now, c, NameSource(tail, i, c))
  {
  }

  // ---------------------------------------------------------------------
  // After its last naming, a collection's directory entry can only get lost
  // ---------------------------------------------------------------------

  ghost predicate Quiet(c: Cid, rest: seq<WalRecord>) {
    forall i :: 0 <= i < |rest| ==> !Moves(rest[i], c)
  }

  ghost predicate Listed(s: Img, c: Cid, name: string) {
    name in s.names && s.names[name] == c
  }

  ghost predicate Sole(s: Img, c: Cid, name: string) {
    forall d :: d in s.cols && s.cols[d].name == name ==> d == c
  }

  lemma QuietTail(c: Cid, rest: seq<WalRecord>)
    requires rest != [] && Quiet(c, rest)
    ensures !Moves(rest[0], c) && Quiet(c, rest[1..])
  {
    forall i | 0 <= i < |rest[1..]| ensures !Moves(rest[1..][i], c) {
      assert rest[1..][i] == rest[i + 1];
    }
  }

  /** A quiet collection keeps its live name, which no other record can take. */
  lemma {:induction false} QuietName(live: Img, rest: seq<WalRecord>, c: Cid, final: Img)
    requires Consistent(live) && GoodLog(live, rest) && Replay(live, rest) == Some(final)
    requires Quiet(c, rest) && c in final.cols
    ensures c in live.cols && live.cols[c].name == final.cols[c].name
    decreases |rest|
  {
    if rest != [] {
      LegalKeepsConsistent(live, rest[0]);
      QuietTail(c, rest);
      QuietName(Next(live, rest[0]), rest[1..], c, final);
    }
  }

  lemma TaughtName(live: Img, r: WalRecord, c: Cid)
    requires Consistent(live) && Legal(live, r) && c in live.cols
    ensures r.CreateCollection? ==> r.name != live.cols[c].name
    ensures r.RenameCollection? ==> r.newName != live.cols[c].name
  {
  }

  /** One record about other collections keeps a sole entry. */
  lemma SoleStep(live: Img, replayed: Img, c: Cid, name: string, r: WalRecord)
    requires Consistent(live) && Legal(live, r) && c in live.cols && live.cols[c].name == name
    requires !Moves(r, c) && Step(replayed, r).Some?
    requires Listed(replayed, c, name) && Sole(replayed, c, name)
    ensures Listed(Step(replayed, r).value, c, name) && Sole(Step(replayed, r).value, c, name)
  {
    TaughtName(live, r, c);
  }

  /** One record about other collections does not repair a lost or contested entry. */
  lemma LostStep(live: Img, replayed: Img, final: Img, c: Cid, name: string, r: WalRecord)
    requires Consistent(live) && Legal(live, r) && c in live.cols && live.cols[c].name == name
    requires Consistent(final) && c in final.cols && final.cols[c].name == name && FreshSim(live, replayed, final)
    requires !Moves(r, c) && Step(replayed, r).Some?
    requires !Listed(replayed, c, name) || !Sole(replayed, c, name)
    ensures !Listed(Step(replayed, r).value, c, name) || !Sole(Step(replayed, r).value, c, name)
  {
    TaughtName(live, r, c);
    if Listed(replayed, c, name) {
      var d :| d in replayed.cols && replayed.cols[d].name == name && d != c;
      RivalStep(live, replayed, final, c, d, name, r);
    }
  }

  lemma RivalStep(live: Img, replayed: Img, final: Img, c: Cid, d: Cid, name: string, r: WalRecord)
    requires Consistent(live) && Legal(live, r) && c in live.cols && live.cols[c].name == name
    requires Consistent(final) && c in final.cols && final.cols[c].name == name && FreshSim(live, replayed, final)
    requires !Moves(r, c) && Step(replayed, r).Some?
    requires d in replayed.cols && replayed.cols[d].name == name && d != c
    ensures var s := Step(replayed, r).value; !Listed(s, c, name) || (d in s.cols && s.cols[d].name == name)
  {
    TaughtName(live, r, c);
  }

  lemma {:induction false} SoleAlong(before: set<Cid>, live: Img, replayed: Img, final: Img, rest: seq<WalRecord>,
      c: Cid, name: string)
    requires Running(before, live, replayed, final, rest) && Quiet(c, rest)
    requires c in final.cols && final.cols[c].name == name
    ensures Replay(replayed, rest).Some?
    ensures Listed(replayed, c, name) && Sole(replayed, c, name)
            <==> Listed(Replay(replayed, rest).value, c, name) && Sole(Replay(replayed, rest).value, c, name)
    decreases |rest|
  {
    hide Step, Listed, Sole, Quiet, Core, UsedThenDropped, Consistent, AllExtOk;
    if rest != [] {
      var r := rest[0];
      RunningFacts(before, live, replayed, final, rest);
      QuietName(live, rest, c, final);
      QuietTail(c, rest);
      RunningStep(before, live, replayed, final, rest);
      if Listed(replayed, c, name) && Sole(replayed, c, name) {
        SoleStep(live, replayed, c, name, r);
      } else {
        LostStep(live, replayed, final, c, name, r);
      }
      SoleAlong(before, Next(live, r), Step(replayed, r).value, final, rest[1..], c, name);
    }
  }

  lemma RunningFacts(before: set<Cid>, live: Img, replayed: Img, final: Img, rest: seq<WalRecord>)
    requires Running(before, live, replayed, final, rest)
    ensures FreshSim(live, replayed, final) && EntrySim(replayed, final) && RecordSim(live, replayed, final)
    ensures KeySim(before, live, replayed, rest) && replayed.next == final.next && Consistent(final)
  {
    hide KeySim, RecordSim, EntrySim, FreshSim, Consistent;
  }

  // ---------------------------------------------------------------------
  // One collection
  // ---------------------------------------------------------------------

  /** On replay, `c` ends under its final name, listed there, and alone there. */
  ghost predicate Returned(end: Img, final: Img, c: Cid)
    requires c in final.cols
  {
    && c in end.cols && end.cols[c].name == final.cols[c].name
    && Listed(end, c, final.cols[c].name) && Sole(end, c, final.cols[c].name)
  }

  /** The collections and names a checkpoint starts from are the final ones. */
  ghost predicate FinalNames(start: Img, final: Img) {
    && start.cols.Keys == final.cols.Keys && start.names == final.names && Consistent(final)
    && forall k :: k in start.cols ==> start.cols[k].name == final.cols[k].name
  }

  lemma SameNameSameColl(s: Img, c: Cid, d: Cid)
    requires Consistent(s) && c in s.cols && d in s.cols && s.cols[c].name == s.cols[d].name
    ensures c == d
  {
    assert s.names[s.cols[c].name] == c && s.names[s.cols[d].name] == d;
  }

  lemma EndName(base: Img, start: Img, tail: seq<WalRecord>, end: Img, final: Img, c: Cid)
    requires Replay(base, tail) == Some(final) && Replay(start, tail) == Some(end) && FinalNames(start, final)
    requires c in end.cols && c in final.cols
    ensures end.cols[c].name == final.cols[c].name <==> OwnName(tail, c)
  {
    hide NameSource, Step;
    assert tail[..|tail|] == tail;
    SourceNames(start, tail, |tail|, end, c);
    SourceNames(base, tail, |tail|, final, c);
    var slot := NameSource(tail, |tail|, c);
    if slot.Kept? && end.cols[c].name == final.cols[c].name {
      SameNameSameColl(final, c, slot.cid);
    }
  }

  lemma {:induction false} QuietSource(tail: seq<WalRecord>, i: nat, j: nat, c: Cid)
    requires i <= j <= |tail| && forall k :: i <= k < j ==> !Moves(tail[k], c)
    ensures NameSource(tail, j, c) == NameSource(tail, i, c)
    decreases j
  {
    if i < j {
      QuietSource(tail, i, j - 1, c);
    }
  }

  /** A rival on replay is a collection whose source says so. */
  lemma RivalSource(start: Img, tail: seq<WalRecord>, i: nat, now: Img, final: Img, c: Cid, d: Cid)
    requires i <= |tail| && Replay(start, tail[..i]) == Some(now) && FinalNames(start, final) && c in final.cols
    ensures d in now.cols && now.cols[d].name == final.cols[c].name
            <==>
            (d in now.cols && NameSource(tail, i, d) == Kept(c)) || NameSource(tail, i, d) == Given(final.cols[c].name)
    ensures d != c && NameSource(tail, i, d) == Kept(c) ==> d in now.cols
  {
    hide NameSource, Step;
    SourceNames(start, tail, i, now, d);
    var slot := NameSource(tail, i, d);
    if d in now.cols && slot.Kept? && now.cols[d].name == final.cols[c].name {
      SameNameSameColl(final, c, slot.cid);
    }
  }

  lemma NoneStandsIsSole(start: Img, tail: seq<WalRecord>, i: nat, now: Img, final: Img, c: Cid)
    requires i <= |tail| && Replay(start, tail[..i]) == Some(now) && FinalNames(start, final) && c in final.cols
    ensures NoneStands(tail, i, c, final.cols[c].name) <==> Sole(now, c, final.cols[c].name)
  {
    hide StandsUnder, FinalNames, Replay;
    forall d: Cid | d != c
      ensures d in now.cols && now.cols[d].name == final.cols[c].name
          <==> StandsUnder(tail, i, d, c, final.cols[c].name)
    {
      RivalStands(start, tail, i, now, final, c, d);
    }
  }

  lemma RivalStands(start: Img, tail: seq<WalRecord>, i: nat, now: Img, final: Img, c: Cid, d: Cid)
    requires i <= |tail| && Replay(start, tail[..i]) == Some(now) && FinalNames(start, final) && c in final.cols
        && d != c
    ensures d in now.cols && now.cols[d].name == final.cols[c].name <==> StandsUnder(tail, i, d, c, final.cols[c].name)
  {
    hide NameSource;
    RivalSource(start, tail, i, now, final, c, d);
  }

  /** Naming lists a collection under its new name, unless a swap gives the name to both. */
  lemma NamingLists(s: Img, r: WalRecord, c: Cid, name: string)
    requires Step(s, r).Some? && Moves(r, c) && c in Step(s, r).value.cols && Step(s, r).value.cols[c].name == name
    requires Sole(Step(s, r).value, c, name)
    ensures Listed(Step(s, r).value, c, name)
  {
    var s' := Step(s, r).value;
    if r.SwapCollectionNames? {
      assert r.a in s'.cols && r.b in s'.cols;
      assert s'.cols[r.a].name == name ==> r.a == c;
      assert s'.cols[r.b].name == name ==> r.b == c;
    }
  }

  lemma NamedLists(start: Img, tail: seq<WalRecord>, i: nat, now: Img, final: Img, c: Cid)
    requires i <= |tail| && Replay(start, tail[..i]) == Some(now) && (i > 0 ==> Moves(tail[i - 1], c))
    requires FinalNames(start, final) && c in final.cols
    requires c in now.cols && now.cols[c].name == final.cols[c].name && Sole(now, c, final.cols[c].name)
    ensures Listed(now, c, final.cols[c].name)
  {
    hide Step, Moves;
    if i == 0 {
      assert tail[..0] == [];
      assert now == start;
    } else {
      ReplaySnoc(start, tail, i);
      NamingLists(Replay(start, tail[..i - 1]).value, tail[i - 1], c, final.cols[c].name);
    }
  }

  /** The state of both runs right after the last naming of `c`. */
  lemma AtLastNaming(before: set<Cid>, base: Img, start: Img, tail: seq<WalRecord>, final: Img, c: Cid)
    requires Running(before, base, start, final, tail) && c in final.cols
    ensures Replay(start, tail).Some?
    ensures var i := LastNaming(tail, |tail|, c);
            && Replay(base, tail[..i]).Some? && Replay(start, tail[..i]).Some?
            && Running(before, Replay(base, tail[..i]).value, Replay(start, tail[..i]).value, final, tail[i..])
            && Replay(Replay(start, tail[..i]).value, tail[i..]) == Replay(start, tail)
            && c in Replay(start, tail[..i]).value.cols && Quiet(c, tail[i..])
  {
    hide Running, LastNaming, Step, Quiet;
    var i := LastNaming(tail, |tail|, c);
    assert tail == tail[..i] + tail[i..];
    QuietAfterLast(tail, c);
    RunningAlong(before, base, start, final, tail[..i], tail[i..]);
    ReplayAppend(start, tail[..i], tail[i..]);
    StillThere(before, Replay(base, tail[..i]).value, Replay(start, tail[..i]).value, final, tail[i..], c);
    assert tail == tail + [];
    RunningAlong(before, base, start, final, tail, []);
  }

  lemma QuietAfterLast(tail: seq<WalRecord>, c: Cid)
    ensures Quiet(c, tail[LastNaming(tail, |tail|, c)..])
  {
  }

  lemma StillThere(before: set<Cid>, live: Img, replayed: Img, final: Img, rest: seq<WalRecord>, c: Cid)
    requires Running(before, live, replayed, final, rest) && Quiet(c, rest) && c in final.cols
    ensures c in replayed.cols
  {
    QuietName(live, rest, c, final);
    assert DroppedIn(c, rest) ==> !Quiet(c, rest) by {
      if j :| 0 <= j < |rest| && rest[j] == DropCollection(c) {
        assert Moves(rest[j], c);
      }
    }
  }

  /** One collection: it gets its name back on replay exactly when its name is its own and without a rival. */
  lemma ReturnedIff(before: set<Cid>, base: Img, start: Img, tail: seq<WalRecord>, final: Img, c: Cid)
    requires Running(before, base, start, final, tail) && FinalNames(start, final) && c in final.cols
    ensures Replay(start, tail).Some? && c in Replay(start, tail).value.cols
    ensures Returned(Replay(start, tail).value, final, c) <==> OwnName(tail, c) && NoRival(tail, c, final.cols[c].name)
  {
    hide Step, Running, LastNaming, NameSource, Sole, Listed, Quiet, FinalNames, Moves, NoneStands, OwnName;
    LiveEnd(before, base, start, tail, final);
    AtLastNaming(before, base, start, tail, final, c);
    var i := LastNaming(tail, |tail|, c);
    var now, end := Replay(start, tail[..i]).value, Replay(start, tail).value;
    KeptThere(before, base, start, tail, final, c, end);
    EndName(base, start, tail, end, final, c);
    NoneStandsIsSole(start, tail, i, now, final, c);
    SoleAlong(before, Replay(base, tail[..i]).value, now, final, tail[i..], c, final.cols[c].name);
    if OwnName(tail, c) && Sole(now, c, final.cols[c].name) {
      NameAtLast(base, start, tail, now, end, final, c);
      LastMoves(tail, c);
      NamedLists(start, tail, i, now, final, c);
    }
  }

  lemma LastMoves(tail: seq<WalRecord>, c: Cid)
    ensures var i := LastNaming(tail, |tail|, c); i > 0 ==> Moves(tail[i - 1], c)
  {
  }

  lemma KeptThere(before: set<Cid>, base: Img, start: Img, tail: seq<WalRecord>, final: Img, c: Cid, end: Img)
    requires Running(before, base, start, final, tail) && c in final.cols && Replay(start, tail) == Some(end)
    ensures c in end.cols && Running(before, final, end, final, [])
  {
    assert tail == tail + [];
    RunningAlong(before, base, start, final, tail, []);
    StillThere(before, final, end, final, [], c);
  }

  lemma NameAtLast(base: Img, start: Img, tail: seq<WalRecord>, now: Img, end: Img, final: Img, c: Cid)
    requires Replay(start, tail[..LastNaming(tail, |tail|, c)]) == Some(now) && Replay(start, tail) == Some(end)
    requires c in now.cols && c in end.cols
    ensures now.cols[c].name == end.cols[c].name
  {
    hide NameSource, Step;
    var i := LastNaming(tail, |tail|, c);
    QuietSource(tail, i, |tail|, c);
    assert tail[..|tail|] == tail;
    SourceNames(start, tail, i, now, c);
    SourceNames(start, tail, |tail|, end, c);
  }

  // ---------------------------------------------------------------------
  // The window theorem
  // ---------------------------------------------------------------------

  /** At the end of the window everything but the names is as in the live run. */
  lemma EndIsFinalIff(before: set<Cid>, end: Img, final: Img)
    requires Running(before, final, end, final, [])
    ensures end == final <==> forall c :: c in final.cols ==> Returned(end, final, c)
  {
    if end == final {
      forall c | c in final.cols ensures Returned(end, final, c) {
        FinalReturned(before, final, c);
      }
    } else if forall c :: c in final.cols ==> Returned(end, final, c) {
      AllReturned(before, end, final);
    }
  }

  lemma FinalReturned(before: set<Cid>, final: Img, c: Cid)
    requires Consistent(final) && c in final.cols
    ensures Returned(final, final, c)
  {
    forall d | d in final.cols && final.cols[d].name == final.cols[c].name ensures d == c {
      SameNameSameColl(final, c, d);
    }
  }

  lemma AllReturned(before: set<Cid>, end: Img, final: Img)
    requires Running(before, final, end, final, [])
    requires forall c :: c in final.cols ==> Returned(end, final, c)
    ensures end == final
  {
    hide Sole, UsedThenDropped, AllExtOk;
    RunningFacts(before, final, end, final, []);
    forall c ensures c in end.cols <==> c in final.cols {
    }
    assert end.cols == final.cols;
    forall n | n in end.names ensures n in final.names && final.names[n] == end.names[n] {
    }
    forall n | n in final.names ensures n in end.names {
      assert Returned(end, final, final.names[n]);
    }
    assert end.names == final.names;
  }

  /**
   * The window theorem, for windows with any records: recovery from the flushed checkpoint ends in
   * exactly the image of the live run if and only if no collection older than the window was used in it
   * and dropped later in it, and every collection left ends under a name of its own that no
   * other collection stands under after its last naming.
   */
  lemma WindowReplayIff(base: Img, tail: seq<WalRecord>)
    requires Consistent(base) && AllExtOk(base) && GoodLog(base, tail)
    ensures Replay(base, tail).Some?
    ensures var final := Replay(base, tail).value;
            && (Replay(Checkpoint(base, final), tail) == Some(final) <==> WindowExact(base, tail, final))
            && (Replay(Checkpoint(base, final), tail).Some? <==> !UsedThenDropped(base.cols.Keys, tail))
            && (!UsedThenDropped(base.cols.Keys, tail) ==>
                  && Replayable(Checkpoint(base, final), tail)
                  && Replay(Checkpoint(base, final), tail).Some?
                  && SameRecords(final, Replay(Checkpoint(base, final), tail).value))
  {
    GoodLogKeeps(base, tail);
    var final := Replay(base, tail).value;
    var start := Checkpoint(base, final);
    RejectedIffUsedThenDropped(base, tail);
    if !UsedThenDropped(base.cols.Keys, tail) {
      StartRunning(base, tail, final);
      RunningReplayable(base.cols.Keys, base, start, final, tail);
      assert FinalNames(start, final);
      EndRecords(base.cols.Keys, base, start, tail, final);
      NamesReturnIff(base.cols.Keys, base, start, tail, final);
    }
  }

  /** Whatever becomes of the names, collections and records are those of the live run. */
  lemma EndRecords(before: set<Cid>, base: Img, start: Img, tail: seq<WalRecord>, final: Img)
    requires Running(before, base, start, final, tail)
    ensures Replay(start, tail).Some? && SameRecords(final, Replay(start, tail).value)
  {
    hide Running, Step, Replay;
    assert tail == tail + [];
    RunningAlong(before, base, start, final, tail, []);
    LiveEnd(before, base, start, tail, final);
    var end := Replay(start, tail).value;
    RunningFacts(before, final, end, final, []);
    forall c ensures c in end.cols <==> c in final.cols {
    }
  }

  lemma NamesReturnIff(before: set<Cid>, base: Img, start: Img, tail: seq<WalRecord>, final: Img)
    requires Running(before, base, start, final, tail) && FinalNames(start, final)
    ensures Replay(start, tail) == Some(final) <==> NamesReturn(tail, final)
  {
    hide Step, Running, OwnName, NoRival, FinalNames, Returned;
    assert tail == tail + [];
    RunningAlong(before, base, start, final, tail, []);
    LiveEnd(before, base, start, tail, final);
    var end := Replay(start, tail).value;
    EndIsFinalIff(before, end, final);
    forall c | c in final.cols
      ensures Returned(end, final, c) <==> OwnName(tail, c) && NoRival(tail, c, final.cols[c].name)
    {
      ReturnedIff(before, base, start, tail, final, c);
    }
  }

  lemma LiveEnd(before: set<Cid>, base: Img, start: Img, tail: seq<WalRecord>, final: Img)
    requires Running(before, base, start, final, tail)
    ensures Replay(base, tail) == Some(final)
  {
  }

  /** Without swaps every name returns, so only rejection is left to fear. */
  lemma SwapFreeNamesReturn(base: Img, tail: seq<WalRecord>)
    requires Consistent(base) && AllExtOk(base) && GoodLog(base, tail) && !HasSwap(tail)
    requires !UsedThenDropped(base.cols.Keys, tail)
    ensures Replay(base, tail).Some? && NamesReturn(tail, Replay(base, tail).value)
  {
    hide Step, Consistent, AllExtOk, NamesReturn, UsedThenDropped, HasSwap, Replayable;
    WindowReplay(base, tail);
    WindowReplayIff(base, tail);
  }

  /**
   * A name of its own is not enough: after a swap and a rename of both collections, replay loses a
   * directory entry, because the second collection stood under the first one's new name.
   */
  lemma RenamedAfterSwap(s: Img, a: Cid, b: Cid, p: string, q: string)
    requires Consistent(s) && AllExtOk(s) && a in s.cols && b in s.cols && a != b
    requires p !in s.names && q !in s.names && p != q
    ensures var tail := [SwapCollectionNames(a, b), RenameCollection(a, p), RenameCollection(b, q)];
            && GoodLog(s, tail) && Replay(s, tail).Some?
            && OwnName(tail, a) && OwnName(tail, b) && !NamesReturn(tail, Replay(s, tail).value)
            && Replay(Checkpoint(s, Replay(s, tail).value), tail) != Replay(s, tail)
  {
    hide NameSource, LastNaming, Step, Consistent, AllExtOk, GoodLog, Replay, Checkpoint, UsedThenDropped, Replayable,
         StandsUnder;
    var tail := [SwapCollectionNames(a, b), RenameCollection(a, p), RenameCollection(b, q)];
    RenamedAfterSwapLegal(s, a, b, p, q);
    RenamedAfterSwapSources(a, b, p, q);
    WindowReplayIff(s, tail);
    var final := Replay(s, tail).value;
    StandsThere(tail, 2, b, a, final.cols[a].name);
  }

  lemma StandsThere(tail: seq<WalRecord>, i: nat, d: Cid, c: Cid, name: string)
    requires i <= |tail| && d != c && NameSource(tail, i, d) == Kept(c) && LastNaming(tail, |tail|, c) == i
    ensures !NoRival(tail, c, name)
  {
    assert StandsUnder(tail, i, d, c, name);
  }

  lemma RenamedAfterSwapSources(a: Cid, b: Cid, p: string, q: string)
    requires a != b
    ensures var tail := [SwapCollectionNames(a, b), RenameCollection(a, p), RenameCollection(b, q)];
            && NameSource(tail, 3, a) == Given(p) && NameSource(tail, 3, b) == Given(q)
            && NameSource(tail, 2, b) == Kept(a) && LastNaming(tail, 3, a) == 2
  {
    var tail := [SwapCollectionNames(a, b), RenameCollection(a, p), RenameCollection(b, q)];
    assert NameSource(tail, 1, b) == NameSource(tail, 0, a);
    assert NameSource(tail, 2, a) == Given(p);
  }

  lemma GoodCons(s: Img, r: WalRecord, rest: seq<WalRecord>)
    requires Legal(s, r) && GoodLog(Next(s, r), rest)
    ensures GoodLog(s, [r] + rest) && Replay(s, [r] + rest) == Replay(Next(s, r), rest)
  {
    hide Legal;
    assert ([r] + rest)[1..] == rest;
    assert Step(s, r).Some? by {
      LegalSteps(s, r);
    }
  }

  lemma SwapStays(s: Img, a: Cid, b: Cid)
    requires Consistent(s) && a in s.cols && b in s.cols && a != b
    ensures var r := SwapCollectionNames(a, b);
            Legal(s, r) && Next(s, r).cols.Keys == s.cols.Keys && Next(s, r).names.Keys == s.names.Keys
  {
  }

  lemma RenameStays(s: Img, c: Cid, n: string)
    requires c in s.cols && n !in s.names
    ensures var r := RenameCollection(c, n);
            Legal(s, r) && Next(s, r).cols.Keys == s.cols.Keys && Next(s, r).names.Keys <= s.names.Keys + {n}
  {
  }

  lemma RenamedAfterSwapLegal(s: Img, a: Cid, b: Cid, p: string, q: string)
    requires Consistent(s) && a in s.cols && b in s.cols && a != b
    requires p !in s.names && q !in s.names && p != q
    ensures var tail := [SwapCollectionNames(a, b), RenameCollection(a, p), RenameCollection(b, q)];
            GoodLog(s, tail) && Replay(s, tail).Some? && a in Replay(s, tail).value.cols
  {
    hide Consistent, Legal, Next, Step;
    var swap, first, second := SwapCollectionNames(a, b), RenameCollection(a, p), RenameCollection(b, q);
    SwapStays(s, a, b);
    var s1 := Next(s, swap);
    assert p !in s1.names.Keys && q !in s1.names.Keys;
    RenameStays(s1, a, p);
    var s2 := Next(s1, first);
    assert q !in s2.names.Keys;
    RenameStays(s2, b, q);
    var s3 := Next(s2, second);
    GoodCons(s2, second, []);
    GoodCons(s1, first, [second]);
    GoodCons(s, swap, [first, second]);
    assert [swap] + ([first] + [second]) == [swap, first, second];
    assert a in s3.cols.Keys;
  }
}
