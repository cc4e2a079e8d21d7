/**
 * The serialised graph: one compressed-sparse-row section a level, after a padded header and the
 * level table. Opening the bytes that serialisation produced gives back every neighbour list.
 */
module HnswFormat {
  import opened Records
  import opened Bytes
  import opened HnswGraphs
  import Segments

  const MAGIC_HNSW: seq<Byte> := [72, 65, 77, 65, 78, 69, 72, 1]
  const HEADER_LEN: nat := 64
  const NO_ENTRY: nat := 0xFFFF_FFFF

  /** Nodes below `n` that reach the level, ascending. */
  function IdsAt(levels: seq<nat>, level: nat, n: nat): (ids: seq<nat>)
    requires n <= |levels|
  {
    if n == 0 then []
    else IdsAt(levels, level, n - 1) + if levels[n - 1] >= level then [n - 1] else []
  }

  /** Where each list starts, and the end of the last. */
  function Offsets(g: Graph, level: nat, ids: seq<nat>): (offsets: seq<nat>)
    requires forall i :: 0 <= i < |ids| ==> ids[i] < |g.lists|
    ensures |offsets| == |ids| + 1
  {
    if ids == [] then [0]
    else
      var front := Offsets(g, level, ids[..|ids| - 1]);
      front + [front[|ids| - 1] + |g.Neighbors(level, ids[|ids| - 1])|]
  }

  function Flat(g: Graph, level: nat, ids: seq<nat>): seq<nat>
    requires forall i :: 0 <= i < |ids| ==> ids[i] < |g.lists|
  {
    if ids == [] then [] else Flat(g, level, ids[..|ids| - 1]) + g.Neighbors(level, ids[|ids| - 1])
  }

  datatype LevelView = LevelView(ids: seq<nat>, offsets: seq<nat>, flat: seq<nat>) {
    function ToWords(): seq<nat> {
      [|ids|] + ids + offsets + flat
    }
  }

  datatype View = View(nodeCount: nat, maxLevel: nat, entry: Option<nat>, levels: seq<nat>, perLevel: seq<LevelView>)

  lemma {:induction false} IdsFacts(levels: seq<nat>, level: nat, n: nat)
    requires n <= |levels|
    ensures var ids := IdsAt(levels, level, n);
            && |ids| <= n && Segments.Ascending(ids)
            && (forall i :: 0 <= i < |ids| ==> ids[i] < n && levels[ids[i]] >= level)
            && (forall v :: 0 <= v < n && levels[v] >= level ==> v in ids)
  {
    if n > 0 {
      IdsFacts(levels, level, n - 1);
    }
  }

  function Section(g: Graph, level: nat): LevelView
    requires g.Shape()
  {
    IdsFacts(g.levels, level, |g.levels|);
    var ids := IdsAt(g.levels, level, |g.levels|);
    LevelView(ids, Offsets(g, level, ids), Flat(g, level, ids))
  }

  function Sections(g: Graph, from: nat): (s: seq<LevelView>)
    requires g.Shape() && from <= g.maxLevel + 1
    ensures |s| == g.maxLevel + 1 - from
    decreases g.maxLevel + 1 - from
  {
    if from > g.maxLevel then [] else [Section(g, from)] + Sections(g, from + 1)
  }

  function SectionBytes(s: seq<LevelView>): seq<Byte> {
    if s == [] then [] else Words(s[0].ToWords()) + SectionBytes(s[1..])
  }

  /** Numbers that must fit their fields: `u32` counts and offsets, `u8` levels. */
  ghost predicate Fits(g: Graph, p: Params) {
    && g.Shape() && |g.levels| < U32_SIZE && p.m < U32_SIZE && p.m0 < U32_SIZE && g.maxLevel < 256
    && (forall v :: 0 <= v < |g.levels| ==> g.levels[v] < 256)
    && (forall l: nat :: |Section(g, l).flat| < U32_SIZE)
  }

  function Header(g: Graph, p: Params): (h: seq<Byte>)
    requires g.maxLevel < 256
    ensures |h| == HEADER_LEN
  {
    MAGIC_HNSW + U32(|g.levels|) + [g.maxLevel] + Zeros(3)
    + U32(if g.entry.Some? then g.entry.value else NO_ENTRY) + U32(p.m) + U32(p.m0) + Zeros(36)
  }

  function LevelBytes(levels: seq<nat>): (s: seq<Byte>)
    requires forall v :: 0 <= v < |levels| ==> levels[v] < 256
    ensures |s| == |levels|
  {
    seq(|levels|, v requires 0 <= v < |levels| => levels[v])
  }

  /** Zero bytes up to the next multiple of four. */
  function PadLen(len: nat): (k: nat)
    ensures k < 4 && (len + k) % 4 == 0
  {
    (4 - len % 4) % 4
  }

  /** The bytes `serialize` produces. */
  ghost function Layout(g: Graph, p: Params): seq<Byte>
    requires Fits(g, p)
  {
    Header(g, p) + LevelBytes(g.levels) + Zeros(PadLen(HEADER_LEN + |g.levels|)) + SectionBytes(Sections(g, 0))
  }

  // ---------------------------------------------------------------------
  // serialize
  // ---------------------------------------------------------------------

  method LevelIds(levels: seq<nat>, level: nat) returns (ids: seq<nat>)
    ensures ids == IdsAt(levels, level, |levels|)
  {
    ids := [];
    for v := 0 to |levels|
      invariant ids == IdsAt(levels, level, v)
    {
      if levels[v] >= level {
        ids := ids + [v];
      }
    }
  }

  method RunningOffsets(g: Graph, level: nat, ids: seq<nat>) returns (offsets: seq<nat>)
    requires forall i :: 0 <= i < |ids| ==> ids[i] < |g.lists|
    ensures offsets == Offsets(g, level, ids)
  {
    var offset := 0;
    offsets := [0];
    for i := 0 to |ids|
      invariant offsets == Offsets(g, level, ids[..i]) && offset == offsets[i]
    {
      assert ids[..i + 1][..i] == ids[..i];
      offset := offset + |g.Neighbors(level, ids[i])|;
      offsets := offsets + [offset];
    }
    assert ids[..|ids|] == ids;
  }

  method AllNeighbors(g: Graph, level: nat, ids: seq<nat>) returns (flat: seq<nat>)
    requires forall i :: 0 <= i < |ids| ==> ids[i] < |g.lists|
    ensures flat == Flat(g, level, ids)
  {
    flat := [];
    for i := 0 to |ids|
      invariant flat == Flat(g, level, ids[..i])
    {
      assert ids[..i + 1][..i] == ids[..i];
      flat := flat + g.Neighbors(level, ids[i]);
    }
    assert ids[..|ids|] == ids;
  }

  /** One level's section: count, ids, running offsets, neighbours. */
  method WriteLevel(g: Graph, level: nat) returns (out: seq<Byte>)
    requires g.Shape()
    ensures out == Words(Section(g, level).ToWords())
  {
    var ids := LevelIds(g.levels, level);
    IdsFacts(g.levels, level, |g.levels|);
    var offsets := RunningOffsets(g, level, ids);
    var flat := AllNeighbors(g, level, ids);
    out := Words([|ids|] + ids + offsets + flat);
  }

  lemma {:induction false} SectionsSnoc(s: seq<LevelView>, x: LevelView)
    ensures SectionBytes(s + [x]) == SectionBytes(s) + Words(x.ToWords())
  {
    if s == [] {
      assert s + [x] == [x];
      assert [x][1..] == [];
    } else {
      assert (s + [x])[1..] == s[1..] + [x];
      SectionsSnoc(s[1..], x);
    }
  }

  lemma {:induction false} SectionsPrefix(g: Graph, from: nat, i: nat)
    requires g.Shape() && from + i <= g.maxLevel
    ensures Sections(g, from)[i] == Section(g, from + i)
    decreases i
  {
    if i > 0 {
      SectionsPrefix(g, from + 1, i - 1);
    }
  }

  /** `serialize` */
  method Serialize(g: Graph, p: Params) returns (buf: seq<Byte>)
    requires Fits(g, p)
    ensures buf == Layout(g, p)
  {
    hide IdsAt;
    hide U32;
    buf := MAGIC_HNSW + U32(|g.levels|) + [g.maxLevel] + Zeros(3)
           + U32(if g.entry.Some? then g.entry.value else NO_ENTRY) + U32(p.m) + U32(p.m0);
    buf := buf + Zeros(HEADER_LEN - |buf|);
    buf := buf + LevelBytes(g.levels);
    hide Header, LevelBytes, SectionBytes, Sections, Fits;
    buf := Padded(buf);
    var sections := WriteSections(g);
    buf := buf + sections;
  }

  method Padded(head: seq<Byte>) returns (buf: seq<Byte>)
    ensures buf == head + Zeros(PadLen(|head|))
  {
    buf := head;
    while |buf| % 4 != 0
      invariant |head| <= |buf| <= |head| + PadLen(|head|) && buf == head + Zeros(|buf| - |head|)
      decreases |head| + PadLen(|head|) - |buf|
    {
      buf := buf + [0];
    }
  }

  lemma EmptySections()
    ensures SectionBytes([]) == []
  {
  }

  lemma SectionStep(g: Graph, level: nat)
    requires g.Shape() && level <= g.maxLevel
    ensures var all := Sections(g, 0);
            SectionBytes(all[..level + 1]) == SectionBytes(all[..level]) + Words(Section(g, level).ToWords())
  {
    hide Sections, Section, SectionBytes, Words, LevelView.ToWords, Graph.Shape;
    var all := Sections(g, 0);
    SectionsPrefix(g, 0, level);
    SectionsSnoc(all[..level], Section(g, level));
    assert all[..level + 1] == all[..level] + [Section(g, level)];
  }

  method WriteSections(g: Graph) returns (buf: seq<Byte>)
    requires g.Shape()
    ensures buf == SectionBytes(Sections(g, 0))
  {
    ghost var all := Sections(g, 0);
    buf := [];
    hide Sections, Section, SectionBytes, Words, LevelView.ToWords, Graph.Shape;
    EmptySections();
    for level := 0 to g.maxLevel + 1
      invariant buf == SectionBytes(all[..level])
    {
      SectionStep(g, level);
      var bytes := WriteLevel(g, level);
      buf := buf + bytes;
    }
    assert all[..g.maxLevel + 1] == all;
  }

  // ---------------------------------------------------------------------
  // open
  // ---------------------------------------------------------------------

  function ParseLevel(buf: seq<Byte>, pos: nat, n: nat): (r: Option<(LevelView, nat)>) {
    match GetWords(buf, pos, 1)
    case None => None
    case Some(count) =>
      if count[0] > n then None else
        match GetWords(buf, pos + 4, count[0])
        case None => None
        case Some(ids) =>
          match GetWords(buf, pos + 4 + 4 * count[0], count[0] + 1)
          case None => None
          case Some(offsets) =>
            match GetWords(buf, pos + 8 + 8 * count[0], offsets[count[0]])
            case None => None
            case Some(flat) => Some((LevelView(ids, offsets, flat), pos + 8 + 8 * count[0] + 4 * offsets[count[0]]))
  }

  function ParseLevels(buf: seq<Byte>, pos: nat, n: nat, k: nat): (r: Option<(seq<LevelView>, nat)>)
    decreases k
  {
    if k == 0 then Some(([], pos))
    else match ParseLevel(buf, pos, n)
      case None => None
      case Some(first) =>
        match ParseLevels(buf, first.1, n, k - 1)
        case None => None
        case Some(rest) => Some(([first.0] + rest.0, rest.1))
  }

  /** What `open` accepts, and the view it gives; `None` is the error `Corrupted`. */
  function Parse(buf: seq<Byte>): (r: Option<View>) {
    if |buf| < HEADER_LEN || buf[..8] != MAGIC_HNSW then None else
      var n, maxLevel, entryRaw := FromLe(buf[8..12]), buf[12] as nat, FromLe(buf[16..20]);
      if HEADER_LEN + n > |buf| then None else
        match ParseLevels(buf, HEADER_LEN + n + PadLen(HEADER_LEN + n), n, maxLevel + 1)
        case None => None
        case Some(levels) =>
          if levels.1 != |buf| || (entryRaw != NO_ENTRY && entryRaw >= n) then None
          else Some(View(n, maxLevel, if entryRaw == NO_ENTRY then None else Some(entryRaw),
                         buf[HEADER_LEN..HEADER_LEN + n], levels.0))
  }

  lemma {:induction false} ParseLevelsSnoc(buf: seq<Byte>, pos: nat, n: nat, k: nat)
    ensures ParseLevels(buf, pos, n, k + 1) ==
            match ParseLevels(buf, pos, n, k)
            case None => None
            case Some(front) =>
              match ParseLevel(buf, front.1, n)
              case None => None
              case Some(last) => Some((front.0 + [last.0], last.1))
    decreases k
  {
    match ParseLevel(buf, pos, n)
    case None =>
    case Some(first) =>
      if k == 0 {
        assert ParseLevels(buf, first.1, n, 0) == Some(([], first.1));
        assert [first.0] + [] == [] + [first.0];
      } else {
        ParseLevelsSnoc(buf, first.1, n, k - 1);
        match ParseLevels(buf, first.1, n, k - 1)
        case None =>
        case Some(mid) =>
          match ParseLevel(buf, mid.1, n)
          case None =>
          case Some(last) => assert [first.0] + (mid.0 + [last.0]) == ([first.0] + mid.0) + [last.0];
      }
  }

  lemma {:induction false} ParseLevelsStop(buf: seq<Byte>, pos: nat, n: nat, k: nat, more: nat)
    requires ParseLevels(buf, pos, n, k).None? && k <= more
    ensures ParseLevels(buf, pos, n, more).None?
    decreases more
  {
    if k < more {
      ParseLevelsStop(buf, pos, n, k, more - 1);
      ParseLevelsSnoc(buf, pos, n, more - 1);
    }
  }

  /** `HnswView::open` */
  method Open(buf: seq<Byte>) returns (r: Option<View>)
    ensures r == Parse(buf)
  {
    hide FromLe, ParseLevels, PadLen;
    if |buf| < HEADER_LEN || buf[..8] != MAGIC_HNSW {
      return None;
    }
    var n, maxLevel, entryRaw := FromLe(buf[8..12]), buf[12] as nat, FromLe(buf[16..20]);
    if HEADER_LEN + n > |buf| {
      return None;
    }
    var levels := OpenLevels(buf, HEADER_LEN + n + PadLen(HEADER_LEN + n), n, maxLevel + 1);
    if levels.None? {
      return None;
    }
    if levels.value.1 != |buf| || (entryRaw != NO_ENTRY && entryRaw >= n) {
      return None;
    }
    var entry := if entryRaw == NO_ENTRY then None else Some(entryRaw);
    return Some(View(n, maxLevel, entry, buf[HEADER_LEN..HEADER_LEN + n], levels.value.0));
  }

  /** The loop over the levels' sections. */
  method OpenLevels(buf: seq<Byte>, start: nat, n: nat, count: nat) returns (r: Option<(seq<LevelView>, nat)>)
    ensures r == ParseLevels(buf, start, n, count)
  {
    var pos := start;
    var perLevel: seq<LevelView> := [];
    hide ParseLevel, GetWords;
    for level := 0 to count
      invariant ParseLevels(buf, start, n, level) == Some((perLevel, pos))
    {
      ParseLevelsSnoc(buf, start, n, level);
      var one := OpenLevel(buf, pos, n);
      if one.None? {
        ParseLevelsStop(buf, start, n, level + 1, count);
        return None;
      }
      perLevel := perLevel + [one.value.0];
      pos := one.value.1;
    }
    return Some((perLevel, pos));
  }

  method OpenLevel(buf: seq<Byte>, pos: nat, n: nat) returns (r: Option<(LevelView, nat)>)
    ensures r == ParseLevel(buf, pos, n)
  {
    var p := pos;
    var count := GetWords(buf, p, 1);
    if count.None? {
      return None;
    }
    p := p + 4;
    if count.value[0] > n {
      return None;
    }
    var ids := GetWords(buf, p, count.value[0]);
    if ids.None? {
      return None;
    }
    p := p + 4 * count.value[0];
    var offsets := GetWords(buf, p, count.value[0] + 1);
    if offsets.None? {
      return None;
    }
    p := p + 4 * (count.value[0] + 1);
    var total := offsets.value[count.value[0]];
    var flat := GetWords(buf, p, total);
    if flat.None? {
      return None;
    }
    return Some((LevelView(ids.value, offsets.value, flat.value), p + 4 * total));
  }

  // ---------------------------------------------------------------------
  // Round trip
  // ---------------------------------------------------------------------

  /** The list of the `i`-th node of a level lies between its two offsets. */
  lemma {:induction false} FlatSlice(g: Graph, level: nat, ids: seq<nat>, i: nat)
    requires (forall k :: 0 <= k < |ids| ==> ids[k] < |g.lists|) && i < |ids|
    ensures var o := Offsets(g, level, ids);
            o[i] <= o[i + 1] <= |Flat(g, level, ids)| && Flat(g, level, ids)[o[i]..o[i + 1]]
                == g.Neighbors(level, ids[i])
  {
    hide Graph.Neighbors;
    var front := ids[..|ids| - 1];
    OffsetsEnd(g, level, front);
    if i < |front| {
      FlatSlice(g, level, front, i);
      var o := Offsets(g, level, front);
      assert Flat(g, level, ids)[o[i]..o[i + 1]] == Flat(g, level, front)[o[i]..o[i + 1]];
    }
  }

  lemma {:induction false} OffsetsEnd(g: Graph, level: nat, ids: seq<nat>)
    requires forall k :: 0 <= k < |ids| ==> ids[k] < |g.lists|
    ensures Offsets(g, level, ids)[|ids|] == |Flat(g, level, ids)|
    ensures forall k :: 0 <= k <= |ids| ==> Offsets(g, level, ids)[k] <= |Flat(g, level, ids)|
  {
    if ids != [] {
      OffsetsEnd(g, level, ids[..|ids| - 1]);
    }
  }

  lemma SectionFits(g: Graph, p: Params, level: nat)
    requires g.Valid(p) && Fits(g, p)
    ensures g.Shape()
    ensures Small(Section(g, level).ToWords())
    ensures |Section(g, level).ids| <= |g.levels| && |Section(g, level).offsets| == |Section(g, level).ids| + 1
    ensures Section(g, level).offsets[|Section(g, level).ids|] == |Section(g, level).flat|
  {
    var s := Section(g, level);
    IdsFacts(g.levels, level, |g.levels|);
    OffsetsEnd(g, level, s.ids);
    FlatNodes(g, p, level, s.ids);
    hide IdsAt, Offsets, Flat, Graph.Valid, Segments.Ascending;
  }

  lemma {:induction false} FlatNodes(g: Graph, p: Params, level: nat, ids: seq<nat>)
    requires g.Valid(p) && forall k :: 0 <= k < |ids| ==> ids[k] < |g.lists|
    ensures forall i :: 0 <= i < |Flat(g, level, ids)| ==> Flat(g, level, ids)[i] < |g.levels|
  {
    if ids != [] {
      FlatNodes(g, p, level, ids[..|ids| - 1]);
      var v := ids[|ids| - 1];
      assert g.ListOk(level, v, Cap(p, level));
    }
  }

  /** One section reads back. */
  lemma SectionParses(g: Graph, p: Params, buf: seq<Byte>, pos: nat, level: nat)
    requires g.Valid(p) && Fits(g, p) && At(buf, pos, Words(Section(g, level).ToWords()))
    ensures ParseLevel(buf, pos, |g.levels|) == Some((Section(g, level), pos + |Words(Section(g, level).ToWords())|))
  {
    hide Section, Graph.Valid, Fits, ParseLevel, At, Words, Small, LevelView.ToWords;
    SectionFits(g, p, level);
    ViewParses(Section(g, level), buf, pos, |g.levels|);
  }

  lemma ViewParses(s: LevelView, buf: seq<Byte>, pos: nat, n: nat)
    requires At(buf, pos, Words(s.ToWords())) && |s.ids| <= n && |s.offsets| == |s.ids| + 1
        && s.offsets[|s.ids|] == |s.flat|
    requires Small(s.ToWords())
    ensures ParseLevel(buf, pos, n) == Some((s, pos + |Words(s.ToWords())|))
  {
    hide At, GetWords, Words, Small;
    WordsFit(s);
    ViewReads(s, buf, pos);
  }

  lemma ViewReads(s: LevelView, buf: seq<Byte>, pos: nat)
    requires At(buf, pos, Words(s.ToWords())) && |s.offsets| == |s.ids| + 1
    requires Small([|s.ids|]) && Small(s.ids) && Small(s.offsets) && Small(s.flat)
    ensures GetWords(buf, pos, 1) == Some([|s.ids|])
    ensures GetWords(buf, pos + 4, |s.ids|) == Some(s.ids)
    ensures GetWords(buf, pos + 4 + 4 * |s.ids|, |s.ids| + 1) == Some(s.offsets)
    ensures GetWords(buf, pos + 8 + 8 * |s.ids|, |s.flat|) == Some(s.flat)
  {
    ViewBytes(s);
    hide At, GetWords, Words, LevelView.ToWords, Small;
    FourReads(buf, pos, [|s.ids|], s.ids, s.offsets, s.flat);
  }

  lemma FourReads(buf: seq<Byte>, pos: nat, a: seq<nat>, b: seq<nat>, c: seq<nat>, d: seq<nat>)
    requires At(buf, pos, Words(a) + Words(b) + Words(c) + Words(d)) && Small(a) && Small(b) && Small(c) && Small(d)
    ensures GetWords(buf, pos, |a|) == Some(a)
    ensures GetWords(buf, pos + 4 * |a|, |b|) == Some(b)
    ensures GetWords(buf, pos + 4 * |a| + 4 * |b|, |c|) == Some(c)
    ensures GetWords(buf, pos + 4 * |a| + 4 * |b| + 4 * |c|, |d|) == Some(d)
  {
    hide At, GetWords, Words, Small;
    FourParts(buf, pos, Words(a), Words(b), Words(c), Words(d));
    ReadsWords(buf, pos, a);
    ReadsWords(buf, pos + 4 * |a|, b);
    ReadsWords(buf, pos + 4 * |a| + 4 * |b|, c);
    ReadsWords(buf, pos + 4 * |a| + 4 * |b| + 4 * |c|, d);
  }

  lemma ViewBytes(s: LevelView)
    ensures Words(s.ToWords()) == Words([|s.ids|]) + Words(s.ids) + Words(s.offsets) + Words(s.flat)
  {
    hide Words;
    WordsAppend([|s.ids|] + s.ids + s.offsets, s.flat);
    WordsAppend([|s.ids|] + s.ids, s.offsets);
    WordsAppend([|s.ids|], s.ids);
  }

  lemma FourParts(buf: seq<Byte>, pos: nat, a: seq<Byte>, b: seq<Byte>, c: seq<Byte>, d: seq<Byte>)
    requires At(buf, pos, a + b + c + d)
    ensures At(buf, pos, a) && At(buf, pos + |a|, b) && At(buf, pos + |a| + |b|, c) && At(buf, pos + |a| + |b| + |c|, d)
  {
    hide At;
    AtSplit(buf, pos, a + b + c, d);
    AtSplit(buf, pos, a + b, c);
    AtSplit(buf, pos, a, b);
  }

  lemma WordsFit(s: LevelView)
    requires Small(s.ToWords())
    ensures Small([|s.ids|]) && Small(s.ids) && Small(s.offsets) && Small(s.flat)
  {
    var w := s.ToWords();
    assert w[0] == |s.ids|;
    forall i | 0 <= i < |s.ids| ensures s.ids[i] < U32_SIZE {
      assert w[1 + i] == s.ids[i];
    }
    forall i | 0 <= i < |s.offsets| ensures s.offsets[i] < U32_SIZE {
      assert w[1 + |s.ids| + i] == s.offsets[i];
    }
    forall i | 0 <= i < |s.flat| ensures s.flat[i] < U32_SIZE {
      assert w[1 + |s.ids| + |s.offsets| + i] == s.flat[i];
    }
  }

  lemma {:induction false} SectionsParse(g: Graph, p: Params, buf: seq<Byte>, pos: nat, from: nat)
    requires g.Valid(p) && Fits(g, p) && from <= g.maxLevel + 1 && At(buf, pos, SectionBytes(Sections(g, from)))
    ensures ParseLevels(buf, pos, |g.levels|, g.maxLevel + 1 - from)
        == Some((Sections(g, from), pos + |SectionBytes(Sections(g, from))|))
    decreases g.maxLevel + 1 - from
  {
    hide Section, ParseLevel, At, Words, Fits, Graph.ListOk, Graph.EntryOk;
    if from <= g.maxLevel {
      var first := Words(Section(g, from).ToWords());
      assert Sections(g, from)[1..] == Sections(g, from + 1);
      AtSplit(buf, pos, first, SectionBytes(Sections(g, from + 1)));
      SectionParses(g, p, buf, pos, from);
      SectionsParse(g, p, buf, pos + |first|, from + 1);
    }
  }

  ghost function ViewOf(g: Graph): View
    requires g.Shape()
  {
    View(|g.levels|, g.maxLevel, g.entry, g.levels, Sections(g, 0))
  }

  lemma HeaderFields(g: Graph, p: Params)
    requires g.maxLevel < 256
    ensures var e := if g.entry.Some? then g.entry.value else NO_ENTRY;
            var h := Header(g, p);
            h[..8] == MAGIC_HNSW && h[8..12] == U32(|g.levels|) && h[12] == g.maxLevel && h[16..20] == U32(e)
  {
    hide U32;
  }

  lemma HeaderReads(g: Graph, p: Params, buf: seq<Byte>)
    requires Fits(g, p) && At(buf, 0, Header(g, p)) && (g.entry.Some? ==> g.entry.value < |g.levels|)
    ensures |buf| >= HEADER_LEN && buf[..8] == MAGIC_HNSW
    ensures FromLe(buf[8..12]) == |g.levels| && buf[12] == g.maxLevel
    ensures FromLe(buf[16..20]) == if g.entry.Some? then g.entry.value else NO_ENTRY
  {
    hide Header, U32;
    var e := if g.entry.Some? then g.entry.value else NO_ENTRY;
    assert buf[0..HEADER_LEN] == Header(g, p);
    HeaderFields(g, p);
    assert buf[..8] == buf[0..HEADER_LEN][..8];
    assert buf[8..12] == buf[0..HEADER_LEN][8..12];
    assert buf[12] == buf[0..HEADER_LEN][12];
    assert buf[16..20] == buf[0..HEADER_LEN][16..20];
    U32RoundTrip(|g.levels|);
    U32RoundTrip(e);
  }

  /** A buffer with these parts is accepted. */
  lemma ParseParts(buf: seq<Byte>, v: View, raw: nat)
    requires HEADER_LEN + v.nodeCount <= |buf| && buf[..8] == MAGIC_HNSW
    requires FromLe(buf[8..12]) == v.nodeCount && buf[12] == v.maxLevel && FromLe(buf[16..20]) == raw
    requires buf[HEADER_LEN..HEADER_LEN + v.nodeCount] == v.levels
    requires ParseLevels(buf, HEADER_LEN + v.nodeCount + PadLen(HEADER_LEN + v.nodeCount), v.nodeCount, v.maxLevel + 1)
        == Some((v.perLevel, |buf|))
    requires if v.entry.Some? then raw == v.entry.value && raw < v.nodeCount && raw != NO_ENTRY else raw == NO_ENTRY
    ensures Parse(buf) == Some(v)
  {
    hide ParseLevels, FromLe;
  }

  /** Opening what serialisation wrote gives a view of the same graph. */
  lemma RoundTrip(g: Graph, p: Params)
    requires g.Valid(p) && Fits(g, p)
    ensures Parse(Layout(g, p)) == Some(ViewOf(g))
  {
    hide Header, Layout, LevelBytes, Sections, SectionBytes, Zeros, ParseLevels, FromLe, U32, At, Graph.ListOk, Section,
         Parse;
    LayoutHeader(g, p);
    LayoutSections(g, p);
    ParseParts(Layout(g, p), ViewOf(g), if g.entry.Some? then g.entry.value else NO_ENTRY);
  }

  lemma LayoutAt(g: Graph, p: Params)
    requires Fits(g, p)
    ensures var n, buf := |g.levels|, Layout(g, p);
            && |buf| == HEADER_LEN + n + PadLen(HEADER_LEN + n) + |SectionBytes(Sections(g, 0))|
            && At(buf, 0, Header(g, p)) && At(buf, HEADER_LEN, LevelBytes(g.levels))
            && At(buf, HEADER_LEN + n + PadLen(HEADER_LEN + n), SectionBytes(Sections(g, 0)))
  {
    hide Header, LevelBytes, Zeros, SectionBytes, Sections, Section, At, PadLen;
    var n := |g.levels|;
    var h, l, z, t := Header(g, p), LevelBytes(g.levels), Zeros(PadLen(HEADER_LEN + n)), SectionBytes(Sections(g, 0));
    AtWhole(h + l + z + t);
    FourParts(h + l + z + t, 0, h, l, z, t);
  }

  lemma LayoutHeader(g: Graph, p: Params)
    requires g.Valid(p) && Fits(g, p)
    ensures var n, buf := |g.levels|, Layout(g, p);
            && HEADER_LEN + n <= |buf| && buf[..8] == MAGIC_HNSW && FromLe(buf[8..12]) == n && buf[12] == g.maxLevel
            && FromLe(buf[16..20]) == (if g.entry.Some? then g.entry.value else NO_ENTRY)
            && buf[HEADER_LEN..HEADER_LEN + n] == g.levels
  {
    hide Header, Layout, LevelBytes, Sections, SectionBytes, Graph.ListOk;
    LayoutAt(g, p);
    LevelsBack(g.levels, LevelBytes(g.levels));
    HeaderReads(g, p, Layout(g, p));
  }

  lemma LayoutSections(g: Graph, p: Params)
    requires g.Valid(p) && Fits(g, p)
    ensures var n, buf := |g.levels|, Layout(g, p);
            ParseLevels(buf, HEADER_LEN + n + PadLen(HEADER_LEN + n), n, g.maxLevel + 1)
                == Some((Sections(g, 0), |buf|))
  {
    hide Header, Layout, LevelBytes, Sections, SectionBytes, Graph.ListOk, ParseLevels, At, Section;
    LayoutAt(g, p);
    var n := |g.levels|;
    SectionsParse(g, p, Layout(g, p), HEADER_LEN + n + PadLen(HEADER_LEN + n), 0);
  }

  lemma LevelsBack(levels: seq<nat>, bytes: seq<Byte>)
    requires (forall v :: 0 <= v < |levels| ==> levels[v] < 256) && bytes == LevelBytes(levels)
    ensures bytes == levels
  {
  }

  /** `HnswView::neighbors`: binary search for the node, then the slice between its offsets. */
  method Neighbors(view: View, level: nat, node: nat, ghost g: Graph, ghost p: Params) returns (list: seq<nat>)
    requires g.Valid(p) && view == ViewOf(g) && node < |g.levels|
    ensures list == g.Neighbors(level, node)
  {
    hide Sections, Flat, Offsets, IdsAt, Graph.ListOk;
    if level >= |view.perLevel| {
      return [];
    }
    SectionsPrefix(g, 0, level);
    var lv := view.perLevel[level];
    IdsFacts(g.levels, level, |g.levels|);
    var idx := Segments.Search(lv.ids, node);
    if idx.None? {
      return [];
    }
    FlatSlice(g, level, lv.ids, idx.value);
    return lv.flat[lv.offsets[idx.value]..lv.offsets[idx.value + 1]];
  }
}
