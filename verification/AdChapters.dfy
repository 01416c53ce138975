/** Ad chapters rebuilt from markers beside an episode's topic chapters. */
module AdChapters {
  import opened Basics

  const AD_CHAPTER_SNAP_SECONDS := 2.0

  /** Topic covers every kind the rebuild does not write itself. */
  datatype Kind = Topic | AdBreak | Resume

  /** detail stands for the fields a rebuild passes through. */
  datatype Chapter = Chapter(startTime: real, title: string, kind: Kind, category: string, held: bool, hidden: bool,
                             detail: int)

  /** A marker as chapters see it; a category outside the known ones is None. */
  datatype Marker = Marker(start: Option<real>, end: Option<real>, isMark: bool, pendingReview: bool,
                           category: Option<string>, confidence: real)

  datatype Cut = Cut(start: real, end: real, replacement: Option<real>)

  datatype Config = Config(marked: set<string>, includeHeld: bool, minConfidence: real,
                           title: string -> string, heldTitle: string -> string, resumeTitle: string)

  /** Everything a rebuild is given besides the stored chapters. */
  datatype Rebuild = Rebuild(markers: seq<Marker>, cuts: seq<Cut>, duration: Option<real>, replacement: real,
                             config: Option<Config>)

  function StartTime(): Chapter -> real { (c: Chapter) => c.startTime }

  // ----- Which markers get a chapter, and where -----

  /** None when the marker gets no chapter, else whether it is a held one. */
  function HeldStatus(config: Config, m: Marker): Option<bool> {
    var held := !m.isMark && m.pendingReview;
    if !m.isMark && !held then None
    else if held && !config.includeHeld then None
    else if m.category.None? then None
    else if held && m.category.value !in config.marked then None
    else if !held && m.confidence < config.minConfidence then None
    else Some(held)
  }

  datatype CutGroup = CutGroup(start: real, end: real, replacement: real)

  function GroupCuts(sorted: seq<Cut>, fallback: real): seq<CutGroup> {
    if sorted == [] then []
    else
      var init, c := GroupCuts(sorted[..|sorted| - 1], fallback), sorted[|sorted| - 1];
      var rep := if c.replacement.Some? then c.replacement.value else fallback;
      if c.end <= c.start then init
      else if init != [] && c.start <= init[|init| - 1].end then
        var g := init[|init| - 1];
        init[|init| - 1 := CutGroup(g.start, MaxReal(g.end, c.end), g.replacement + rep)]
      else init + [CutGroup(c.start, c.end, rep)]
  }

  /** Seconds the cuts before t took out of the audio, net of what replaced them. */
  function Shift(t: real, groups: seq<CutGroup>): real {
    if groups == [] then 0.0
    else if groups[0].end <= t then (groups[0].end - groups[0].start) - groups[0].replacement + Shift(t, groups[1..])
    else if groups[0].start < t then t - groups[0].start
    else 0.0
  }

  function AdjustTimestamp(t: real, cuts: seq<Cut>, fallback: real): real {
    if cuts == [] then t
    else MaxReal(0.0, t - Shift(t, GroupCuts(SortBy(cuts, (c: Cut) => c.start), fallback)))
  }

  /** Python's round(): halves go to the even neighbour. */
  function RoundHalfEven(x: real): int {
    var f := x.Floor;
    var d := x - f as real;
    if d < 0.5 || (d == 0.5 && f % 2 == 0) then f else f + 1
  }

  function Second(t: real, r: Rebuild): int {
    MaxInt(1, RoundHalfEven(AdjustTimestamp(t, r.cuts, r.replacement)))
  }

  /** A stretch of served audio named as one break, in whole seconds. */
  datatype Break = Break(start: int, end: int, held: bool, category: string)

  function BreakOf(m: Marker, config: Config, r: Rebuild): seq<Break> {
    var held := HeldStatus(config, m);
    if held.None? || m.start.None? || m.end.None? then []
    else
      var s, e := Second(m.start.value, r), Second(m.end.value, r);
      if e <= s then [] else [Break(s, e, held.value, if m.category.Some? then m.category.value else "")]
  }

  function AllBreaks(ms: seq<Marker>, config: Config, r: Rebuild): seq<Break> {
    if ms == [] then [] else AllBreaks(ms[..|ms| - 1], config, r) + BreakOf(ms[|ms| - 1], config, r)
  }

  function JoinBreaks(sorted: seq<Break>): seq<Break> {
    if sorted == [] then []
    else
      var init, b := JoinBreaks(sorted[..|sorted| - 1]), sorted[|sorted| - 1];
      if init != [] && b.start <= init[|init| - 1].end
      then init[|init| - 1 := init[|init| - 1].(end := MaxInt(init[|init| - 1].end, b.end))]
      else init + [b]
  }

  function BreakStart(): Break -> real { (b: Break) => b.start as real }

  /** Breaks for a rebuild; overlapping ones become one, named by the first. */
  function Breaks(r: Rebuild): seq<Break> {
    if r.config.None? || r.markers == [] then []
    else JoinBreaks(SortBy(AllBreaks(r.markers, r.config.value, r), BreakStart()))
  }

  method EligibleSpans(r: Rebuild) returns (merged: seq<Break>)
    requires r.config.Some? && r.markers != []
    ensures merged == Breaks(r)
  {
    hide BreakOf;
    var spans: seq<Break> := [];
    for i := 0 to |r.markers|
      invariant spans == AllBreaks(r.markers[..i], r.config.value, r)
    {
      assert r.markers[..i + 1][..i] == r.markers[..i];
      spans := spans + BreakOf(r.markers[i], r.config.value, r);
    }
    assert r.markers[..|r.markers|] == r.markers;
    var sorted := SortBy(spans, BreakStart());
    merged := [];
    for i := 0 to |sorted|
      invariant merged == JoinBreaks(sorted[..i])
    {
      assert sorted[..i + 1][..i] == sorted[..i];
      var b := sorted[i];
      if merged != [] && b.start <= merged[|merged| - 1].end {
        merged := merged[|merged| - 1 := merged[|merged| - 1].(end := MaxInt(merged[|merged| - 1].end, b.end))];
      } else {
        merged := merged + [b];
      }
    }
    assert sorted[..|sorted|] == sorted;
  }

  // ----- Rebuilding -----

  function StripOne(c: Chapter): seq<Chapter> {
    if c.kind == Topic then [c.(hidden := false)] else []
  }

  /** Topic chapters only, each unhidden. */
  function Strip(cs: seq<Chapter>): seq<Chapter> {
    if cs == [] then [] else StripOne(cs[0]) + Strip(cs[1..])
  }

  /** A topic inside a break is gone; one at its start would shadow the ad entry. */
  predicate Displaced(c: Chapter, bs: seq<Break>) {
    exists i :: 0 <= i < |bs| && Shadows(bs[i], c.startTime)
  }

  predicate Shadows(b: Break, t: real) {
    b.start as real < t < b.end as real || AbsReal(t - b.start as real) <= AD_CHAPTER_SNAP_SECONDS
  }

  function Mark(c: Chapter, bs: seq<Break>): Chapter {
    if Displaced(c, bs) then c.(hidden := true) else c
  }

  function MarkAll(cs: seq<Chapter>, bs: seq<Break>): seq<Chapter> {
    if cs == [] then [] else [Mark(cs[0], bs)] + MarkAll(cs[1..], bs)
  }

  predicate SnapsTo(cs: seq<Chapter>, t: real) {
    exists i :: 0 <= i < |cs| && !cs[i].hidden && AbsReal(cs[i].startTime - t) <= AD_CHAPTER_SNAP_SECONDS
  }

  function EndSecond(duration: Option<real>): Option<int> {
    if duration.Some? && duration.value != 0.0 then Some(RoundHalfEven(duration.value)) else None
  }

  predicate Resumes(b: Break, kept: seq<Chapter>, r: Rebuild) {
    var end := EndSecond(r.duration);
    (end.None? || b.end < end.value) && !SnapsTo(kept, b.end as real)
  }

  function AdEntry(b: Break, config: Config): Chapter {
    Chapter(b.start as real, if b.held then config.heldTitle(b.category) else config.title(b.category),
            AdBreak, b.category, b.held, false, 0)
  }

  function ResumeEntry(b: Break, config: Config): Chapter {
    Chapter(b.end as real, config.resumeTitle, Resume, "", false, false, 0)
  }

  function EntriesFor(b: Break, kept: seq<Chapter>, r: Rebuild, config: Config): seq<Chapter> {
    [AdEntry(b, config)] + (if Resumes(b, kept, r) then [ResumeEntry(b, config)] else [])
  }

  function Additions(bs: seq<Break>, kept: seq<Chapter>, r: Rebuild, config: Config): seq<Chapter> {
    if bs == [] then [] else Additions(bs[..|bs| - 1], kept, r, config) + EntriesFor(bs[|bs| - 1], kept, r, config)
  }

  /** The chapters a rebuild writes over the given topics. */
  function Build(topics: seq<Chapter>, r: Rebuild): seq<Chapter> {
    var bs := Breaks(r);
    if bs == [] || r.config.None? then topics
    else
      var kept := MarkAll(topics, bs);
      SortBy(kept + Additions(bs, kept, r, r.config.value), StartTime())
  }

  function Merge(chapters: seq<Chapter>, r: Rebuild): seq<Chapter> {
    Build(Strip(chapters), r)
  }

  method MergeAdChapters(chapters: seq<Chapter>, r: Rebuild) returns (result: seq<Chapter>)
    ensures result == Merge(chapters, r)
  {
    hide Strip, Breaks, MarkAll, EntriesFor;
    var topics := Strip(chapters);
    if r.config.None? || r.markers == [] {
      NoBreaks(r);
      return topics;
    }
    var spans := EligibleSpans(r);
    if spans == [] {
      return topics;
    }
    var kept := MarkAll(topics, spans);
    var additions: seq<Chapter> := [];
    for i := 0 to |spans|
      invariant additions == Additions(spans[..i], kept, r, r.config.value)
    {
      assert spans[..i + 1][..i] == spans[..i];
      additions := additions + EntriesFor(spans[i], kept, r, r.config.value);
    }
    assert spans[..|spans|] == spans;
    result := SortBy(kept + additions, StartTime());
  }

  lemma NoBreaks(r: Rebuild)
    requires r.config.None? || r.markers == []
    ensures Breaks(r) == []
  {
  }

  // ----- Stripping recovers the topics -----

  ghost predicate AllTopics(cs: seq<Chapter>) {
    forall i :: 0 <= i < |cs| ==> cs[i].kind == Topic && !cs[i].hidden
  }

  lemma {:induction false} StripIsTopics(cs: seq<Chapter>)
    ensures AllTopics(Strip(cs))
  {
    if cs != [] {
      StripIsTopics(cs[1..]);
    }
  }

  lemma {:induction false} StripKeepsTopics(cs: seq<Chapter>)
    requires AllTopics(cs)
    ensures Strip(cs) == cs
  {
    if cs != [] {
      StripKeepsTopics(cs[1..]);
      assert cs == [cs[0]] + cs[1..];
    }
  }

  lemma StripUnfolds(cs: seq<Chapter>)
    ensures Strip(cs) == if cs == [] then [] else StripOne(cs[0]) + Strip(cs[1..])
  {
    hide StripOne;
  }

  lemma {:induction false} StripConcat(a: seq<Chapter>, b: seq<Chapter>)
    ensures Strip(a + b) == Strip(a) + Strip(b)
  {
    hide *;
    StripUnfolds(a);
    if a == [] {
      assert a + b == b;
    } else {
      StripConcat(a[1..], b);
      StripUnfolds(a + b);
      assert (a + b)[0] == a[0] && (a + b)[1..] == a[1..] + b;
      assert StripOne(a[0]) + (Strip(a[1..]) + Strip(b)) == StripOne(a[0]) + Strip(a[1..]) + Strip(b);
    }
  }

  lemma StripOfCons(c: Chapter, cs: seq<Chapter>)
    ensures Strip([c] + cs) == StripOne(c) + Strip(cs)
  {
    hide StripOne;
    assert ([c] + cs)[1..] == cs;
  }

  lemma {:induction false} StripKeepsOrder(cs: seq<Chapter>, t: real)
    requires forall i :: 0 <= i < |cs| ==> t <= cs[i].startTime
    ensures forall i :: 0 <= i < |Strip(cs)| ==> t <= Strip(cs)[i].startTime
  {
    if cs != [] {
      StripKeepsOrder(cs[1..], t);
    }
  }

  lemma InsertFirst(c: Chapter, cs: seq<Chapter>)
    requires forall i :: 0 <= i < |cs| ==> c.startTime <= cs[i].startTime
    ensures InsertBy(c, cs, StartTime()) == [c] + cs
  {
  }

  lemma InsertPast(c: Chapter, front: seq<Chapter>, cs: seq<Chapter>)
    requires |front| <= 1 && (front != [] ==> front[0].startTime < c.startTime)
    ensures InsertBy(c, front + cs, StartTime()) == front + InsertBy(c, cs, StartTime())
  {
    if front == [] {
      assert front + cs == cs && front + InsertBy(c, cs, StartTime()) == InsertBy(c, cs, StartTime());
    } else {
      assert (front + cs)[1..] == cs && [front[0]] == front;
    }
  }

  lemma {:induction false} StripOfInsert(c: Chapter, cs: seq<Chapter>)
    requires SortedBy(cs, StartTime())
    ensures Strip(InsertBy(c, cs, StartTime()))
         == if c.kind == Topic then InsertBy(c.(hidden := false), Strip(cs), StartTime()) else Strip(cs)
  {
    if cs == [] || c.startTime <= cs[0].startTime {
      forall i | 0 <= i < |cs| ensures c.startTime <= cs[i].startTime {
        assert i > 0 ==> StartTime()(cs[0]) <= StartTime()(cs[i]);
      }
      InsertFirst(c, cs);
      StripOfCons(c, cs);
      StripKeepsOrder(cs, c.startTime);
      InsertFirst(c.(hidden := false), Strip(cs));
    } else {
      StripOfInsert(c, cs[1..]);
      var rest := InsertBy(c, cs[1..], StartTime());
      assert InsertBy(c, cs, StartTime()) == [cs[0]] + rest;
      StripOfCons(cs[0], rest);
      InsertPast(c.(hidden := false), StripOne(cs[0]), Strip(cs[1..]));
    }
  }

  /** Stripping commutes with the stable sort. */
  lemma {:induction false} StripOfSort(cs: seq<Chapter>)
    ensures Strip(SortBy(cs, StartTime())) == SortBy(Strip(cs), StartTime())
  {
    if cs != [] {
      StripOfSort(cs[1..]);
      SortByIsSorted(cs[1..], StartTime());
      StripOfInsert(cs[0], SortBy(cs[1..], StartTime()));
      SortOfCons(StripOne(cs[0]), Strip(cs[1..]));
    }
  }

  lemma SortOfCons(front: seq<Chapter>, cs: seq<Chapter>)
    requires |front| <= 1
    ensures SortBy(front + cs, StartTime())
         == if front == [] then SortBy(cs, StartTime()) else InsertBy(front[0], SortBy(cs, StartTime()), StartTime())
  {
    if front == [] {
      assert front + cs == cs;
    } else {
      assert (front + cs)[1..] == cs;
    }
  }

  lemma {:induction false} StripOfMarked(topics: seq<Chapter>, bs: seq<Break>)
    requires AllTopics(topics)
    ensures Strip(MarkAll(topics, bs)) == topics
  {
    if topics != [] {
      StripOfMarked(topics[1..], bs);
      assert MarkAll(topics, bs)[1..] == MarkAll(topics[1..], bs);
      assert topics == [topics[0]] + topics[1..];
    }
  }

  lemma StripOfEntries(b: Break, kept: seq<Chapter>, r: Rebuild, config: Config)
    ensures Strip(EntriesFor(b, kept, r, config)) == []
  {
    hide Resumes;
    var ad, resume := AdEntry(b, config), ResumeEntry(b, config);
    assert Strip([]) == [];
    StripOfCons(ad, []);
    StripOfCons(resume, []);
    StripConcat([ad], [resume]);
    assert [ad] + [] == [ad] && [resume] + [] == [resume];
  }

  lemma {:induction false} StripOfAdditions(bs: seq<Break>, kept: seq<Chapter>, r: Rebuild, config: Config)
    ensures Strip(Additions(bs, kept, r, config)) == []
  {
    hide EntriesFor;
    if bs != [] {
      var n := |bs| - 1;
      StripOfAdditions(bs[..n], kept, r, config);
      StripOfEntries(bs[n], kept, r, config);
      StripConcat(Additions(bs[..n], kept, r, config), EntriesFor(bs[n], kept, r, config));
    }
  }

  /** Stripping a rebuild gives back every topic, sorted when the rebuild wrote anything. */
  lemma StripRecoversTopics(chapters: seq<Chapter>, r: Rebuild)
    ensures Strip(Merge(chapters, r))
         == if Breaks(r) == [] then Strip(chapters) else SortBy(Strip(chapters), StartTime())
  {
    hide Breaks, Additions, MarkAll;
    var topics := Strip(chapters);
    StripIsTopics(chapters);
    StripKeepsTopics(topics);
    var bs := Breaks(r);
    if bs != [] {
      BreaksNeedConfig(r);
      var kept := MarkAll(topics, bs);
      var adds := Additions(bs, kept, r, r.config.value);
      StripOfSort(kept + adds);
      StripConcat(kept, adds);
      StripOfMarked(topics, bs);
      StripOfAdditions(bs, kept, r, r.config.value);
      assert topics + [] == topics;
    }
  }

  lemma BreaksNeedConfig(r: Rebuild)
    requires Breaks(r) != []
    ensures r.config.Some?
  {
  }

  /** A rebuild hides topics but never loses one. */
  lemma NoTopicIsLost(chapters: seq<Chapter>, r: Rebuild)
    ensures multiset(Strip(Merge(chapters, r))) == multiset(Strip(chapters))
  {
    StripRecoversTopics(chapters, r);
    SortByIsSorted(Strip(chapters), StartTime());
  }

  // ----- History does not matter -----

  lemma {:induction false} MarkOfInsert(c: Chapter, cs: seq<Chapter>, bs: seq<Break>)
    ensures MarkAll(InsertBy(c, cs, StartTime()), bs) == InsertBy(Mark(c, bs), MarkAll(cs, bs), StartTime())
  {
    hide Displaced;
    if cs == [] || c.startTime <= cs[0].startTime {
      assert InsertBy(c, cs, StartTime()) == [c] + cs;
      assert ([c] + cs)[1..] == cs;
    } else {
      MarkOfInsert(c, cs[1..], bs);
      var rest := InsertBy(c, cs[1..], StartTime());
      assert InsertBy(c, cs, StartTime()) == [cs[0]] + rest;
      assert ([cs[0]] + rest)[1..] == rest;
      assert MarkAll(cs, bs)[1..] == MarkAll(cs[1..], bs);
    }
  }

  lemma {:induction false} MarkOfSort(cs: seq<Chapter>, bs: seq<Break>)
    ensures MarkAll(SortBy(cs, StartTime()), bs) == SortBy(MarkAll(cs, bs), StartTime())
  {
    if cs != [] {
      MarkOfSort(cs[1..], bs);
      MarkOfInsert(cs[0], SortBy(cs[1..], StartTime()), bs);
      assert MarkAll(cs, bs)[1..] == MarkAll(cs[1..], bs);
    }
  }

  lemma SameMembersSnap(a: seq<Chapter>, b: seq<Chapter>, t: real)
    requires forall c :: c in a <==> c in b
    ensures SnapsTo(a, t) == SnapsTo(b, t)
  {
    if SnapsTo(a, t) {
      var i :| 0 <= i < |a| && !a[i].hidden && AbsReal(a[i].startTime - t) <= AD_CHAPTER_SNAP_SECONDS;
      assert a[i] in b;
    }
    if SnapsTo(b, t) {
      var i :| 0 <= i < |b| && !b[i].hidden && AbsReal(b[i].startTime - t) <= AD_CHAPTER_SNAP_SECONDS;
      assert b[i] in a;
    }
  }

  lemma {:induction false} SameMembersAdd(bs: seq<Break>, a: seq<Chapter>, b: seq<Chapter>, r: Rebuild, config: Config)
    requires forall c :: c in a <==> c in b
    ensures Additions(bs, a, r, config) == Additions(bs, b, r, config)
  {
    if bs != [] {
      SameMembersAdd(bs[..|bs| - 1], a, b, r, config);
      SameMembersSnap(a, b, bs[|bs| - 1].end as real);
    }
  }

  /** Building from sorted topics is building from the topics, once there are breaks. */
  lemma BuildIgnoresTopicOrder(topics: seq<Chapter>, r: Rebuild)
    requires Breaks(r) != []
    ensures Build(SortBy(topics, StartTime()), r) == Build(topics, r)
  {
    hide Breaks, Additions;
    BreaksNeedConfig(r);
    var bs := Breaks(r);
    var kept := MarkAll(topics, bs);
    MarkOfSort(topics, bs);
    SortByMembers(kept, StartTime());
    SameMembersAdd(bs, SortBy(kept, StartTime()), kept, r, r.config.value);
    SortByAbsorbs(kept, Additions(bs, kept, r, r.config.value), StartTime());
  }

  /**
   * A later rebuild forgets an earlier one, exactly unless it writes nothing over topics the earlier one had to sort.
   */
  lemma RebuildForgetsHistory(chapters: seq<Chapter>, earlier: Rebuild, later: Rebuild)
    ensures Merge(Merge(chapters, earlier), later) == Merge(chapters, later)
      <==> Breaks(earlier) == [] || Breaks(later) != [] || SortedBy(Strip(chapters), StartTime())
  {
    hide Breaks, Build, Strip;
    var topics := Strip(chapters);
    StripRecoversTopics(chapters, earlier);
    if Breaks(earlier) != [] {
      if SortedBy(topics, StartTime()) {
        SortByKeepsSorted(topics, StartTime());
      }
      if Breaks(later) != [] {
        BuildIgnoresTopicOrder(topics, later);
      } else {
        NothingToBuild(SortBy(topics, StartTime()), later);
        NothingToBuild(topics, later);
        SortByIsSorted(topics, StartTime());
      }
    }
  }

  const TITLED := Config({}, false, 0.0, (category: string) => category, (category: string) => category, "")
  const ONE_BREAK := Rebuild([Marker(Some(100.0), Some(130.0), true, false, Some("sponsor"), 1.0)], [], None, 0.0,
                             Some(TITLED))
  const NO_BREAK := Rebuild([], [], None, 0.0, None)

  function Topical(t: real): Chapter { Chapter(t, "", Topic, "", false, false, 0) }

  /** Two topics stored out of order: a rebuild with a break sorts them, and one without leaves them so. */
  lemma HistoryCanShow()
    ensures var chapters := [Topical(10.0), Topical(5.0)];
      Merge(Merge(chapters, ONE_BREAK), NO_BREAK) != Merge(chapters, NO_BREAK)
  {
    var chapters := [Topical(10.0), Topical(5.0)];
    var r := ONE_BREAK;
    assert chapters[1..] == [Topical(5.0)] && [Topical(5.0)][1..] == [];
    assert Strip(chapters) == chapters;
    assert StartTime()(chapters[0]) > StartTime()(chapters[1]);
    assert r.markers[..0] == [];
    assert Second(100.0, r) == 100 && Second(130.0, r) == 130;
    var b := Break(100, 130, false, "sponsor");
    assert AllBreaks(r.markers, TITLED, r) == [b];
    assert SortBy([b], BreakStart()) == [b];
    assert [b][..0] == [];
    assert Breaks(r) == [b];
    assert Breaks(NO_BREAK) == [];
    RebuildForgetsHistory(chapters, r, NO_BREAK);
  }

  lemma NothingToBuild(topics: seq<Chapter>, r: Rebuild)
    requires Breaks(r) == []
    ensures Build(topics, r) == topics
  {
  }

  /** Rebuilding twice from the same markers is rebuilding once, for any stored chapters. */
  lemma RebuildIsIdempotent(chapters: seq<Chapter>, r: Rebuild)
    ensures Merge(Merge(chapters, r), r) == Merge(chapters, r)
  {
    RebuildForgetsHistory(chapters, r, r);
  }

  // ----- What a rebuild shows -----

  ghost predicate BreakOk(b: Break) { 1 <= b.start < b.end }

  lemma {:induction false} JoinedBreaksApart(sorted: seq<Break>)
    requires forall i :: 0 <= i < |sorted| ==> BreakOk(sorted[i])
    requires SortedBy(sorted, BreakStart())
    ensures var js := JoinBreaks(sorted);
      && (forall i :: 0 <= i < |js| ==> BreakOk(js[i]))
      && (forall i, j :: 0 <= i < j < |js| ==> js[i].end < js[j].start)
      && (sorted != [] ==> js != [] && js[|js| - 1].start <= sorted[|sorted| - 1].start)
  {
    if sorted != [] {
      var n := |sorted| - 1;
      JoinedBreaksApart(sorted[..n]);
      assert n > 0 ==> BreakStart()(sorted[n - 1]) <= BreakStart()(sorted[n]);
    }
  }

  lemma {:induction false} AllBreaksOk(ms: seq<Marker>, config: Config, r: Rebuild)
    ensures forall b :: b in AllBreaks(ms, config, r) ==> BreakOk(b)
  {
    hide Second, HeldStatus;
    if ms != [] {
      AllBreaksOk(ms[..|ms| - 1], config, r);
      OneBreakOk(ms[|ms| - 1], config, r);
    }
  }

  lemma OneBreakOk(m: Marker, config: Config, r: Rebuild)
    ensures forall b :: b in BreakOf(m, config, r) ==> BreakOk(b)
  {
  }

  /** Breaks are real stretches with audio between them. */
  lemma BreaksApart(r: Rebuild)
    ensures var bs := Breaks(r);
      (forall i :: 0 <= i < |bs| ==> 1 <= bs[i].start < bs[i].end)
      && forall i, j :: 0 <= i < j < |bs| ==> bs[i].end < bs[j].start
  {
    hide AllBreaks, JoinBreaks;
    if r.config.Some? && r.markers != [] {
      var all := AllBreaks(r.markers, r.config.value, r);
      AllBreaksOk(r.markers, r.config.value, r);
      var sorted := SortBy(all, BreakStart());
      SortByIsSorted(all, BreakStart());
      SortByMembers(all, BreakStart());
      forall i | 0 <= i < |sorted| ensures BreakOk(sorted[i]) {
        assert sorted[i] in all;
      }
      JoinedBreaksApart(sorted);
      assert Breaks(r) == JoinBreaks(sorted);
    } else {
      assert Breaks(r) == [];
    }
  }

  lemma {:induction false} MarkAllMembers(cs: seq<Chapter>, bs: seq<Break>)
    ensures forall c :: c in MarkAll(cs, bs) ==> exists i :: 0 <= i < |cs| && c == Mark(cs[i], bs)
  {
    hide Mark;
    if cs != [] {
      MarkAllMembers(cs[1..], bs);
      forall c | c in MarkAll(cs, bs) ensures exists i :: 0 <= i < |cs| && c == Mark(cs[i], bs) {
        if c in MarkAll(cs[1..], bs) {
          var i :| 0 <= i < |cs[1..]| && c == Mark(cs[1..][i], bs);
          assert cs[i + 1] == cs[1..][i];
        } else {
          assert c == Mark(cs[0], bs);
        }
      }
    }
  }

  lemma {:induction false} AdditionsMembers(bs: seq<Break>, kept: seq<Chapter>, r: Rebuild, config: Config)
    ensures forall c :: c in Additions(bs, kept, r, config) ==> c.kind != Topic
    ensures forall i :: 0 <= i < |bs| ==> AdEntry(bs[i], config) in Additions(bs, kept, r, config)
    ensures forall i :: 0 <= i < |bs| && Resumes(bs[i], kept, r) ==>
              ResumeEntry(bs[i], config) in Additions(bs, kept, r, config)
  {
    hide Resumes;
    if bs != [] {
      var n := |bs| - 1;
      AdditionsMembers(bs[..n], kept, r, config);
      forall i | 0 <= i < |bs| ensures AdEntry(bs[i], config) in Additions(bs, kept, r, config)
        && (Resumes(bs[i], kept, r) ==> ResumeEntry(bs[i], config) in Additions(bs, kept, r, config))
      {
        if i < n {
          assert bs[..n][i] == bs[i];
        } else {
          assert AdEntry(bs[n], config) in EntriesFor(bs[n], kept, r, config);
        }
      }
    }
  }

  /** Every break gets its ad chapter, and no visible topic sits inside a break or on its start. */
  lemma VisibleTopicsAvoidBreaks(chapters: seq<Chapter>, r: Rebuild, k: nat)
    requires k < |Breaks(r)| && r.config.Some?
    ensures AdEntry(Breaks(r)[k], r.config.value) in Merge(chapters, r)
    ensures forall c :: c in Merge(chapters, r) && c.kind == Topic && !c.hidden ==> !Shadows(Breaks(r)[k], c.startTime)
  {
    hide Breaks, Additions, MarkAll, Strip, AdEntry;
    var bs, topics := Breaks(r), Strip(chapters);
    var kept := MarkAll(topics, bs);
    var adds := Additions(bs, kept, r, r.config.value);
    SortByMembers(kept + adds, StartTime());
    AdditionsMembers(bs, kept, r, r.config.value);
    MarkAllMembers(topics, bs);
    forall c | c in Merge(chapters, r) && c.kind == Topic && !c.hidden ensures !Shadows(bs[k], c.startTime) {
      assert c in kept;
      var i :| 0 <= i < |topics| && c == Mark(topics[i], bs);
      assert !Displaced(topics[i], bs);
    }
  }
}
