/** Which markers become breaks, where their times land in the served audio, and exactly what a rebuild writes. */
module AdChapterLaws {
  import opened Basics
  import opened AdChapters

  // ----- Which markers get a chapter -----

  /** A marker gets a chapter: marked and confident enough, or held, with held ones shown and its category marked. */
  lemma ChapterMarkersExactly(config: Config, m: Marker)
    ensures HeldStatus(config, m) == Some(false)
       <==> m.isMark && m.category.Some? && m.confidence >= config.minConfidence
    ensures HeldStatus(config, m) == Some(true)
       <==> && !m.isMark && m.pendingReview && config.includeHeld
            && m.category.Some? && m.category.value in config.marked
  {
  }

  // ----- The cuts as groups -----

  /** Left to right with audio between, each of positive length. */
  ghost predicate GroupsApart(gs: seq<CutGroup>) {
    && (forall i :: 0 <= i < |gs| ==> gs[i].start < gs[i].end)
    && (forall i, j :: 0 <= i < j < |gs| ==> gs[i].end < gs[j].start)
  }

  ghost predicate InCut(cuts: seq<Cut>, t: real) { exists i :: 0 <= i < |cuts| && cuts[i].start <= t < cuts[i].end }

  ghost predicate InGroup(gs: seq<CutGroup>, t: real) { exists i :: 0 <= i < |gs| && gs[i].start <= t < gs[i].end }

  function ReplacementOf(c: Cut, fallback: real): real {
    if c.replacement.Some? then c.replacement.value else fallback
  }

  /** Seconds inserted for the cuts with length inside a group. */
  ghost function Inserted(cuts: seq<Cut>, fallback: real, lo: real, hi: real): real {
    if cuts == [] then 0.0
    else
      var c := cuts[|cuts| - 1];
      Inserted(cuts[..|cuts| - 1], fallback, lo, hi)
      + (if c.start < c.end && lo <= c.start && c.end <= hi then ReplacementOf(c, fallback) else 0.0)
  }

  ghost predicate ByStart(cuts: seq<Cut>) { forall i, j :: 0 <= i < j < |cuts| ==> cuts[i].start <= cuts[j].start }

  /** Each cut with length lies in one of the groups. */
  ghost predicate Within(cuts: seq<Cut>, gs: seq<CutGroup>) {
    forall i :: 0 <= i < |cuts| && cuts[i].start < cuts[i].end ==> InsideGroup(cuts[i], gs)
  }

  ghost predicate InsideGroup(c: Cut, gs: seq<CutGroup>) {
    exists k :: 0 <= k < |gs| && gs[k].start <= c.start && c.end <= gs[k].end
  }

  lemma InCutWithLast(cuts: seq<Cut>, c: Cut, t: real)
    ensures InCut(cuts + [c], t) <==> InCut(cuts, t) || c.start <= t < c.end
  {
    if InCut(cuts, t) {
      var i :| 0 <= i < |cuts| && cuts[i].start <= t < cuts[i].end;
      assert (cuts + [c])[i] == cuts[i];
    }
    assert (cuts + [c])[|cuts|] == c;
  }

  lemma InGroupWithLast(gs: seq<CutGroup>, g: CutGroup, t: real)
    ensures InGroup(gs + [g], t) <==> InGroup(gs, t) || g.start <= t < g.end
  {
    if InGroup(gs, t) {
      var i :| 0 <= i < |gs| && gs[i].start <= t < gs[i].end;
      assert (gs + [g])[i] == gs[i];
    }
    assert (gs + [g])[|gs|] == g;
  }

  ghost predicate GroupsOk(cuts: seq<Cut>, gs: seq<CutGroup>) {
    && GroupsApart(gs) && Within(cuts, gs)
    && (gs != [] && cuts != [] ==> gs[|gs| - 1].start <= cuts[|cuts| - 1].start)
  }

  lemma WithinGrows(cuts: seq<Cut>, c: Cut, gs: seq<CutGroup>, out: seq<CutGroup>)
    requires Within(cuts, gs) && (c.start < c.end ==> InsideGroup(c, out))
    requires forall k :: 0 <= k < |gs| ==> k < |out| && out[k].start == gs[k].start && gs[k].end <= out[k].end
    ensures Within(cuts + [c], out)
  {
    var all := cuts + [c];
    forall i | 0 <= i < |all| && all[i].start < all[i].end ensures InsideGroup(all[i], out) {
      if i < |cuts| {
        assert InsideGroup(cuts[i], gs);
        var k :| 0 <= k < |gs| && gs[k].start <= cuts[i].start && cuts[i].end <= gs[k].end;
        assert out[k].start <= all[i].start;
      }
    }
  }

  lemma NoGroups(t: real)
    ensures GroupsOk([], []) && !InGroup([], t) && !InCut([], t)
  {
  }

  function AddCut(gs: seq<CutGroup>, c: Cut, fallback: real): seq<CutGroup> {
    if c.end <= c.start then gs
    else if gs != [] && c.start <= gs[|gs| - 1].end then
      var g := gs[|gs| - 1];
      gs[|gs| - 1 := CutGroup(g.start, MaxReal(g.end, c.end), g.replacement + ReplacementOf(c, fallback))]
    else gs + [CutGroup(c.start, c.end, ReplacementOf(c, fallback))]
  }

  /** The last group of gs grows to g. */
  ghost predicate LastGrows(gs: seq<CutGroup>, g: CutGroup, out: seq<CutGroup>) {
    && gs != [] && out == gs[..|gs| - 1] + [g]
    && g.start == gs[|gs| - 1].start && gs[|gs| - 1].end <= g.end
  }

  lemma StaysApart(gs: seq<CutGroup>, g: CutGroup, out: seq<CutGroup>)
    requires GroupsApart(gs) && LastGrows(gs, g, out)
    ensures GroupsApart(out)
  {
    forall i | 0 <= i < |out| ensures out[i].start < out[i].end {
      assert i < |gs| - 1 ==> out[i] == gs[i];
    }
    forall i, j | 0 <= i < j < |out| ensures out[i].end < out[j].start {
      assert out[i] == gs[i] && out[j].start == gs[j].start;
    }
  }

  lemma GrownHas(gs: seq<CutGroup>, g: CutGroup, out: seq<CutGroup>, t: real)
    requires LastGrows(gs, g, out)
    ensures InGroup(out, t) <==> InGroup(gs, t) || g.start <= t < g.end
  {
    var init, last := gs[..|gs| - 1], gs[|gs| - 1];
    assert gs == init + [last];
    InGroupWithLast(init, last, t);
    InGroupWithLast(init, g, t);
  }

  lemma AddCutWidens(gs: seq<CutGroup>, c: Cut, fallback: real) returns (g: CutGroup)
    requires c.start < c.end && gs != [] && c.start <= gs[|gs| - 1].end
    ensures LastGrows(gs, g, AddCut(gs, c, fallback)) && g.end == MaxReal(gs[|gs| - 1].end, c.end)
  {
    g := AddCut(gs, c, fallback)[|gs| - 1];
  }

  lemma BothLast(cuts: seq<Cut>, c: Cut)
    requires ByStart(cuts + [c]) && cuts != []
    ensures cuts[|cuts| - 1].start <= c.start
  {
    assert (cuts + [c])[|cuts| - 1].start <= (cuts + [c])[|cuts|].start;
  }

  /** A cut that reaches the last group widens it. */
  lemma WidenStep(cuts: seq<Cut>, c: Cut, gs: seq<CutGroup>, fallback: real, t: real)
    requires GroupsOk(cuts, gs) && ByStart(cuts + [c]) && cuts != []
    requires c.start < c.end && gs != [] && c.start <= gs[|gs| - 1].end
    ensures GroupsOk(cuts + [c], AddCut(gs, c, fallback))
    ensures InGroup(AddCut(gs, c, fallback), t) <==> InGroup(gs, t) || c.start <= t < c.end
  {
    hide Within, InsideGroup, ByStart, AddCut, GroupsApart, InGroup;
    var out := AddCut(gs, c, fallback);
    var g := AddCutWidens(gs, c, fallback);
    BothLast(cuts, c);
    StaysApart(gs, g, out);
    LastHolds(c, out);
    WithinGrows(cuts, c, gs, out);
    GrownHas(gs, g, out, t);
    if gs[|gs| - 1].start <= t < gs[|gs| - 1].end {
      LastIsIn(gs, t);
    }
  }

  lemma LastIsIn(gs: seq<CutGroup>, t: real)
    requires gs != [] && gs[|gs| - 1].start <= t < gs[|gs| - 1].end
    ensures InGroup(gs, t)
  {
  }

  lemma GroupStep(cuts: seq<Cut>, c: Cut, gs: seq<CutGroup>, fallback: real, t: real)
    requires GroupsOk(cuts, gs) && ByStart(cuts + [c])
    requires gs != [] ==> cuts != []
    ensures GroupsOk(cuts + [c], AddCut(gs, c, fallback))
    ensures InGroup(AddCut(gs, c, fallback), t) <==> InGroup(gs, t) || c.start <= t < c.end
  {
    hide Within, InsideGroup, InGroup, ReplacementOf;
    var out := AddCut(gs, c, fallback);
    if c.end <= c.start {
      if cuts != [] {
        assert (cuts + [c])[|cuts| - 1].start <= (cuts + [c])[|cuts|].start;
      }
      WithinGrows(cuts, c, gs, out);
    } else if gs != [] && c.start <= gs[|gs| - 1].end {
      WidenStep(cuts, c, gs, fallback, t);
    } else {
      InGroupWithLast(gs, out[|gs|], t);
      LastHolds(c, out);
      WithinGrows(cuts, c, gs, out);
    }
  }

  lemma LastHolds(c: Cut, gs: seq<CutGroup>)
    requires gs != [] && gs[|gs| - 1].start <= c.start && c.end <= gs[|gs| - 1].end
    ensures InsideGroup(c, gs)
  {
  }

  lemma GroupCutsIs(cuts: seq<Cut>, c: Cut, fallback: real)
    ensures GroupCuts([], fallback) == []
    ensures GroupCuts(cuts + [c], fallback) == AddCut(GroupCuts(cuts, fallback), c, fallback)
  {
    assert (cuts + [c])[..|cuts|] == cuts;
  }

  lemma ByStartInit(cuts: seq<Cut>)
    requires ByStart(cuts) && cuts != []
    ensures ByStart(cuts[..|cuts| - 1])
  {
  }

  /** The groups of the sorted cuts lie apart, hold every cut with length, and cover what the cuts cover. */
  lemma {:induction false} GroupsCover(cuts: seq<Cut>, fallback: real, t: real)
    requires ByStart(cuts)
    ensures GroupsOk(cuts, GroupCuts(cuts, fallback))
    ensures InGroup(GroupCuts(cuts, fallback), t) <==> InCut(cuts, t)
  {
    hide *;
    NoGroups(t);
    if cuts == [] {
      GroupCutsIs([], Cut(0.0, 0.0, None), fallback);
    } else {
      var n := |cuts| - 1;
      var init, c := cuts[..n], cuts[n];
      ByStartInit(cuts);
      GroupsCover(init, fallback, t);
      assert cuts == init + [c];
      InCutWithLast(init, c, t);
      GroupCutsIs(init, c, fallback);
      GroupStep(init, c, GroupCuts(init, fallback), fallback, t);
    }
  }

  lemma {:induction false} NothingInserted(cuts: seq<Cut>, fallback: real, lo: real, hi: real)
    requires forall i :: 0 <= i < |cuts| && cuts[i].start < cuts[i].end ==> cuts[i].start < lo || cuts[i].end > hi
    ensures Inserted(cuts, fallback, lo, hi) == 0.0
  {
    if cuts != [] {
      NothingInserted(cuts[..|cuts| - 1], fallback, lo, hi);
    }
  }

  /** Widening a group's end takes in no further cut when every cut that begins in it ended in it before. */
  lemma {:induction false} SameInserted(cuts: seq<Cut>, fallback: real, lo: real, hi: real, wider: real)
    requires hi <= wider
    requires forall i :: 0 <= i < |cuts| && cuts[i].start < cuts[i].end && lo <= cuts[i].start ==> cuts[i].end <= hi
    ensures Inserted(cuts, fallback, lo, wider) == Inserted(cuts, fallback, lo, hi)
  {
    if cuts != [] {
      SameInserted(cuts[..|cuts| - 1], fallback, lo, hi, wider);
    }
  }

  lemma InsertedWithLast(cuts: seq<Cut>, c: Cut, fallback: real, lo: real, hi: real)
    ensures Inserted(cuts + [c], fallback, lo, hi) == Inserted(cuts, fallback, lo, hi)
      + (if c.start < c.end && lo <= c.start && c.end <= hi then ReplacementOf(c, fallback) else 0.0)
  {
    assert (cuts + [c])[..|cuts|] == cuts;
  }

  ghost predicate ReplacedAt(cuts: seq<Cut>, gs: seq<CutGroup>, fallback: real, i: nat)
    requires i < |gs|
  {
    gs[i].replacement == Inserted(cuts, fallback, gs[i].start, gs[i].end)
  }

  lemma ReplacementStep(cuts: seq<Cut>, c: Cut, gs: seq<CutGroup>, fallback: real)
    requires GroupsOk(cuts, gs) && ByStart(cuts + [c]) && (gs != [] ==> cuts != [])
    requires forall i :: 0 <= i < |gs| ==> ReplacedAt(cuts, gs, fallback, i)
    ensures forall i :: 0 <= i < |AddCut(gs, c, fallback)| ==>
              ReplacedAt(cuts + [c], AddCut(gs, c, fallback), fallback, i)
  {
    hide InsideGroup, Inserted;
    var out, n := AddCut(gs, c, fallback), |gs| - 1;
    forall i | 0 <= i < |out| ensures ReplacedAt(cuts + [c], out, fallback, i) {
      InsertedWithLast(cuts, c, fallback, out[i].start, out[i].end);
      if i < |gs| {
        assert ReplacedAt(cuts, gs, fallback, i);
        if cuts != [] {
          assert (cuts + [c])[|cuts| - 1].start <= (cuts + [c])[|cuts|].start;
        }
        if i == n {
          LastTakesAll(cuts, gs);
          SameInserted(cuts, fallback, gs[n].start, gs[n].end, out[n].end);
        }
      } else {
        NewTakesNone(cuts, c, gs);
        NothingInserted(cuts, fallback, c.start, c.end);
      }
    }
  }

  lemma LastTakesAll(cuts: seq<Cut>, gs: seq<CutGroup>)
    requires GroupsApart(gs) && Within(cuts, gs) && gs != []
    ensures forall i :: 0 <= i < |cuts| && cuts[i].start < cuts[i].end && gs[|gs| - 1].start <= cuts[i].start ==>
              cuts[i].end <= gs[|gs| - 1].end
  {
    forall i | 0 <= i < |cuts| && cuts[i].start < cuts[i].end && gs[|gs| - 1].start <= cuts[i].start
      ensures cuts[i].end <= gs[|gs| - 1].end
    {
      assert InsideGroup(cuts[i], gs);
      var k :| 0 <= k < |gs| && gs[k].start <= cuts[i].start && cuts[i].end <= gs[k].end;
    }
  }

  lemma NewTakesNone(cuts: seq<Cut>, c: Cut, gs: seq<CutGroup>)
    requires GroupsApart(gs) && Within(cuts, gs) && (gs != [] ==> gs[|gs| - 1].end < c.start)
    ensures forall i :: 0 <= i < |cuts| && cuts[i].start < cuts[i].end ==> cuts[i].start < c.start
  {
    forall i | 0 <= i < |cuts| && cuts[i].start < cuts[i].end ensures cuts[i].start < c.start {
      assert InsideGroup(cuts[i], gs);
      var k :| 0 <= k < |gs| && gs[k].start <= cuts[i].start && cuts[i].end <= gs[k].end;
    }
  }

  /** Each group inserts what its own cuts insert. */
  lemma {:induction false} GroupsInsert(cuts: seq<Cut>, fallback: real)
    requires ByStart(cuts)
    ensures forall i :: 0 <= i < |GroupCuts(cuts, fallback)| ==>
              ReplacedAt(cuts, GroupCuts(cuts, fallback), fallback, i)
  {
    hide *;
    GroupCutsIs([], Cut(0.0, 0.0, None), fallback);
    if cuts != [] {
      var n := |cuts| - 1;
      var init, c := cuts[..n], cuts[n];
      ByStartInit(cuts);
      GroupsInsert(init, fallback);
      GroupsCover(init, fallback, 0.0);
      assert cuts == init + [c];
      GroupCutsIs(init, c, fallback);
      ReplacementStep(init, c, GroupCuts(init, fallback), fallback);
    }
  }

  // ----- Where a time lands -----

  lemma {:induction false} NoShiftBefore(gs: seq<CutGroup>, t: real)
    requires forall i :: 0 <= i < |gs| ==> t <= gs[i].start && gs[i].start < gs[i].end
    ensures Shift(t, gs) == 0.0
  {
    if gs != [] {
      NoShiftBefore(gs[1..], t);
    }
  }

  lemma {:induction false} ShiftStays(gs: seq<CutGroup>, t: real, u: real)
    requires GroupsApart(gs) && t <= u && forall i :: 0 <= i < |gs| ==> gs[i].end <= t || u <= gs[i].start
    ensures Shift(u, gs) == Shift(t, gs)
  {
    if gs != [] {
      ShiftStays(gs[1..], t, u);
    }
  }

  lemma {:induction false} ShiftGrows(gs: seq<CutGroup>, t: real, i: nat)
    requires GroupsApart(gs) && i < |gs| && gs[i].start <= t < gs[i].end
    ensures Shift(t, gs) == Shift(gs[i].start, gs) + (t - gs[i].start)
  {
    if i > 0 {
      ShiftGrows(gs[1..], t, i - 1);
    }
  }

  lemma {:induction false} ShiftPast(gs: seq<CutGroup>, i: nat)
    requires GroupsApart(gs) && i < |gs|
    ensures Shift(gs[i].end, gs) == Shift(gs[i].start, gs) + (gs[i].end - gs[i].start) - gs[i].replacement
  {
    if i > 0 {
      ShiftPast(gs[1..], i - 1);
    } else {
      NoShiftBefore(gs[1..], gs[0].end);
    }
  }

  /**
   * Before the groups nothing shifts; between groups the shift stays; in a group it grows with time; past a group the
   * inserted seconds are given back.
   */
  lemma ShiftLaw(gs: seq<CutGroup>, t: real, u: real)
    requires GroupsApart(gs)
    ensures (forall i :: 0 <= i < |gs| ==> t <= gs[i].start) ==> Shift(t, gs) == 0.0
    ensures t <= u && (forall i :: 0 <= i < |gs| ==> gs[i].end <= t || u <= gs[i].start) ==>
              Shift(u, gs) == Shift(t, gs)
    ensures forall i :: 0 <= i < |gs| && gs[i].start <= t < gs[i].end ==>
              Shift(t, gs) == Shift(gs[i].start, gs) + (t - gs[i].start)
    ensures forall i :: 0 <= i < |gs| ==>
              Shift(gs[i].end, gs) == Shift(gs[i].start, gs) + (gs[i].end - gs[i].start) - gs[i].replacement
  {
    hide Shift;
    if forall i :: 0 <= i < |gs| ==> t <= gs[i].start {
      NoShiftBefore(gs, t);
    }
    if t <= u && forall i :: 0 <= i < |gs| ==> gs[i].end <= t || u <= gs[i].start {
      ShiftStays(gs, t, u);
    }
    forall i | 0 <= i < |gs| && gs[i].start <= t < gs[i].end
      ensures Shift(t, gs) == Shift(gs[i].start, gs) + (t - gs[i].start)
    {
      ShiftGrows(gs, t, i);
    }
    forall i | 0 <= i < |gs|
      ensures Shift(gs[i].end, gs) == Shift(gs[i].start, gs) + (gs[i].end - gs[i].start) - gs[i].replacement
    {
      ShiftPast(gs, i);
    }
  }

  // ----- A time in the served audio -----

  ghost predicate SameTime(cuts: seq<Cut>, gs: seq<CutGroup>) { forall x :: InGroup(gs, x) <==> InCut(cuts, x) }

  /** gs are the stretches the cuts take out, apart, each with the seconds its cuts insert. */
  ghost predicate TakenOut(cuts: seq<Cut>, fallback: real, gs: seq<CutGroup>) {
    && GroupsApart(gs) && SameTime(cuts, gs)
    && forall i :: 0 <= i < |gs| ==> ReplacedAt(SortBy(cuts, CutStart()), gs, fallback, i)
  }

  function CutStart(): Cut -> real { (c: Cut) => c.start }

  /** Episode time less the shift of the stretches taken out before it. */
  ghost function Served(gs: seq<CutGroup>, t: real): real { t - Shift(t, gs) }

  /**
   * Before a stretch time is unchanged, between stretches it runs on, in one it stands, past one the insertion is
   * added.
   */
  ghost predicate Serves(gs: seq<CutGroup>, t: real, u: real) {
    && ((forall i :: 0 <= i < |gs| ==> t <= gs[i].start) ==> Served(gs, t) == t)
    && (t <= u && (forall i :: 0 <= i < |gs| ==> gs[i].end <= t || u <= gs[i].start) ==>
          Served(gs, u) - Served(gs, t) == u - t)
    && (forall i :: 0 <= i < |gs| && gs[i].start <= t < gs[i].end ==> Served(gs, t) == Served(gs, gs[i].start))
    && (forall i :: 0 <= i < |gs| ==> Served(gs, gs[i].end) == Served(gs, gs[i].start) + gs[i].replacement)
  }

  lemma SameMembersCut(a: seq<Cut>, b: seq<Cut>, t: real)
    requires forall c :: c in a <==> c in b
    ensures InCut(a, t) <==> InCut(b, t)
  {
    if i :| 0 <= i < |a| && a[i].start <= t < a[i].end {
      assert a[i] in b;
    }
    if i :| 0 <= i < |b| && b[i].start <= t < b[i].end {
      assert b[i] in a;
    }
  }

  lemma StretchesTakenOut(cuts: seq<Cut>, fallback: real)
    ensures TakenOut(cuts, fallback, GroupCuts(SortBy(cuts, CutStart()), fallback))
  {
    hide *;
    var sorted := SortBy(cuts, CutStart());
    var gs := GroupCuts(sorted, fallback);
    SortedCuts(cuts);
    GroupsInsert(sorted, fallback);
    forall t ensures InGroup(gs, t) <==> InCut(cuts, t) {
      GroupsCover(sorted, fallback, t);
      SameMembersCut(cuts, sorted, t);
    }
    GroupsCover(sorted, fallback, 0.0);
    OkIsApart(sorted, gs);
    TakenOutIs(cuts, fallback, gs);
  }

  lemma TakenOutIs(cuts: seq<Cut>, fallback: real, gs: seq<CutGroup>)
    requires GroupsApart(gs) && forall x :: InGroup(gs, x) <==> InCut(cuts, x)
    requires forall i :: 0 <= i < |gs| ==> ReplacedAt(SortBy(cuts, CutStart()), gs, fallback, i)
    ensures TakenOut(cuts, fallback, gs)
  {
    hide GroupsApart, InGroup, InCut, ReplacedAt;
  }

  /** The served time of any episode time, which the cuts and what is inserted for them decide; never before zero. */
  lemma TimesAreServed(cuts: seq<Cut>, fallback: real, t: real, u: real) returns (gs: seq<CutGroup>)
    ensures TakenOut(cuts, fallback, gs) && Serves(gs, t, u)
    ensures AdjustTimestamp(t, cuts, fallback) == if cuts == [] then t else MaxReal(0.0, Served(gs, t))
  {
    hide GroupCuts, TakenOut, Shift;
    gs := GroupCuts(SortBy(cuts, CutStart()), fallback);
    StretchesTakenOut(cuts, fallback);
    TakenOutApart(cuts, fallback, gs);
    ShiftServes(gs, t, u);
    assert SortBy(cuts, CutStart()) == SortBy(cuts, (c: Cut) => c.start);
  }

  lemma TakenOutApart(cuts: seq<Cut>, fallback: real, gs: seq<CutGroup>)
    requires TakenOut(cuts, fallback, gs)
    ensures GroupsApart(gs)
  {
  }

  lemma OkIsApart(cuts: seq<Cut>, gs: seq<CutGroup>)
    requires GroupsOk(cuts, gs)
    ensures GroupsApart(gs)
  {
  }

  lemma SortedCuts(cuts: seq<Cut>)
    ensures ByStart(SortBy(cuts, CutStart())) && forall c :: c in cuts <==> c in SortBy(cuts, CutStart())
  {
    SortByIsSorted(cuts, CutStart());
    SortByMembers(cuts, CutStart());
    var sorted := SortBy(cuts, CutStart());
    forall i, j | 0 <= i < j < |sorted| ensures sorted[i].start <= sorted[j].start {
      assert CutStart()(sorted[i]) <= CutStart()(sorted[j]);
    }
  }

  lemma ShiftServes(gs: seq<CutGroup>, t: real, u: real)
    requires GroupsApart(gs)
    ensures Serves(gs, t, u)
  {
    hide Shift;
    ShiftLaw(gs, t, u);
  }

  // ----- Breaks -----

  /** n is the whole second nearest to x, the even one when two are. */
  ghost predicate NearestSecond(x: real, n: int) {
    n as real - 0.5 <= x <= n as real + 0.5 && (AbsReal(x - n as real) == 0.5 ==> n % 2 == 0)
  }

  lemma RoundsToNearest(x: real, n: int)
    ensures RoundHalfEven(x) == n <==> NearestSecond(x, n)
  {
    var f := x.Floor;
    assert f as real <= x < f as real + 1.0;
    var r := RoundHalfEven(x);
    assert NearestSecond(x, r);
  }

  /** The marker gets a chapter on the whole seconds nearest to where its edges are served, from 1 on. */
  ghost predicate MakesBreak(m: Marker, config: Config, r: Rebuild, b: Break) {
    && HeldStatus(config, m) == Some(b.held) && m.category == Some(b.category) && m.start.Some? && m.end.Some?
    && (exists s, e ::
          && NearestSecond(AdjustTimestamp(m.start.value, r.cuts, r.replacement), s)
          && NearestSecond(AdjustTimestamp(m.end.value, r.cuts, r.replacement), e)
          && b.start == MaxInt(1, s) && b.end == MaxInt(1, e))
    && b.start < b.end
  }

  lemma BreakOfIs(m: Marker, config: Config, r: Rebuild, b: Break)
    ensures b in BreakOf(m, config, r) <==> MakesBreak(m, config, r, b)
  {
    hide AdjustTimestamp, NearestSecond, RoundHalfEven;
    if m.start.Some? && m.end.Some? {
      var x := AdjustTimestamp(m.start.value, r.cuts, r.replacement);
      var y := AdjustTimestamp(m.end.value, r.cuts, r.replacement);
      forall n ensures RoundHalfEven(x) == n <==> NearestSecond(x, n) {
        RoundsToNearest(x, n);
      }
      forall n ensures RoundHalfEven(y) == n <==> NearestSecond(y, n) {
        RoundsToNearest(y, n);
      }
    }
  }

  lemma {:induction false} AllBreaksAre(ms: seq<Marker>, config: Config, r: Rebuild, b: Break)
    ensures b in AllBreaks(ms, config, r) <==> exists m :: m in ms && MakesBreak(m, config, r, b)
  {
    hide BreakOf, MakesBreak;
    if ms != [] {
      var n := |ms| - 1;
      AllBreaksAre(ms[..n], config, r, b);
      BreakOfIs(ms[n], config, r, b);
      assert ms == ms[..n] + [ms[n]];
    }
  }

  ghost predicate InBreak(bs: seq<Break>, t: real) {
    exists i :: 0 <= i < |bs| && bs[i].start as real <= t < bs[i].end as real
  }

  lemma InBreakWithLast(bs: seq<Break>, b: Break, t: real)
    ensures InBreak(bs + [b], t) <==> InBreak(bs, t) || b.start as real <= t < b.end as real
  {
    if i :| 0 <= i < |bs| && bs[i].start as real <= t < bs[i].end as real {
      assert (bs + [b])[i] == bs[i];
    }
    assert (bs + [b])[|bs|] == b;
  }

  /** b carries the name of the first of its breaks. */
  ghost predicate NamedBy(b: Break, sorted: seq<Break>, i: nat) {
    && i < |sorted| && sorted[i].start == b.start && sorted[i].held == b.held && sorted[i].category == b.category
    && forall j :: 0 <= j < i ==> sorted[j].end < b.start
  }

  ghost predicate Named(b: Break, sorted: seq<Break>) { exists i: nat :: NamedBy(b, sorted, i) }

  lemma NamedLonger(b: Break, end: int, sorted: seq<Break>, last: Break)
    requires Named(b, sorted)
    ensures Named(b.(end := end), sorted + [last])
  {
    var i: nat :| NamedBy(b, sorted, i);
    assert NamedBy(b.(end := end), sorted + [last], i);
  }

  lemma NamedLast(sorted: seq<Break>, last: Break)
    requires forall j :: 0 <= j < |sorted| ==> sorted[j].end < last.start
    ensures Named(last, sorted + [last])
  {
    assert NamedBy(last, sorted + [last], |sorted|);
  }

  ghost predicate JoinedOk(sorted: seq<Break>, js: seq<Break>) {
    && (forall k :: 0 <= k < |js| ==> js[k].start < js[k].end && Named(js[k], sorted))
    && (forall k :: 0 <= k < |sorted| ==> js != [] && sorted[k].end <= js[|js| - 1].end)
    && (js != [] ==> sorted != [] && js[|js| - 1].start <= sorted[|sorted| - 1].start)
  }

  ghost predicate RealBreaks(bs: seq<Break>) { forall i :: 0 <= i < |bs| ==> bs[i].start < bs[i].end }

  ghost predicate SortedBreaks(bs: seq<Break>) { forall i, j :: 0 <= i < j < |bs| ==> bs[i].start <= bs[j].start }

  function AddBreak(js: seq<Break>, b: Break): seq<Break> {
    if js != [] && b.start <= js[|js| - 1].end
    then js[|js| - 1 := js[|js| - 1].(end := MaxInt(js[|js| - 1].end, b.end))]
    else js + [b]
  }

  lemma JoinStep(sorted: seq<Break>, b: Break, js: seq<Break>, t: real)
    requires JoinedOk(sorted, js) && b.start < b.end && SortedBreaks(sorted + [b])
    ensures JoinedOk(sorted + [b], AddBreak(js, b))
    ensures InBreak(AddBreak(js, b), t) <==> InBreak(js, t) || b.start as real <= t < b.end as real
  {
    hide Named, InBreak;
    var out, n := AddBreak(js, b), |js| - 1;
    if sorted != [] {
      assert (sorted + [b])[|sorted| - 1].start <= (sorted + [b])[|sorted|].start;
    }
    forall k | 0 <= k < |js| ensures Named(out[k], sorted + [b]) {
      NamedLonger(js[k], out[k].end, sorted, b);
      assert js[k].(end := out[k].end) == out[k];
    }
    if |out| > |js| {
      NamedLast(sorted, b);
      InBreakWithLast(js, b, t);
    } else {
      assert js == js[..n] + [js[n]] && out == js[..n] + [out[n]];
      InBreakWithLast(js[..n], js[n], t);
      InBreakWithLast(js[..n], out[n], t);
    }
  }

  lemma JoinIs(sorted: seq<Break>, b: Break)
    ensures JoinBreaks([]) == [] && JoinBreaks(sorted + [b]) == AddBreak(JoinBreaks(sorted), b)
  {
    assert (sorted + [b])[..|sorted|] == sorted;
  }

  lemma NothingJoined(t: real)
    ensures JoinedOk([], []) && !InBreak([], t)
  {
  }

  lemma BreaksInit(sorted: seq<Break>)
    requires SortedBreaks(sorted) && RealBreaks(sorted) && sorted != []
    ensures SortedBreaks(sorted[..|sorted| - 1]) && RealBreaks(sorted[..|sorted| - 1])
    ensures sorted[|sorted| - 1].start < sorted[|sorted| - 1].end
  {
  }

  lemma {:induction false} JoinedBreaksAre(sorted: seq<Break>, t: real)
    requires SortedBreaks(sorted) && RealBreaks(sorted)
    ensures JoinedOk(sorted, JoinBreaks(sorted))
    ensures InBreak(JoinBreaks(sorted), t) <==> InBreak(sorted, t)
  {
    hide *;
    NothingJoined(t);
    if sorted == [] {
      JoinIs([], Break(0, 0, false, ""));
    } else {
      var n := |sorted| - 1;
      BreaksInit(sorted);
      JoinedBreaksAre(sorted[..n], t);
      assert sorted == sorted[..n] + [sorted[n]];
      JoinIs(sorted[..n], sorted[n]);
      InBreakWithLast(sorted[..n], sorted[n], t);
      JoinStep(sorted[..n], sorted[n], JoinBreaks(sorted[..n]), t);
    }
  }

  /** The breaks in the order the rebuild joins them: by start, ties in marker order. */
  ghost function MarkerBreaks(r: Rebuild): seq<Break>
    requires r.config.Some?
  {
    SortBy(AllBreaks(r.markers, r.config.value, r), BreakStart())
  }

  /** The breaks cover what the markers' breaks cover, and each is named by the first marker's break in it. */
  lemma BreaksAreExactly(r: Rebuild, t: real)
    requires r.config.Some?
    ensures forall b :: b in MarkerBreaks(r) <==> exists m :: m in r.markers && MakesBreak(m, r.config.value, r, b)
    ensures InBreak(Breaks(r), t) <==> InBreak(MarkerBreaks(r), t)
    ensures forall k :: 0 <= k < |Breaks(r)| ==> Named(Breaks(r)[k], MarkerBreaks(r))
  {
    hide MakesBreak, AllBreaks, JoinBreaks, InBreak, Named;
    var all, sorted := AllBreaks(r.markers, r.config.value, r), MarkerBreaks(r);
    SortByMembers(all, BreakStart());
    SortByIsSorted(all, BreakStart());
    forall b ensures b in all <==> exists m :: m in r.markers && MakesBreak(m, r.config.value, r, b) {
      AllBreaksAre(r.markers, r.config.value, r, b);
    }
    forall i | 0 <= i < |sorted| ensures sorted[i].start < sorted[i].end {
      assert sorted[i] in sorted;
      var m :| m in r.markers && MakesBreak(m, r.config.value, r, sorted[i]);
      BreakHasLength(m, r.config.value, r, sorted[i]);
    }
    forall i, j | 0 <= i < j < |sorted| ensures sorted[i].start <= sorted[j].start {
      assert BreakStart()(sorted[i]) <= BreakStart()(sorted[j]);
    }
    JoinedBreaksAre(sorted, t);
    NothingJoined(t);
    JoinIs([], Break(0, 0, false, ""));
    NoMarkers(r);
  }

  lemma NoMarkers(r: Rebuild)
    requires r.config.Some?
    ensures r.markers == [] ==> AllBreaks(r.markers, r.config.value, r) == []
  {
  }

  lemma BreakHasLength(m: Marker, config: Config, r: Rebuild, b: Break)
    requires MakesBreak(m, config, r, b)
    ensures b.start < b.end
  {
  }

  // ----- What a rebuild writes -----

  function TopicsBefore(cs: seq<Chapter>, k: nat): nat
    requires k <= |cs|
  {
    if k == 0 then 0 else TopicsBefore(cs, k - 1) + (if cs[k - 1].kind == Topic then 1 else 0)
  }

  lemma {:induction false} TopicsAfterFirst(cs: seq<Chapter>, k: nat)
    requires cs != [] && k < |cs|
    ensures TopicsBefore(cs, k + 1) == (if cs[0].kind == Topic then 1 else 0) + TopicsBefore(cs[1..], k)
  {
    if k > 0 {
      TopicsAfterFirst(cs, k - 1);
    } else {
      assert TopicsBefore(cs, 0) == 0;
    }
  }

  lemma {:induction false} TopicsAreCounted(cs: seq<Chapter>)
    ensures |Strip(cs)| == TopicsBefore(cs, |cs|)
  {
    if cs != [] {
      TopicsAreCounted(cs[1..]);
      TopicsAfterFirst(cs, |cs| - 1);
      hide TopicsBefore;
    }
  }

  lemma {:induction false} TopicIsKept(cs: seq<Chapter>, k: nat)
    requires k < |cs| && cs[k].kind == Topic
    ensures TopicsBefore(cs, k) < |Strip(cs)| && Strip(cs)[TopicsBefore(cs, k)] == cs[k].(hidden := false)
  {
    if k > 0 {
      TopicIsKept(cs[1..], k - 1);
      TopicsAfterFirst(cs, k - 1);
      hide TopicsBefore;
    }
  }

  /** Every topic is kept in its place among the topics, unhidden, and nothing else is. */
  lemma TopicsAreKept(cs: seq<Chapter>)
    ensures |Strip(cs)| == TopicsBefore(cs, |cs|)
    ensures forall k :: 0 <= k < |cs| && cs[k].kind == Topic ==>
              TopicsBefore(cs, k) < |Strip(cs)| && Strip(cs)[TopicsBefore(cs, k)] == cs[k].(hidden := false)
  {
    hide TopicsBefore, Strip;
    TopicsAreCounted(cs);
    forall k | 0 <= k < |cs| && cs[k].kind == Topic
      ensures TopicsBefore(cs, k) < |Strip(cs)| && Strip(cs)[TopicsBefore(cs, k)] == cs[k].(hidden := false)
    {
      TopicIsKept(cs, k);
    }
  }

  /** A topic in a break, or within two seconds of its start, is hidden. */
  ghost predicate HiddenBy(b: Break, t: real) {
    (b.start as real < t && t < b.end as real) || b.start as real - 2.0 <= t <= b.start as real + 2.0
  }

  ghost predicate AsWritten(c: Chapter, topic: Chapter, bs: seq<Break>) {
    c == topic.(hidden := exists b :: b in bs && HiddenBy(b, topic.startTime))
  }

  /** After b the programme resumes in a chapter of its own: the episode goes on, and no shown topic is near. */
  ghost predicate ResumesAfter(b: Break, topics: seq<Chapter>, bs: seq<Break>, duration: Option<real>) {
    && (duration.Some? && duration.value != 0.0 ==>
          exists n :: NearestSecond(duration.value, n) && b.end < n)
    && forall c :: c in topics && b.end as real - 2.0 <= c.startTime <= b.end as real + 2.0 ==>
         exists o :: o in bs && HiddenBy(o, c.startTime)
  }

  /** The chapter of a break: at its start, titled after its category, shown, and held as the break is. */
  ghost predicate BreakChapter(c: Chapter, b: Break, config: Config) {
    && c.startTime == b.start as real && c.kind == AdBreak && c.category == b.category && c.detail == 0
    && (c.held <==> b.held) && !c.hidden
    && c.title == if b.held then config.heldTitle(b.category) else config.title(b.category)
  }

  /** The chapter after a break: at its end, under the resume title, of no category, shown and not held. */
  ghost predicate ResumeChapter(c: Chapter, b: Break, config: Config) {
    && c.startTime == b.end as real && c.kind == Resume && c.category == "" && c.detail == 0
    && !c.held && !c.hidden && c.title == config.resumeTitle
  }

  lemma EntriesAre(c: Chapter, b: Break, config: Config)
    ensures c == AdEntry(b, config) <==> BreakChapter(c, b, config)
    ensures c == ResumeEntry(b, config) <==> ResumeChapter(c, b, config)
  {
  }

  lemma DisplacedIs(c: Chapter, bs: seq<Break>)
    ensures Displaced(c, bs) <==> exists b :: b in bs && HiddenBy(b, c.startTime)
  {
    if i :| 0 <= i < |bs| && Shadows(bs[i], c.startTime) {
      assert bs[i] in bs;
    }
    if b :| b in bs && HiddenBy(b, c.startTime) {
      var i :| 0 <= i < |bs| && bs[i] == b;
      assert Shadows(bs[i], c.startTime);
    }
  }

  lemma {:induction false} MarkAllIs(cs: seq<Chapter>, bs: seq<Break>)
    ensures |MarkAll(cs, bs)| == |cs| && forall i :: 0 <= i < |cs| ==> MarkAll(cs, bs)[i] == Mark(cs[i], bs)
  {
    hide Mark;
    if cs != [] {
      MarkAllIs(cs[1..], bs);
    }
  }

  lemma {:induction false} AdditionsAre(bs: seq<Break>, kept: seq<Chapter>, r: Rebuild, config: Config, c: Chapter)
    ensures c in Additions(bs, kept, r, config)
      <==> exists b :: b in bs && (c == AdEntry(b, config) || (c == ResumeEntry(b, config) && Resumes(b, kept, r)))
  {
    hide Resumes, AdEntry, ResumeEntry;
    if bs != [] {
      var n := |bs| - 1;
      AdditionsAre(bs[..n], kept, r, config, c);
      assert bs == bs[..n] + [bs[n]];
      assert c in EntriesFor(bs[n], kept, r, config)
        <==> c == AdEntry(bs[n], config) || (c == ResumeEntry(bs[n], config) && Resumes(bs[n], kept, r));
    }
  }

  lemma SnapsIs(topics: seq<Chapter>, bs: seq<Break>, t: real)
    requires AllTopics(topics)
    ensures SnapsTo(MarkAll(topics, bs), t)
       <==> exists c :: c in topics && t - 2.0 <= c.startTime <= t + 2.0
                        && !exists b :: b in bs && HiddenBy(b, c.startTime)
  {
    hide HiddenBy, Displaced;
    MarkAllIs(topics, bs);
    var kept := MarkAll(topics, bs);
    forall i | 0 <= i < |topics| ensures kept[i].hidden <==> exists b :: b in bs && HiddenBy(b, topics[i].startTime) {
      DisplacedIs(topics[i], bs);
    }
    if i :| 0 <= i < |kept| && !kept[i].hidden && AbsReal(kept[i].startTime - t) <= AD_CHAPTER_SNAP_SECONDS {
      assert topics[i] in topics;
    }
    if c :| c in topics && t - 2.0 <= c.startTime <= t + 2.0 && !exists b :: b in bs && HiddenBy(b, c.startTime) {
      var i :| 0 <= i < |topics| && topics[i] == c;
      assert !kept[i].hidden;
    }
  }

  lemma ResumesIs(b: Break, topics: seq<Chapter>, bs: seq<Break>, r: Rebuild)
    requires AllTopics(topics)
    ensures Resumes(b, MarkAll(topics, bs), r) <==> ResumesAfter(b, topics, bs, r.duration)
  {
    hide NearestSecond, HiddenBy, MarkAll, SnapsTo, RoundHalfEven;
    SnapsIs(topics, bs, b.end as real);
    if r.duration.Some? {
      forall n ensures RoundHalfEven(r.duration.value) == n <==> NearestSecond(r.duration.value, n) {
        RoundsToNearest(r.duration.value, n);
      }
      assert NearestSecond(r.duration.value, RoundHalfEven(r.duration.value));
    }
    var near := (c: Chapter) => b.end as real - 2.0 <= c.startTime <= b.end as real + 2.0;
    assert SnapsTo(MarkAll(topics, bs), b.end as real)
      <==> exists c :: c in topics && near(c) && !exists o :: o in bs && HiddenBy(o, c.startTime);
  }

  lemma MarkIs(topic: Chapter, bs: seq<Break>)
    requires !topic.hidden
    ensures AsWritten(Mark(topic, bs), topic, bs)
  {
    DisplacedIs(topic, bs);
    hide Displaced, HiddenBy;
  }

  /**
   * A rebuild with breaks writes, by start, exactly every topic, hidden where a break shadows it, each break's entry,
   * and a resume entry after each break that the programme resumes after.
   */
  lemma RebuildWritesExactly(chapters: seq<Chapter>, r: Rebuild, c: Chapter)
    requires Breaks(r) != [] && r.config.Some?
    ensures var cs := Merge(chapters, r); forall i, j :: 0 <= i < j < |cs| ==> cs[i].startTime <= cs[j].startTime
    ensures var bs, topics, config := Breaks(r), Strip(chapters), r.config.value;
      c in Merge(chapters, r) <==>
        || (exists topic :: topic in topics && AsWritten(c, topic, bs))
        || (exists b :: b in bs && (|| BreakChapter(c, b, config)
                                    || (ResumeChapter(c, b, config) && ResumesAfter(b, topics, bs, r.duration))))
  {
    hide BreakChapter, ResumeChapter, Breaks, Strip, Additions, MarkAll, Resumes, ResumesAfter, AdEntry, ResumeEntry;
    hide AsWritten, Mark;
    var bs, topics, config := Breaks(r), Strip(chapters), r.config.value;
    var kept := MarkAll(topics, bs);
    var adds := Additions(bs, kept, r, config);
    SortByIsSorted(kept + adds, StartTime());
    SortByMembers(kept + adds, StartTime());
    StripIsTopics(chapters);
    AdditionsAre(bs, kept, r, config, c);
    forall b | b in bs ensures Resumes(b, kept, r) <==> ResumesAfter(b, topics, bs, r.duration) {
      ResumesIs(b, topics, bs, r);
    }
    forall b | b in bs
      ensures c == AdEntry(b, config) <==> BreakChapter(c, b, config)
      ensures c == ResumeEntry(b, config) <==> ResumeChapter(c, b, config)
    {
      EntriesAre(c, b, config);
    }
    TopicsAsWritten(topics, bs, c);
  }

  lemma TopicsAsWritten(topics: seq<Chapter>, bs: seq<Break>, c: Chapter)
    requires AllTopics(topics)
    ensures c in MarkAll(topics, bs) <==> exists topic :: topic in topics && AsWritten(c, topic, bs)
  {
    hide HiddenBy, Mark, MarkAll;
    MarkAllIs(topics, bs);
    var kept := MarkAll(topics, bs);
    forall i | 0 <= i < |topics| ensures AsWritten(kept[i], topics[i], bs) {
      MarkIs(topics[i], bs);
    }
    if topic :| topic in topics && AsWritten(c, topic, bs) {
      var i :| 0 <= i < |topics| && topics[i] == topic;
      assert kept[i] == c;
    }
    if c in kept {
      var i :| 0 <= i < |kept| && kept[i] == c;
      assert topics[i] in topics;
    }
  }
}
