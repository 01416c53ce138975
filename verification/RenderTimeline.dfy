/** Where in the output each cut's filler plays, and how long it lasts. */
module RenderTimeline {
  import opened Basics
  import opened AppliedCuts
  import opened AppliedCutsProofs
  import opened RenderPlan

  /**
   * How long the filler of a cut lasts: a beep as long as its span and no shorter than the clip, any other the clip.
   */
  ghost predicate FillerLasts(c: Cut, sound: Sound, x: real) {
    if c.beep then x == MaxReal(c.end - c.start, sound.clip) else x == if sound.enabled then sound.clip else 0.0
  }

  /** Seconds of output before time t of the episode, when the first n cuts lie before it. */
  ghost function OutputTime(cuts: seq<Cut>, n: nat, t: real, sound: Sound): real
    requires n <= |cuts|
  {
    t - CutTotal(cuts[..n]) + ReplacementTotal(cuts[..n], sound, AnyBeep(cuts))
  }

  /** Part k is the filler of cut i, playing for its length right where the cut was taken out. */
  ghost predicate FillsCut(parts: seq<Part>, cuts: seq<Cut>, i: nat, sound: Sound, k: nat)
    requires i < |cuts|
  {
    && k < |parts| && parts[k].Filler? && parts[k].clip == sound.clip
    && FillerLasts(cuts[i], sound, PartLength(parts[k]))
    && PartsLength(parts[..k]) == OutputTime(cuts, i, cuts[i].start, sound)
  }

  lemma FillerIs(c: Cut, sound: Sound, anyBeep: bool)
    requires c.beep ==> anyBeep
    ensures FillerLasts(c, sound, Replacement(c, sound, anyBeep))
  {
  }

  lemma {:induction false} LayoutIsPrefix(cuts: seq<Cut>, i: nat, n: nat, sound: Sound, anyBeep: bool)
    requires i <= n <= |cuts|
    ensures Layout(cuts, i, sound, anyBeep) <= Layout(cuts, n, sound, anyBeep)
  {
    hide PartsAt;
    if i < n {
      LayoutIsPrefix(cuts, i, n - 1, sound, anyBeep);
    }
  }

  /** Each cut with a filler has it in the output at the place of the cut. */
  lemma FillersSitAtCuts(cuts: seq<Cut>, total: real, sound: Sound, i: nat) returns (k: nat)
    requires Planned(cuts, total) && sound.clip > 0.0 && i < |cuts| && (cuts[i].beep || sound.enabled)
    ensures FillsCut(Parts(cuts, total, sound), cuts, i, sound, k)
  {
    hide Layout, PartsLength, Replacement, CutTotal, ReplacementTotal, AnyBeep, CutsInOrder, FillerLasts;
    var anyBeep, c := AnyBeep(cuts), cuts[i];
    AnyBeepIs(cuts, i);
    FillerIs(c, sound, anyBeep);
    var before, at := Layout(cuts, i, sound, anyBeep), Position(cuts, i);
    LayoutLength(cuts, i, total, sound, anyBeep);
    LayoutUnfolds(cuts, i + 1, sound, anyBeep);
    LayoutIsPrefix(cuts, i + 1, |cuts|, sound, anyBeep);
    LeadFits(cuts, i, total);
    FillerShows(c, sound, anyBeep);
    var lead := if c.start > at then [Content(at, c.start)] else [];
    var rep := Replacement(c, sound, anyBeep);
    var fill := [Filler(sound.clip, if c.beep && rep > sound.clip then Some(rep) else None)];
    assert PartsAt(c, at, sound, anyBeep) == lead + fill;
    k := |before| + |lead|;
    var parts := Parts(cuts, total, sound);
    assert Layout(cuts, i + 1, sound, anyBeep) <= parts;
    AfterLead(before, lead, fill, parts);
    LeadLength(before, at, c.start);
  }

  lemma AfterLead(before: seq<Part>, lead: seq<Part>, fill: seq<Part>, all: seq<Part>)
    requires before + (lead + fill) <= all && fill != []
    ensures var k := |before| + |lead|; k < |all| && all[..k] == before + lead && all[k] == fill[0]
  {
    var laid := before + (lead + fill);
    assert all[..|laid|] == laid;
  }

  lemma LayoutUnfolds(cuts: seq<Cut>, n: nat, sound: Sound, anyBeep: bool)
    requires 0 < n <= |cuts|
    ensures Layout(cuts, n, sound, anyBeep)
         == Layout(cuts, n - 1, sound, anyBeep) + PartsAt(cuts[n - 1], Position(cuts, n - 1), sound, anyBeep)
  {
    hide PartsAt;
  }

  lemma AnyBeepIs(cuts: seq<Cut>, i: nat)
    requires i < |cuts|
    ensures cuts[i].beep ==> AnyBeep(cuts)
  {
  }

  lemma LeadFits(cuts: seq<Cut>, i: nat, total: real)
    requires Planned(cuts, total) && i < |cuts|
    ensures Position(cuts, i) <= cuts[i].start < cuts[i].end
  {
    assert CutOk(cuts[i], total);
    assert i > 0 ==> cuts[i - 1].end <= cuts[i].start;
  }

  lemma FillerShows(c: Cut, sound: Sound, anyBeep: bool)
    requires sound.clip > 0.0 && (c.beep || sound.enabled) && (c.beep ==> anyBeep) && c.start < c.end
    ensures var rep := Replacement(c, sound, anyBeep);
      rep != 0.0 && PartLength(Filler(sound.clip, if c.beep && rep > sound.clip then Some(rep) else None)) == rep
  {
  }

  lemma LeadLength(before: seq<Part>, at: real, start: real)
    requires at <= start
    ensures PartsLength(before + (if start > at then [Content(at, start)] else []))
         == PartsLength(before) + (start - at)
  {
    if start > at {
      PartsLengthConcat(before, [Content(at, start)]);
      assert [Content(at, start)][..0] == [];
    } else {
      assert before + [] == before;
    }
  }

  ghost function FillerCount(parts: seq<Part>): nat {
    if parts == [] then 0 else FillerCount(parts[..|parts| - 1]) + (if parts[|parts| - 1].Filler? then 1 else 0)
  }

  ghost function FilledCuts(cuts: seq<Cut>, sound: Sound): nat {
    if cuts == [] then 0
    else
      FilledCuts(cuts[..|cuts| - 1], sound)
      + (if cuts[|cuts| - 1].beep || (sound.enabled && sound.clip != 0.0) then 1 else 0)
  }

  lemma {:induction false} FillerCountConcat(a: seq<Part>, b: seq<Part>)
    ensures FillerCount(a + b) == FillerCount(a) + FillerCount(b)
    decreases |b|
  {
    if b == [] {
      assert a + b == a;
    } else {
      FillerCountConcat(a, b[..|b| - 1]);
      assert (a + b)[..|a + b| - 1] == a + b[..|b| - 1];
    }
  }

  lemma FillersOfOne(c: Cut, at: real, sound: Sound, anyBeep: bool)
    requires sound.clip >= 0.0 && c.start < c.end && (c.beep ==> anyBeep)
    ensures FillerCount(PartsAt(c, at, sound, anyBeep))
         == if c.beep || (sound.enabled && sound.clip != 0.0) then 1 else 0
  {
    var rep := Replacement(c, sound, anyBeep);
    var lead := if c.start > at then [Content(at, c.start)] else [];
    var fill := if rep == 0.0 then []
                else [Filler(sound.clip, if c.beep && rep > sound.clip then Some(rep) else None)];
    FillerCountConcat(lead, fill);
    assert lead != [] ==> lead[..0] == [];
    assert fill != [] ==> fill[..0] == [];
  }

  lemma {:induction false} LayoutFillers(cuts: seq<Cut>, n: nat, total: real, sound: Sound, anyBeep: bool)
    requires n <= |cuts| && Planned(cuts, total) && sound.clip >= 0.0 && (AnyBeep(cuts) ==> anyBeep)
    ensures FillerCount(Layout(cuts, n, sound, anyBeep)) == FilledCuts(cuts[..n], sound)
  {
    hide PartsAt, FillerCount, AnyBeep, CutsInOrder;
    if n == 0 {
      NoFillers();
    } else {
      LayoutFillers(cuts, n - 1, total, sound, anyBeep);
      LayoutUnfolds(cuts, n, sound, anyBeep);
      AnyBeepIs(cuts, n - 1);
      assert CutOk(cuts[n - 1], total);
      FillersOfOne(cuts[n - 1], Position(cuts, n - 1), sound, anyBeep);
      var last := PartsAt(cuts[n - 1], Position(cuts, n - 1), sound, anyBeep);
      FillerCountConcat(Layout(cuts, n - 1, sound, anyBeep), last);
      assert cuts[..n][..n - 1] == cuts[..n - 1];
    }
  }

  lemma NoFillers()
    ensures FillerCount([]) == 0
  {
  }

  /** The output has no other fillers: as many as there are beeps, and removals while the sound is on. */
  lemma FillersAreCounted(cuts: seq<Cut>, total: real, sound: Sound)
    requires Planned(cuts, total) && sound.clip >= 0.0
    ensures FillerCount(Parts(cuts, total, sound)) == FilledCuts(cuts, sound)
  {
    hide Layout, AnyBeep, CutsInOrder;
    var n := |cuts|;
    LayoutFillers(cuts, n, total, sound, AnyBeep(cuts));
    assert cuts[..n] == cuts;
    var tail := Content(Position(cuts, n), total);
    FillerCountConcat(Layout(cuts, n, sound, AnyBeep(cuts)), [tail]);
    assert [tail][..0] == [];
  }

  /** No part is empty: content has length, and a filler is as long as the clip or longer. */
  ghost predicate HasLength(p: Part) { PartLength(p) > 0.0 }

  /** Every part of the output has length, whatever the cuts. */
  lemma PartsHaveLength(cuts: seq<Cut>, total: real, sound: Sound)
    requires sound.clip >= 0.0
    ensures forall p :: p in Parts(cuts, total, sound) ==> HasLength(p)
  {
    LayoutHasLength(cuts, |cuts|, sound);
  }

  lemma {:induction false} LayoutHasLength(cuts: seq<Cut>, n: nat, sound: Sound)
    requires n <= |cuts| && sound.clip >= 0.0
    ensures forall p :: p in Layout(cuts, n, sound, AnyBeep(cuts)) ==> HasLength(p)
  {
    if n > 0 {
      LayoutHasLength(cuts, n - 1, sound);
      LayoutUnfolds(cuts, n, sound, AnyBeep(cuts));
      AnyBeepIs(cuts, n - 1);
    }
  }
}
