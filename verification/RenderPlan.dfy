/** The renderer's concatenation: content between cuts, filler in place of them. */
module RenderPlan {
  import opened Basics
  import opened Spans
  import opened AppliedCuts
  import opened AppliedCutsProofs

  /** Replacement sound settings: whether 'remove' cuts get one, and how long the clip is. */
  datatype Sound = Sound(enabled: bool, clip: real)

  predicate AnyBeep(cuts: seq<Cut>) {
    exists i :: 0 <= i < |cuts| && cuts[i].beep
  }

  /** The filler length stamped on an applied cut. */
  function Replacement(c: Cut, sound: Sound, anyBeep: bool): real {
    var clip := if sound.enabled || anyBeep then sound.clip else 0.0;
    if c.beep then MaxReal(c.end - c.start, clip) else if sound.enabled then clip else 0.0
  }

  /** One concatenated part: episode audio, or the clip, padded with silence to a length when asked. */
  datatype Part = Content(from: real, to: real) | Filler(clip: real, padTo: Option<real>)

  function PartLength(p: Part): real {
    match p
    case Content(from, to) => to - from
    case Filler(clip, padTo) => if padTo.Some? then MaxReal(clip, padTo.value) else clip
  }

  function PartsLength(ps: seq<Part>): real {
    if ps == [] then 0.0 else PartsLength(ps[..|ps| - 1]) + PartLength(ps[|ps| - 1])
  }

  function ReplacementTotal(cuts: seq<Cut>, sound: Sound, anyBeep: bool): real {
    if cuts == [] then 0.0
    else ReplacementTotal(cuts[..|cuts| - 1], sound, anyBeep) + Replacement(cuts[|cuts| - 1], sound, anyBeep)
  }

  /** The closed form the drift check compares the output against. */
  function ExpectedDuration(cuts: seq<Cut>, total: real, sound: Sound): real {
    total - CutTotal(cuts) + ReplacementTotal(cuts, sound, AnyBeep(cuts))
  }

  ghost predicate Planned(cuts: seq<Cut>, total: real) {
    CutsInOrder(cuts) && forall i :: 0 <= i < |cuts| ==> CutOk(cuts[i], total)
  }

  ghost predicate Plays(parts: seq<Part>, t: real) {
    exists i :: 0 <= i < |parts| && parts[i].Content? && parts[i].from <= t < parts[i].to
  }

  ghost predicate PlaysInOrder(parts: seq<Part>) {
    forall i, j :: 0 <= i < j < |parts| && parts[i].Content? && parts[j].Content? ==> parts[i].to <= parts[j].from
  }

  lemma PlaysWithNext(parts: seq<Part>, p: Part, t: real)
    ensures Plays(parts + [p], t) <==> Plays(parts, t) || (p.Content? && p.from <= t < p.to)
  {
    if Plays(parts, t) {
      var i :| 0 <= i < |parts| && parts[i].Content? && parts[i].from <= t < parts[i].to;
      assert (parts + [p])[i] == parts[i];
    }
    if p.Content? && p.from <= t < p.to {
      assert (parts + [p])[|parts|] == p;
    }
  }

  lemma IsCutWithNext(cuts: seq<Cut>, n: nat, t: real)
    requires n < |cuts|
    ensures IsCut(cuts[..n + 1], t) <==> IsCut(cuts[..n], t) || cuts[n].Has(t)
  {
    if IsCut(cuts[..n], t) {
      var i :| 0 <= i < n && cuts[..n][i].Has(t);
      assert cuts[..n + 1][i].Has(t);
    }
    if cuts[n].Has(t) {
      assert cuts[..n + 1][n].Has(t);
    }
    if IsCut(cuts[..n + 1], t) {
      var i :| 0 <= i <= n && cuts[..n + 1][i].Has(t);
      if i < n {
        assert cuts[..n][i].Has(t);
      }
    }
  }

  /** What one cut lays down: the content before it and its filler, if it has one. */
  function PartsAt(c: Cut, current: real, sound: Sound, anyBeep: bool): seq<Part> {
    var rep := Replacement(c, sound, anyBeep);
    (if c.start > current then [Content(current, c.start)] else [])
    + (if rep == 0.0 then []
       else [Filler(sound.clip, if c.beep && rep > sound.clip then Some(rep) else None)])
  }

  lemma PartsLengthConcat(a: seq<Part>, b: seq<Part>)
    ensures PartsLength(a + b) == PartsLength(a) + PartsLength(b)
    decreases |b|
  {
    if b == [] {
      assert a + b == a;
    } else {
      PartsLengthConcat(a, b[..|b| - 1]);
      assert (a + b)[..|a + b| - 1] == a + b[..|b| - 1];
    }
  }

  /** Whatever the sound settings, a cut's parts add its lead-in and exactly the stamped filler. */
  lemma PartsAtLength(c: Cut, current: real, sound: Sound, anyBeep: bool)
    requires current <= c.start < c.end && sound.clip >= 0.0 && (c.beep ==> anyBeep)
    ensures PartsLength(PartsAt(c, current, sound, anyBeep))
         == (c.start - current) + Replacement(c, sound, anyBeep)
  {
    var lead := if c.start > current then [Content(current, c.start)] else [];
    var rep := Replacement(c, sound, anyBeep);
    var fill := if rep == 0.0 then []
                else [Filler(sound.clip, if c.beep && rep > sound.clip then Some(rep) else None)];
    PartsLengthConcat(lead, fill);
    assert lead != [] ==> lead[..0] == [];
    assert fill != [] ==> fill[..0] == [];
  }

  /** Where laying parts has got to after the first n cuts. */
  function Position(cuts: seq<Cut>, n: nat): real
    requires n <= |cuts|
  {
    if n == 0 then 0.0 else cuts[n - 1].end
  }

  function Layout(cuts: seq<Cut>, n: nat, sound: Sound, anyBeep: bool): seq<Part>
    requires n <= |cuts|
  {
    if n == 0 then []
    else Layout(cuts, n - 1, sound, anyBeep) + PartsAt(cuts[n - 1], Position(cuts, n - 1), sound, anyBeep)
  }

  /** Every part of the output, with the content after the last cut. */
  function Parts(cuts: seq<Cut>, total: real, sound: Sound): seq<Part> {
    var laid := Layout(cuts, |cuts|, sound, AnyBeep(cuts));
    var at := Position(cuts, |cuts|);
    if at < total then laid + [Content(at, total)] else laid
  }

  /** The filter-building loop; None is the error for a plan that leaves no audio at all. */
  method BuildParts(cuts: seq<Cut>, total: real, sound: Sound) returns (r: Option<seq<Part>>)
    requires cuts != []
    ensures r == if Parts(cuts, total, sound) == [] then None else Some(Parts(cuts, total, sound))
  {
    var parts: seq<Part> := [];
    var currentTime := 0.0;
    var anyBeep := AnyBeep(cuts);
    for i := 0 to |cuts|
      invariant currentTime == Position(cuts, i)
      invariant parts == Layout(cuts, i, sound, anyBeep)
    {
      var ad := cuts[i];
      var replacement := Replacement(ad, sound, anyBeep);
      ghost var before := parts;
      if ad.start > currentTime {
        parts := parts + [Content(currentTime, ad.start)];
      }
      if replacement == 0.0 {
        assert parts == before + PartsAt(ad, currentTime, sound, anyBeep);
        currentTime := ad.end;
        continue;
      }
      var padTo := if ad.beep && replacement > sound.clip then Some(replacement) else None;
      parts := parts + [Filler(sound.clip, padTo)];
      assert parts == before + PartsAt(ad, currentTime, sound, anyBeep);
      currentTime := ad.end;
    }
    if currentTime < total {
      parts := parts + [Content(currentTime, total)];
    }
    r := if parts == [] then None else Some(parts);
  }

  // ----- Duration -----

  lemma CutTotalWithLast(cuts: seq<Cut>)
    requires cuts != []
    ensures CutTotal(cuts) == CutTotal(cuts[..|cuts| - 1]) + (cuts[|cuts| - 1].end - cuts[|cuts| - 1].start)
  {
    var last := cuts[|cuts| - 1];
    CutTotalConcat(cuts[..|cuts| - 1], [last]);
    assert cuts == cuts[..|cuts| - 1] + [last] && [last][1..] == [];
  }

  lemma NothingLaid(sound: Sound, anyBeep: bool)
    ensures PartsLength([]) == CutTotal([]) == ReplacementTotal([], sound, anyBeep) == 0.0
  {
  }

  lemma TotalsGrow(cuts: seq<Cut>, n: nat, sound: Sound, anyBeep: bool)
    requires 0 < n <= |cuts|
    ensures CutTotal(cuts[..n]) == CutTotal(cuts[..n - 1]) + (cuts[n - 1].end - cuts[n - 1].start)
    ensures ReplacementTotal(cuts[..n], sound, anyBeep)
         == ReplacementTotal(cuts[..n - 1], sound, anyBeep) + Replacement(cuts[n - 1], sound, anyBeep)
  {
    hide Replacement, CutTotal;
    assert cuts[..n][..n - 1] == cuts[..n - 1];
    CutTotalWithLast(cuts[..n]);
  }

  lemma LayoutGrows(cuts: seq<Cut>, n: nat, total: real, sound: Sound, anyBeep: bool)
    requires 0 < n <= |cuts| && Planned(cuts, total) && sound.clip >= 0.0 && (AnyBeep(cuts) ==> anyBeep)
    ensures PartsLength(Layout(cuts, n, sound, anyBeep))
         == PartsLength(Layout(cuts, n - 1, sound, anyBeep)) + (cuts[n - 1].start - Position(cuts, n - 1))
            + Replacement(cuts[n - 1], sound, anyBeep)
  {
    hide PartsAt, Replacement, PartsLength;
    var c := cuts[n - 1];
    assert CutOk(c, total) && (c.beep ==> anyBeep);
    assert n > 1 ==> cuts[n - 2].end <= c.start;
    PartsLengthConcat(Layout(cuts, n - 1, sound, anyBeep), PartsAt(c, Position(cuts, n - 1), sound, anyBeep));
    PartsAtLength(c, Position(cuts, n - 1), sound, anyBeep);
  }

  lemma {:induction false} LayoutLength(cuts: seq<Cut>, n: nat, total: real, sound: Sound, anyBeep: bool)
    requires n <= |cuts| && Planned(cuts, total) && sound.clip >= 0.0 && (AnyBeep(cuts) ==> anyBeep)
    ensures PartsLength(Layout(cuts, n, sound, anyBeep))
         == Position(cuts, n) - CutTotal(cuts[..n]) + ReplacementTotal(cuts[..n], sound, anyBeep)
  {
    hide PartsAt, Replacement, PartsLength, CutTotal, ReplacementTotal, AnyBeep, CutsInOrder;
    if n == 0 {
      NothingLaid(sound, anyBeep);
      assert cuts[..0] == [];
    } else {
      LayoutLength(cuts, n - 1, total, sound, anyBeep);
      LayoutGrows(cuts, n, total, sound, anyBeep);
      TotalsGrow(cuts, n, sound, anyBeep);
    }
  }

  /** The output's length is the closed form, for every plan of ordered disjoint cuts. */
  lemma PartsHaveExpectedLength(cuts: seq<Cut>, total: real, sound: Sound)
    requires Planned(cuts, total) && total >= 0.0 && sound.clip >= 0.0
    ensures PartsLength(Parts(cuts, total, sound)) == ExpectedDuration(cuts, total, sound)
  {
    hide Layout, Replacement;
    LayoutLength(cuts, |cuts|, total, sound, AnyBeep(cuts));
    assert cuts[..|cuts|] == cuts;
    assert cuts != [] ==> CutOk(cuts[|cuts| - 1], total);
    var laid := Layout(cuts, |cuts|, sound, AnyBeep(cuts));
    var at := Position(cuts, |cuts|);
    if at < total {
      PartsLengthConcat(laid, [Content(at, total)]);
      assert [Content(at, total)][..0] == [];
    }
  }

  lemma {:induction false} BeepsPayForThemselves(cuts: seq<Cut>, sound: Sound, anyBeep: bool)
    requires forall i :: 0 <= i < |cuts| ==> cuts[i].beep
    ensures ReplacementTotal(cuts, sound, anyBeep) >= CutTotal(cuts)
  {
    if cuts != [] {
      BeepsPayForThemselves(cuts[..|cuts| - 1], sound, anyBeep);
      CutTotalWithLast(cuts);
    }
  }

  /** A plan of nothing but beeps never shortens the episode. */
  lemma AllBeepsNeverShorten(cuts: seq<Cut>, total: real, sound: Sound)
    requires Planned(cuts, total) && total >= 0.0 && sound.clip >= 0.0
    requires forall i :: 0 <= i < |cuts| ==> cuts[i].beep
    ensures PartsLength(Parts(cuts, total, sound)) >= total
  {
    PartsHaveExpectedLength(cuts, total, sound);
    BeepsPayForThemselves(cuts, sound, AnyBeep(cuts));
  }

  // ----- Content -----

  /** A cut's parts play the content before it, whatever its filler. */
  lemma PlaysPartsAt(laid: seq<Part>, c: Cut, current: real, sound: Sound, anyBeep: bool, t: real)
    ensures Plays(laid + PartsAt(c, current, sound, anyBeep), t) <==> Plays(laid, t) || current <= t < c.start
  {
    var lead := if c.start > current then laid + [Content(current, c.start)] else laid;
    var rep := Replacement(c, sound, anyBeep);
    var fill := Filler(sound.clip, if c.beep && rep > sound.clip then Some(rep) else None);
    assert laid + PartsAt(c, current, sound, anyBeep) == if rep == 0.0 then lead else lead + [fill];
    hide Plays, PartsAt;
    PlaysWithNext(laid, Content(current, c.start), t);
    PlaysWithNext(lead, fill, t);
  }

  lemma {:induction false} LayoutPlays(cuts: seq<Cut>, n: nat, total: real, sound: Sound, anyBeep: bool, t: real)
    requires n <= |cuts| && Planned(cuts, total)
    ensures Plays(Layout(cuts, n, sound, anyBeep), t) <==> 0.0 <= t < Position(cuts, n) && !IsCut(cuts[..n], t)
  {
    hide PartsAt;
    if n == 0 {
      assert !Plays([], t);
    }
    hide Plays;
    if n > 0 {
      LayoutPlays(cuts, n - 1, total, sound, anyBeep, t);
      var c, current, laid := cuts[n - 1], Position(cuts, n - 1), Layout(cuts, n - 1, sound, anyBeep);
      IsCutWithNext(cuts, n - 1, t);
      assert CutOk(c, total);
      assert n > 1 ==> cuts[n - 2].end <= c.start;
      PlaysPartsAt(laid, c, current, sound, anyBeep, t);
      CutBefore(cuts, n - 1, total, t);
    }
  }

  /** Earlier cuts all end by the current position. */
  lemma CutBefore(cuts: seq<Cut>, n: nat, total: real, t: real)
    requires n <= |cuts| && Planned(cuts, total)
    ensures IsCut(cuts[..n], t) ==> 0.0 <= t < Position(cuts, n)
  {
    if IsCut(cuts[..n], t) {
      var i :| 0 <= i < n && cuts[..n][i].Has(t);
      assert CutOk(cuts[i], total) && CutOk(cuts[n - 1], total);
      assert i < n - 1 ==> cuts[i].end <= cuts[n - 1].start;
    }
  }

  /** The output plays exactly the episode audio no cut covers. */
  lemma PartsPlayTheRest(cuts: seq<Cut>, total: real, sound: Sound, t: real)
    requires Planned(cuts, total) && total >= 0.0
    ensures Plays(Parts(cuts, total, sound), t) <==> 0.0 <= t < total && !IsCut(cuts, t)
  {
    var n := |cuts|;
    LayoutPlays(cuts, n, total, sound, AnyBeep(cuts), t);
    assert cuts[..n] == cuts;
    CutBefore(cuts, n, total, t);
    assert n > 0 ==> CutOk(cuts[n - 1], total);
    PlaysWithNext(Layout(cuts, n, sound, AnyBeep(cuts)), Content(Position(cuts, n), total), t);
  }

  /** No episode audio is played twice or out of order. */
  lemma {:induction false} LayoutPlaysInOrder(cuts: seq<Cut>, n: nat, total: real, sound: Sound, anyBeep: bool)
    requires n <= |cuts| && Planned(cuts, total)
    ensures PlaysInOrder(Layout(cuts, n, sound, anyBeep))
    ensures forall i :: 0 <= i < |Layout(cuts, n, sound, anyBeep)| && Layout(cuts, n, sound, anyBeep)[i].Content? ==>
      Layout(cuts, n, sound, anyBeep)[i].to <= Position(cuts, n)
  {
    if n > 0 {
      LayoutPlaysInOrder(cuts, n - 1, total, sound, anyBeep);
      assert CutOk(cuts[n - 1], total);
      assert n > 1 ==> cuts[n - 2].end <= cuts[n - 1].start;
    }
  }

  // ----- From request to output -----

  /** Planning and rendering together: requests whose kinds do not overlap render to the closed-form length. */
  lemma RenderedRequests(ads: seq<Segment>, total: real, soft: seq<Span>, hard: seq<Span>, sound: Sound)
    requires KindsApart(ads) && total >= 0.0 && sound.clip >= 0.0
    ensures var cuts := Applied(ads, total, soft, hard);
      && PartsLength(Parts(cuts, total, sound)) == ExpectedDuration(cuts, total, sound)
      && PlaysInOrder(Parts(cuts, total, sound))
    ensures forall t: real :: 0.0 <= t < total && Covers(hard, t) ==>
              Plays(Parts(Applied(ads, total, soft, hard), total, sound), t)
  {
    hide Applied, CutsInOrder;
    var cuts := Applied(ads, total, soft, hard);
    AppliedInOrder(ads, total, soft, hard);
    AppliedInRange(ads, total, soft, hard);
    assert Planned(cuts, total);
    PartsHaveExpectedLength(cuts, total, sound);
    LayoutPlaysInOrder(cuts, |cuts|, total, sound, AnyBeep(cuts));
    forall t: real | 0.0 <= t < total && Covers(hard, t) ensures Plays(Parts(cuts, total, sound), t) {
      if IsCut(cuts, t) {
        AppliedAvoidsKeptAudio(ads, total, soft, hard, t);
      }
      PartsPlayTheRest(cuts, total, sound, t);
    }
  }
}
