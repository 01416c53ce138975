/**
 * What the clamp does to a proposal: the cap, what each piece of evidence holds, and that nothing else moves an edge.
 */
module ClampEffects {
  import opened Basics
  import opened Spans
  import opened EdgeIndex
  import opened EdgeHolds
  import opened ReviewerClamp

  // ----- The cap -----

  /** r is p, moved no further than it takes to lie within cap of the original edge. */
  ghost predicate WithinCap(p: real, original: real, cap: real, r: real) {
    && original - cap <= r <= original + cap
    && (r > p ==> r == original - cap) && (r < p ==> r == original + cap)
  }

  /** The capped proposal is the proposal, or the original for an inverted one, with each edge within the cap. */
  lemma CappedIs(proposal: Span, original: Span, cap: real)
    requires cap >= 0.0
    ensures var p, c := if proposal.lo < proposal.hi then proposal else original, Capped(proposal, original, cap);
      WithinCap(p.lo, original.lo, cap, c.lo) && WithinCap(p.hi, original.hi, cap, c.hi)
    ensures original.lo < original.hi ==> Capped(proposal, original, cap).lo < Capped(proposal, original, cap).hi
  {
  }

  // ----- Members -----

  /** Member k keeps its whole extent on a merged ad. */
  ghost predicate KeepsMember(ad: Ad, k: nat) {
    ad.mergedDistinct && k < |ad.members| && ad.members[k].stage != Coarse
  }

  /** r is b widened just enough to hold every measured member. */
  ghost predicate WidenedToMembers(ad: Ad, b: Span, r: Span) {
    && r.lo <= b.lo && b.hi <= r.hi
    && (forall k: nat :: KeepsMember(ad, k) ==> r.lo <= ad.members[k].span.lo && ad.members[k].span.hi <= r.hi)
    && (r.lo == b.lo || exists k: nat :: KeepsMember(ad, k) && r.lo == ad.members[k].span.lo)
    && (r.hi == b.hi || exists k: nat :: KeepsMember(ad, k) && r.hi == ad.members[k].span.hi)
  }

  ghost predicate HardAt(members: seq<Member>, k: nat, s: Span) {
    k < |members| && members[k].stage != Coarse && members[k].span == s
  }

  lemma {:induction false} HardSpansAre(members: seq<Member>, s: Span)
    ensures s in HardSpans(members) <==> exists k: nat :: HardAt(members, k, s)
  {
    hide HardAt;
    if members == [] {
      NoneHard(s);
    } else {
      var n := |members| - 1;
      HardSpansAre(members[..n], s);
      forall k: nat ensures HardAt(members, k, s) <==> HardAt(members[..n], k, s) || (k == n && LastHard(members, s)) {
        HardAtLast(members, k, s);
      }
      assert LastHard(members, s) ==> HardAt(members, n, s);
    }
  }

  ghost predicate LastHard(members: seq<Member>, s: Span)
    requires members != []
  {
    members[|members| - 1].stage != Coarse && members[|members| - 1].span == s
  }

  lemma HardAtLast(members: seq<Member>, k: nat, s: Span)
    requires members != []
    ensures var n := |members| - 1;
      HardAt(members, k, s) <==> HardAt(members[..n], k, s) || (k == n && LastHard(members, s))
  {
  }

  lemma NoneHard(s: Span)
    ensures !exists k: nat :: HardAt([], k, s)
  {
  }

  lemma MemberFloorIs(ad: Ad, b: Span)
    ensures WidenedToMembers(ad, b, MemberFloor(ad, b))
  {
    hide HardSpans;
    var hard, r := HardSpans(ad.members), MemberFloor(ad, b);
    forall s
      ensures s in hard <==> exists k: nat :: HardAt(ad.members, k, s)
    {
      HardSpansAre(ad.members, s);
    }
    if ad.mergedDistinct {
      forall k: nat | KeepsMember(ad, k) ensures r.lo <= ad.members[k].span.lo && ad.members[k].span.hi <= r.hi {
        assert HardAt(ad.members, k, ad.members[k].span);
        assert ad.members[k].span in hard;
      }
      if r.lo != b.lo {
        var i :| 0 <= i < |hard| && r.lo == hard[i].lo;
        assert hard[i] in hard;
      }
      if r.hi != b.hi {
        var i :| 0 <= i < |hard| && r.hi == hard[i].hi;
        assert hard[i] in hard;
      }
    }
  }

  // ----- Wordless stretches -----

  /** g runs from the latest end of the units before unit k to the start of unit k. */
  ghost predicate PauseBefore(units: seq<Span>, k: nat, g: Span) {
    && 0 < k < |units| && g.hi == units[k].lo
    && (forall j :: 0 <= j < k ==> units[j].hi <= g.lo) && (exists j :: 0 <= j < k && units[j].hi == g.lo)
  }

  ghost predicate LatestEnd(units: seq<Span>, n: nat, x: real) {
    && n <= |units|
    && (forall j :: 0 <= j < n ==> units[j].hi <= x) && (exists j :: 0 <= j < n && units[j].hi == x)
  }

  lemma LatestEndNext(units: seq<Span>, n: nat, x: real)
    requires n < |units| && LatestEnd(units, n, x)
    ensures LatestEnd(units, n + 1, MaxReal(x, units[n].hi))
  {
  }

  lemma {:induction false} GapsAfterAre(units: seq<Span>, n: nat, covered: real, minS: real, g: Span)
    requires n <= |units| && LatestEnd(units, n, covered)
    ensures g in GapsAfter(units[n..], covered, minS)
      <==> (exists k :: n <= k < |units| && PauseBefore(units, k, g)) && g.hi - g.lo >= minS
    decreases |units| - n
  {
    if n < |units| {
      var next := MaxReal(covered, units[n].hi);
      LatestEndNext(units, n, covered);
      GapsAfterAre(units, n + 1, next, minS, g);
      assert units[n..][1..] == units[n + 1..] && units[n..][0] == units[n];
      assert PauseBefore(units, n, g) <==> g == Span(covered, units[n].lo);
    }
  }

  /** The gaps of a transcript, exactly. */
  lemma TranscriptGapsAre(units: seq<Span>, minS: real, g: Span)
    ensures g in TranscriptGaps(units, minS) <==> (exists k :: PauseBefore(units, k, g)) && g.hi - g.lo >= minS
  {
    if units != [] {
      assert LatestEnd(units, 1, units[0].hi);
      GapsAfterAre(units, 1, units[0].hi, minS, g);
    }
  }

  ghost predicate SomeSpeech(units: seq<Span>, original: Span) {
    exists i :: 0 <= i < |units| && Overlap(units[i], original)
  }

  /**
   * A stretch without words, and how much of it must lie in the span: 8 s between two units in their order, or any
   * before the first and after the last unit of a span with speech.
   */
  ghost predicate NoWords(units: seq<Span>, original: Span, stretch: Span, least: real) {
    || ((exists k :: PauseBefore(units, k, stretch)) && stretch.hi - stretch.lo >= EDGE_TOLERANCE
        && least == UNREVIEWABLE_GAP_SECONDS)
    || (SomeSpeech(units, original) && stretch == Span(original.lo, units[0].lo) && least == EDGE_TOLERANCE)
    || (SomeSpeech(units, original) && stretch.hi == original.hi && LatestEnd(units, |units|, stretch.lo)
        && least == EDGE_TOLERANCE)
  }

  ghost predicate LeastStart(ss: seq<Span>, x: real) {
    (forall i :: 0 <= i < |ss| ==> x <= ss[i].lo) && exists i :: 0 <= i < |ss| && ss[i].lo == x
  }

  ghost predicate GreatestEnd(ss: seq<Span>, x: real) {
    (forall i :: 0 <= i < |ss| ==> ss[i].hi <= x) && exists i :: 0 <= i < |ss| && ss[i].hi == x
  }

  /** The ad starts where its first measured region does, and was not snapped to a cue there. */
  ghost predicate MeasuredStart(ad: Ad, original: Span) {
    && ad.startSnap.None?
    && exists x :: LeastStart(ad.cores, x) && original.lo - EDGE_TOLERANCE <= x <= original.lo + EDGE_TOLERANCE
  }

  ghost predicate MeasuredEnd(ad: Ad, original: Span) {
    && ad.endSnap.None?
    && exists x :: GreatestEnd(ad.cores, x) && original.hi - EDGE_TOLERANCE <= x <= original.hi + EDGE_TOLERANCE
  }

  lemma MeasuredIs(ad: Ad, original: Span)
    ensures StartMeasured(ad, original) <==> MeasuredStart(ad, original)
    ensures EndMeasured(ad, original) <==> MeasuredEnd(ad, original)
  {
    if ad.cores != [] {
      assert LeastStart(ad.cores, LeastLo(ad.cores)) && GreatestEnd(ad.cores, GreatestHi(ad.cores));
    }
  }

  /** s is the part of the stretch in the span, long enough to hold an edge; at a measured edge any length is. */
  ghost predicate HoldsEdge(ad: Ad, original: Span, stretch: Span, least: real, s: Span) {
    && s == Span(MaxReal(stretch.lo, original.lo), MinReal(stretch.hi, original.hi))
    && (|| s.hi - s.lo >= least
        || ((|| (MeasuredStart(ad, original) && s.lo == original.lo)
             || (MeasuredEnd(ad, original) && s.hi == original.hi))
            && s.hi - s.lo >= EDGE_TOLERANCE))
  }

  lemma InsideIs(ad: Ad, original: Span, stretch: Span, least: real, s: Span)
    requires least >= EDGE_TOLERANCE
    ensures s in StretchInside(ad, original, stretch, least) <==> HoldsEdge(ad, original, stretch, least, s)
  {
    MeasuredIs(ad, original);
    hide StartMeasured, EndMeasured, MeasuredStart, MeasuredEnd;
  }

  lemma {:induction false} StretchesInsideAre(ad: Ad, original: Span, stretches: seq<Span>, least: real, s: Span)
    requires least >= EDGE_TOLERANCE
    ensures s in StretchesInside(ad, original, stretches, least)
      <==> exists g :: g in stretches && HoldsEdge(ad, original, g, least, s)
  {
    hide StretchInside, HoldsEdge;
    if stretches != [] {
      var n := |stretches| - 1;
      StretchesInsideAre(ad, original, stretches[..n], least, s);
      assert stretches == stretches[..n] + [stretches[n]];
      InsideIs(ad, original, stretches[n], least, s);
    }
  }

  lemma {:induction false} LastPrefixMax(units: seq<Span>)
    requires units != []
    ensures LatestEnd(units, |units|, PrefixMax(His(units))[|units| - 1])
  {
    var n := |units| - 1;
    var init, his := units[..n], His(units);
    assert his[..n] == His(init);
    if n > 0 {
      LastPrefixMax(init);
      var x := PrefixMax(His(init))[n - 1];
      assert forall j :: 0 <= j < n ==> units[j] == init[j];
      assert LatestEnd(units, n, x);
      LatestEndNext(units, n, x);
    } else {
      assert PrefixMax(his[..0]) == [];
    }
  }

  lemma LatestEndsAgree(units: seq<Span>, n: nat, x: real, y: real)
    requires LatestEnd(units, n, x) && LatestEnd(units, n, y)
    ensures x == y
  {
  }

  /** The wordless stretches that hold an edge, exactly. */
  lemma WordlessIs(tr: Transcript, original: Span, ad: Ad, s: Span)
    ensures var units := BuildIndex(tr.units, tr.words).units;
      s in Wordless(tr, original, ad)
      <==> exists stretch, least :: NoWords(units, original, stretch, least)
                                       && HoldsEdge(ad, original, stretch, least, s)
  {
    var ix := BuildIndex(tr.units, tr.words);
    hide BuildIndex, StretchesInside, TranscriptGaps, HoldsEdge, PrefixMax, PauseBefore, StretchInside;
    var units, gaps := ix.units, TranscriptGaps(ix.units, EDGE_TOLERANCE);
    forall g ensures g in gaps <==> (exists k :: PauseBefore(units, k, g)) && g.hi - g.lo >= EDGE_TOLERANCE {
      TranscriptGapsAre(units, EDGE_TOLERANCE, g);
    }
    StretchesInsideAre(ad, original, gaps, UNREVIEWABLE_GAP_SECONDS, s);
    if SomeSpeech(units, original) {
      WordlessAtEnds(ix, original, ad, s);
    }
    WordlessParts(tr, original, ad, s);
    if g :| g in gaps && HoldsEdge(ad, original, g, UNREVIEWABLE_GAP_SECONDS, s) {
      assert NoWords(units, original, g, UNREVIEWABLE_GAP_SECONDS);
    }
  }

  /** The two stretches at the ends of the speech, with the last unit's end as the index has it. */
  lemma WordlessAtEnds(ix: Index, original: Span, ad: Ad, s: Span)
    requires Indexed(ix) && SomeSpeech(ix.units, original)
    ensures ix.units != [] && |ix.maxHis| == |ix.units|
    ensures var before, after := Span(original.lo, ix.units[0].lo), Span(ix.maxHis[|ix.maxHis| - 1], original.hi);
      && (s in StretchInside(ad, original, before, EDGE_TOLERANCE)
         <==> HoldsEdge(ad, original, before, EDGE_TOLERANCE, s))
      && (s in StretchInside(ad, original, after, EDGE_TOLERANCE)
         <==> HoldsEdge(ad, original, after, EDGE_TOLERANCE, s))
      && NoWords(ix.units, original, before, EDGE_TOLERANCE) && NoWords(ix.units, original, after, EDGE_TOLERANCE)
      && forall x :: LatestEnd(ix.units, |ix.units|, x) ==> x == after.lo
  {
    hide StretchInside, HoldsEdge;
    LastPrefixMax(ix.units);
    InsideIs(ad, original, Span(original.lo, ix.units[0].lo), EDGE_TOLERANCE, s);
    InsideIs(ad, original, Span(ix.maxHis[|ix.maxHis| - 1], original.hi), EDGE_TOLERANCE, s);
  }

  lemma WordlessParts(tr: Transcript, original: Span, ad: Ad, s: Span)
    ensures var ix := BuildIndex(tr.units, tr.words);
      var gaps := StretchesInside(ad, original, TranscriptGaps(ix.units, EDGE_TOLERANCE), UNREVIEWABLE_GAP_SECONDS);
      s in Wordless(tr, original, ad) <==>
        || s in gaps
        || (SomeSpeech(ix.units, original)
            && (|| s in StretchInside(ad, original, Span(original.lo, ix.units[0].lo), EDGE_TOLERANCE)
                || s in StretchInside(ad, original, Span(ix.maxHis[|ix.maxHis| - 1], original.hi), EDGE_TOLERANCE)))
  {
    hide BuildIndex, StretchesInside, TranscriptGaps, StretchInside;
  }

  // ----- Cues and silence -----

  ghost predicate CueHoldsStart(cue: Cue, original: Span, l: Limit) {
    && cue.startRole && original.lo - EDGE_TOLERANCE <= cue.span.lo < original.hi
    && l == Limit(cue.span.lo, MaxReal(cue.span.lo - SNAP_GAP_SECONDS, original.lo))
  }

  ghost predicate CueHoldsEnd(cue: Cue, original: Span, l: Limit) {
    && cue.endRole && original.lo < cue.span.hi <= original.hi + EDGE_TOLERANCE
    && l == Limit(cue.span.hi, MinReal(cue.span.hi + SNAP_GAP_SECONDS, original.hi))
  }

  lemma {:induction false} CueLimitsAre(cues: seq<Cue>, original: Span, l: Limit)
    ensures l in CueStartLimits(cues, original) <==> exists c :: c in cues && CueHoldsStart(c, original, l)
    ensures l in CueEndLimits(cues, original) <==> exists c :: c in cues && CueHoldsEnd(c, original, l)
  {
    if cues != [] {
      var n := |cues| - 1;
      CueLimitsAre(cues[..n], original, l);
      assert cues == cues[..n] + [cues[n]];
      assert l in CueStartLimits(cues, original) <==>
        l in CueStartLimits(cues[..n], original) || CueHoldsStart(cues[n], original, l);
      assert l in CueEndLimits(cues, original) <==>
        l in CueEndLimits(cues[..n], original) || CueHoldsEnd(cues[n], original, l);
    }
  }

  /** Where an edge snapped to a cue is held: just outside a cue cut with the ad, just past one that stays. */
  ghost predicate SnapHoldsStart(snap: CueSnap, original: Span, l: Limit) {
    && (snap.removeWithAd ==> snap.cueStart.Some? && l.edge == snap.cueStart.value - SNAP_GAP_SECONDS)
    && (!snap.removeWithAd ==> snap.cueEnd.Some? && l.edge == snap.cueEnd.value + SNAP_GAP_SECONDS)
    && original.lo - EDGE_TOLERANCE <= l.edge < original.hi && l.floor == MaxReal(l.edge, original.lo)
  }

  ghost predicate SnapHoldsEnd(snap: CueSnap, original: Span, l: Limit) {
    && (snap.removeWithAd ==> snap.cueEnd.Some? && l.edge == snap.cueEnd.value + SNAP_GAP_SECONDS)
    && (!snap.removeWithAd ==> snap.cueStart.Some? && l.edge == snap.cueStart.value - SNAP_GAP_SECONDS)
    && original.lo < l.edge <= original.hi + EDGE_TOLERANCE && l.floor == MinReal(l.edge, original.hi)
  }

  lemma SnapLimitsAre(snap: Option<CueSnap>, original: Span, l: Limit)
    ensures l in SnapStartLimit(snap, original) <==> snap.Some? && SnapHoldsStart(snap.value, original, l)
    ensures l in SnapEndLimit(snap, original) <==> snap.Some? && SnapHoldsEnd(snap.value, original, l)
  {
  }

  ghost predicate SilenceHoldsStart(s: Span, original: Span, l: Limit) {
    s.lo <= original.lo + EDGE_TOLERANCE && l == Limit(s.lo, MinReal(s.lo, original.lo))
  }

  ghost predicate SilenceHoldsEnd(s: Span, original: Span, l: Limit) {
    s.hi >= original.hi - EDGE_TOLERANCE && l == Limit(s.hi, MaxReal(s.hi, original.hi))
  }

  lemma {:induction false} SilenceLimitsAre(silent: seq<Span>, original: Span, l: Limit)
    ensures l in SilenceStarts(silent, original) <==> exists s :: s in silent && SilenceHoldsStart(s, original, l)
    ensures l in SilenceEnds(silent, original) <==> exists s :: s in silent && SilenceHoldsEnd(s, original, l)
  {
    if silent != [] {
      var n := |silent| - 1;
      SilenceLimitsAre(silent[..n], original, l);
      assert silent == silent[..n] + [silent[n]];
      assert l in SilenceStarts(silent, original) <==>
        l in SilenceStarts(silent[..n], original) || SilenceHoldsStart(silent[n], original, l);
      assert l in SilenceEnds(silent, original) <==>
        l in SilenceEnds(silent[..n], original) || SilenceHoldsEnd(silent[n], original, l);
    }
  }

  // ----- Measured regions -----

  /** Probe j lies in region i and the start has passed it. */
  ghost predicate StartEntered(ad: Ad, value: real, i: nat, j: nat) {
    && i < |ad.cores| && j < |ad.probes| && ad.probes[j].lo < value
    && ad.cores[i].lo <= ad.probes[j].lo && ad.probes[j].hi <= ad.cores[i].hi
  }

  ghost predicate EndEntered(ad: Ad, value: real, i: nat, j: nat) {
    && i < |ad.cores| && j < |ad.probes| && ad.probes[j].hi > value
    && ad.cores[i].lo <= ad.probes[j].lo && ad.probes[j].hi <= ad.cores[i].hi
  }

  lemma {:induction false} EnteredIs(cores: seq<Span>, probe: Span, s: Span)
    ensures s in Entered(cores, probe)
      <==> exists i :: 0 <= i < |cores| && cores[i].lo <= probe.lo && probe.hi <= cores[i].hi && s == cores[i]
  {
    if cores != [] {
      var n := |cores| - 1;
      EnteredIs(cores[..n], probe, s);
      var holds := cores[n].lo <= probe.lo && probe.hi <= cores[n].hi && s == cores[n];
      assert s in Entered(cores, probe) <==> s in Entered(cores[..n], probe) || holds;
      if i :| 0 <= i < |cores| && cores[i].lo <= probe.lo && probe.hi <= cores[i].hi && s == cores[i] {
        assert i < n ==> cores[..n][i] == cores[i];
      }
    }
  }

  ghost predicate Passed(atEnd: bool, value: real, p: Span) { if atEnd then p.hi > value else p.lo < value }

  ghost predicate EnteredBy(ad: Ad, atEnd: bool, value: real, probes: seq<Span>, i: nat, j: nat) {
    && i < |ad.cores| && j < |probes| && Passed(atEnd, value, probes[j])
    && ad.cores[i].lo <= probes[j].lo && probes[j].hi <= ad.cores[i].hi
  }

  lemma {:induction false} EnteredAtIs(ad: Ad, atEnd: bool, value: real, probes: seq<Span>, s: Span)
    ensures s in EnteredAt(ad, atEnd, value, probes)
      <==> exists i: nat, j: nat :: EnteredBy(ad, atEnd, value, probes, i, j) && s == ad.cores[i]
  {
    hide Entered;
    if probes != [] {
      var n := |probes| - 1;
      EnteredAtIs(ad, atEnd, value, probes[..n], s);
      EnteredIs(ad.cores, probes[n], s);
      assert s in EnteredAt(ad, atEnd, value, probes) <==>
        || s in EnteredAt(ad, atEnd, value, probes[..n])
        || (Passed(atEnd, value, probes[n]) && s in Entered(ad.cores, probes[n]));
      if i: nat, j: nat :| EnteredBy(ad, atEnd, value, probes, i, j) && s == ad.cores[i] {
        if j < n {
          assert EnteredBy(ad, atEnd, value, probes[..n], i, j);
        }
      }
      if i: nat, j: nat :| EnteredBy(ad, atEnd, value, probes[..n], i, j) && s == ad.cores[i] {
        assert EnteredBy(ad, atEnd, value, probes, i, j);
      }
      if i :| 0 <= i < |ad.cores| && ad.cores[i].lo <= probes[n].lo && probes[n].hi <= ad.cores[i].hi &&
              s == ad.cores[i] {
        assert Passed(atEnd, value, probes[n]) ==> EnteredBy(ad, atEnd, value, probes, i, n);
      }
    }
  }

  /** The part of the span s in the bounds starts before the edge and reaches past its own start. */
  ghost predicate ReachesBefore(s: Span, value: real, bounds: Span) {
    MaxReal(s.lo, bounds.lo) < MinReal(MinReal(s.hi, bounds.hi), value)
  }

  ghost predicate ReachesPast(s: Span, value: real, bounds: Span) {
    MaxReal(MaxReal(s.lo, bounds.lo), value) < MinReal(s.hi, bounds.hi)
  }

  /** r is the start, moved out just enough to leave none of the spans crossed. */
  ghost predicate LeavesStarts(spans: seq<Span>, value: real, bounds: Span, r: real) {
    && r <= value
    && (forall s :: s in spans && ReachesBefore(s, value, bounds) ==> r <= MaxReal(s.lo, bounds.lo))
    && (r == value || exists s :: s in spans && ReachesBefore(s, value, bounds) && r == MaxReal(s.lo, bounds.lo))
  }

  ghost predicate LeavesEnds(spans: seq<Span>, value: real, bounds: Span, r: real) {
    && r >= value
    && (forall s :: s in spans && ReachesPast(s, value, bounds) ==> r >= MinReal(s.hi, bounds.hi))
    && (r == value || exists s :: s in spans && ReachesPast(s, value, bounds) && r == MinReal(s.hi, bounds.hi))
  }

  lemma {:induction false} StartFloorIs(spans: seq<Span>, value: real, bounds: Span)
    ensures LeavesStarts(spans, value, bounds, StartFloor(spans, value, bounds))
  {
    if spans != [] {
      var n := |spans| - 1;
      StartFloorIs(spans[..n], value, bounds);
      assert spans == spans[..n] + [spans[n]];
    }
  }

  lemma {:induction false} EndFloorIs(spans: seq<Span>, value: real, bounds: Span)
    ensures LeavesEnds(spans, value, bounds, EndFloor(spans, value, bounds))
  {
    if spans != [] {
      var n := |spans| - 1;
      EndFloorIs(spans[..n], value, bounds);
      assert spans == spans[..n] + [spans[n]];
    }
  }

  /** What an ad's regions make of a start: outside them, on a pause inside them, or at the word over their edge. */
  ghost predicate RegionsMoveStart(ad: Ad, tr: Transcript, start: real, original: Span, r: real) {
    if ad.cores == [] then r == start
    else if StartOnPause(tr.units, tr.words, start, original.lo) then
      LeavesStarts(ad.independent + EnteredAt(ad, false, start, ad.probes), start, original, r)
    else
      exists least :: LeastStart(ad.cores, least) && StopsAtRegion(ad, tr, start, MinReal(start, least), r)
  }

  /** r is the word that caps the floor, or the floor itself where no word does. */
  ghost predicate StopsAtRegion(ad: Ad, tr: Transcript, start: real, floor: real, r: real) {
    if exists c, u :: StartCap(ad, tr, start, floor, u, c) then exists u :: StartCap(ad, tr, start, floor, u, r)
    else r == floor
  }

  ghost predicate StartCap(ad: Ad, tr: Transcript, start: real, floor: real, u: Span, c: real) {
    CapFrom(Negated(tr.units), Negated(tr.words), Negated(ad.independent), -start, -floor, u, -c)
  }

  ghost predicate RegionsMoveEnd(ad: Ad, tr: Transcript, end: real, original: Span, r: real) {
    if ad.cores == [] then r == end
    else if EndOnPause(tr.units, tr.words, end, original.hi) then
      LeavesEnds(ad.independent + EnteredAt(ad, true, end, ad.probes), end, original, r)
    else
      exists greatest :: GreatestEnd(ad.cores, greatest) && EndStopsAtRegion(ad, tr, end, MaxReal(end, greatest), r)
  }

  ghost predicate EndStopsAtRegion(ad: Ad, tr: Transcript, end: real, floor: real, r: real) {
    if exists c, u :: CapFrom(tr.units, tr.words, ad.independent, end, floor, u, c)
    then exists u :: CapFrom(tr.units, tr.words, ad.independent, end, floor, u, r)
    else r == floor
  }

  lemma DaiEndIs(ad: Ad, tr: Transcript, b: Span, original: Span)
    ensures RegionsMoveEnd(ad, tr, b.hi, original, DaiEnd(ad, tr, b, original))
  {
    hide EndEdgeSupported, EndCappedFloor, BuildIndex, EnteredAt, EndOnPause, CapFrom, EndFloor;
    if ad.cores != [] {
      EndEdgeAgreesWithBruteForce(tr.units, tr.words, b.hi, original.hi);
      EndFloorIs(ad.independent + EnteredAt(ad, true, b.hi, ad.probes), b.hi, original);
      assert GreatestEnd(ad.cores, GreatestHi(ad.cores));
      var floor := MaxReal(b.hi, GreatestHi(ad.cores));
      CapsAgree(tr.units, tr.words, ad.independent, b.hi, floor);
    }
  }

  /** The capped floor over all results at once. */
  lemma CapsAgree(units: seq<Span>, words: seq<Span>, independent: seq<Span>, proposed: real, floor: real)
    ensures var c := EndCappedFloor(BuildIndex(units, words), independent, proposed, floor);
      && (c.Some? ==> exists u :: CapFrom(units, words, independent, proposed, floor, u, c.value))
      && (c.None? ==> !exists x, u :: CapFrom(units, words, independent, proposed, floor, u, x))
  {
    hide EndCappedFloor, BuildIndex, CapFrom;
    var c := EndCappedFloor(BuildIndex(units, words), independent, proposed, floor);
    forall x ensures c == Some(x) <==> exists u :: CapFrom(units, words, independent, proposed, floor, u, x) {
      CappedFloorAgreesWithBruteForce(units, words, independent, proposed, floor, x);
    }
    if x, u :| CapFrom(units, words, independent, proposed, floor, u, x) {
      assert c == Some(x);
    }
  }

  lemma DaiStartIs(ad: Ad, tr: Transcript, b: Span, original: Span)
    ensures RegionsMoveStart(ad, tr, b.lo, original, DaiStart(ad, tr, b, original))
  {
    hide EndEdgeSupported, EndCappedFloor, BuildIndex, EnteredAt, StartOnPause, CapFrom, StartFloor;
    if ad.cores != [] {
      var units, words, others := Negated(tr.units), Negated(tr.words), Negated(ad.independent);
      StartEdgeAgreesWithBruteForce(tr.units, tr.words, b.lo, original.lo);
      StartFloorIs(ad.independent + EnteredAt(ad, false, b.lo, ad.probes), b.lo, original);
      assert LeastStart(ad.cores, LeastLo(ad.cores));
      var floor := MinReal(b.lo, LeastLo(ad.cores));
      CapsAgree(units, words, others, -b.lo, -floor);
      var c := EndCappedFloor(BuildIndex(units, words), others, -b.lo, -floor);
      if c.Some? {
        var u :| CapFrom(units, words, others, -b.lo, -floor, u, c.value);
        assert StartCap(ad, tr, b.lo, floor, u, -c.value);
      }
    }
  }

  // ----- Clipping -----

  /** r is the widened start, moved in just enough to leave kept audio before the original start. */
  ghost predicate ClippedStart(start: real, original: real, barriers: seq<Span>, r: real) {
    && start <= r
    && (forall b :: b in barriers && b.lo < original ==> MinReal(b.hi, original) <= r)
    && (r == start || exists b :: b in barriers && b.lo < original && r == MinReal(b.hi, original))
  }

  ghost predicate ClippedEnd(end: real, original: real, barriers: seq<Span>, r: real) {
    && r <= end
    && (forall b :: b in barriers && b.hi > original ==> r <= MaxReal(b.lo, original))
    && (r == end || exists b :: b in barriers && b.hi > original && r == MaxReal(b.lo, original))
  }

  lemma {:induction false} ClipsAre(start: real, end: real, original: Span, barriers: seq<Span>)
    ensures ClippedStart(start, original.lo, barriers, ClipStart(start, original.lo, barriers))
    ensures ClippedEnd(end, original.hi, barriers, ClipEnd(end, original.hi, barriers))
  {
    if barriers != [] {
      var n := |barriers| - 1;
      ClipsAre(start, end, original, barriers[..n]);
      assert barriers == barriers[..n] + [barriers[n]];
    }
  }

  // ----- What one list of limits does -----

  /** Inside the original edge, r is no further in than the limit, or than a barrier between the limit and the start. */
  ghost predicate HeldBack(r: real, start: real, l: Limit, barriers: seq<Span>, original: real) {
    || MaxReal(r, original) <= MaxReal(l.edge, original)
    || exists b :: b in barriers && l.edge < b.hi && b.lo < MaxReal(start, original)
                   && MaxReal(r, original) <= MaxReal(b.hi, original)
  }

  ghost predicate HeldUp(r: real, end: real, l: Limit, barriers: seq<Span>, original: real) {
    || MinReal(l.edge, original) <= MinReal(r, original)
    || exists b :: b in barriers && b.lo < l.edge && MinReal(end, original) < b.hi
                   && MinReal(b.lo, original) <= MinReal(r, original)
  }

  lemma OneHoldReaches(start: real, l: Limit, barriers: seq<Span>, original: real)
    requires l.floor <= MaxReal(l.edge, original)
    ensures HeldBack(HoldStart(start, l, barriers), start, l, barriers, original)
    ensures MaxReal(HoldStart(start, l, barriers), original) <= MaxReal(start, original)
  {
    if start > l.edge {
      StartStopIs(start, l.edge, l.floor, barriers);
      var r := HoldStart(start, l, barriers);
      if r != l.floor {
        var i :| 0 <= i < |barriers| && InTheWay(barriers[i], start, l.edge) && r == MinReal(barriers[i].hi, start);
        assert barriers[i] in barriers;
      }
    }
  }

  lemma BackStays(r: real, s: real, start: real, was: real, l: Limit, barriers: seq<Span>, original: real)
    requires HeldBack(s, start, l, barriers, original)
    requires MaxReal(r, original) <= MaxReal(s, original) && MaxReal(start, original) <= MaxReal(was, original)
    ensures HeldBack(r, was, l, barriers, original)
  {
    if b :| b in barriers && l.edge < b.hi && b.lo < MaxReal(start, original)
            && MaxReal(s, original) <= MaxReal(b.hi, original) {
      assert MaxReal(r, original) <= MaxReal(b.hi, original);
    }
  }

  lemma UpStays(r: real, s: real, end: real, was: real, l: Limit, barriers: seq<Span>, original: real)
    requires HeldUp(s, end, l, barriers, original)
    requires MinReal(s, original) <= MinReal(r, original) && MinReal(was, original) <= MinReal(end, original)
    ensures HeldUp(r, was, l, barriers, original)
  {
    if b :| b in barriers && b.lo < l.edge && MinReal(end, original) < b.hi
            && MinReal(b.lo, original) <= MinReal(s, original) {
      assert MinReal(b.lo, original) <= MinReal(r, original);
    }
  }

  /** Every limit of a list holds the start, whatever the others do. */
  lemma {:induction false} HoldsReach(start: real, limits: seq<Limit>, barriers: seq<Span>, original: real, l: Limit)
    requires forall i :: 0 <= i < |limits| ==> limits[i].floor <= MaxReal(limits[i].edge, original)
    requires l in limits
    ensures HeldBack(HoldStarts(start, limits, barriers), start, l, barriers, original)
  {
    hide HoldStart, HeldBack;
    var n := |limits| - 1;
    var init, last := limits[..n], limits[n];
    assert limits == init + [last];
    var s := HoldStarts(start, init, barriers);
    HoldsKeepInside(start, init, barriers, original);
    OneHoldReaches(s, last, barriers, original);
    if l == last {
      BackStays(HoldStart(s, last, barriers), HoldStart(s, last, barriers), s, start, l, barriers, original);
    } else {
      HoldsReach(start, init, barriers, original, l);
      BackStays(HoldStart(s, last, barriers), s, start, start, l, barriers, original);
    }
  }

  lemma HeldUpMirrors(r: real, end: real, l: Limit, barriers: seq<Span>, original: real)
    requires HeldBack(-r, -end, NegateLimit(l), Negated(barriers), -original)
    ensures HeldUp(r, end, l, barriers, original)
  {
    if b :| b in Negated(barriers) && -l.edge < b.hi && b.lo < MaxReal(-end, -original)
            && MaxReal(-r, -original) <= MaxReal(b.hi, -original) {
      NegatedMembers(barriers, Negate(b));
      assert Negate(Negate(b)) == b;
    }
  }

  lemma EndHoldsReach(end: real, limits: seq<Limit>, barriers: seq<Span>, original: real, l: Limit)
    requires forall i :: 0 <= i < |limits| ==> limits[i].floor >= MinReal(limits[i].edge, original)
    requires l in limits
    ensures HeldUp(HoldEnds(end, limits, barriers), end, l, barriers, original)
  {
    hide HoldStarts, HoldEnds, HeldBack, HeldUp, Negated;
    HoldEndsMirror(end, limits, barriers);
    var i :| 0 <= i < |limits| && limits[i] == l;
    assert NegateLimits(limits)[i] == NegateLimit(l);
    HoldsReach(-end, NegateLimits(limits), Negated(barriers), -original, NegateLimit(l));
    HeldUpMirrors(HoldEnds(end, limits, barriers), end, l, barriers, original);
  }

  /** A start no limit lies before stays. */
  lemma {:induction false} HoldsStay(start: real, limits: seq<Limit>, barriers: seq<Span>)
    requires forall l :: l in limits ==> start <= l.edge
    ensures HoldStarts(start, limits, barriers) == start
  {
    if limits != [] {
      var n := |limits| - 1;
      assert limits == limits[..n] + [limits[n]];
      HoldsStay(start, limits[..n], barriers);
    }
  }

  lemma {:induction false} EndHoldsStay(end: real, limits: seq<Limit>, barriers: seq<Span>)
    requires forall l :: l in limits ==> l.edge <= end
    ensures HoldEnds(end, limits, barriers) == end
  {
    if limits != [] {
      var n := |limits| - 1;
      assert limits == limits[..n] + [limits[n]];
      EndHoldsStay(end, limits[..n], barriers);
    }
  }

  // ----- What each piece of evidence holds -----

  /** The given of one clamp. */
  datatype Setting = Setting(ad: Ad, original: Span, tr: Transcript, cues: seq<Cue>, barriers: seq<Span>)

  function Clamped(c: Setting, proposal: Span, cap: real): Span {
    ClampBounds(c.ad, proposal, c.original, cap, c.tr, c.cues, c.barriers)
  }

  function CueStarts(c: Setting): seq<Limit> {
    SnapStartLimit(c.ad.startSnap, c.original) + CueStartLimits(c.cues, c.original)
  }

  function CueEnds(c: Setting): seq<Limit> {
    SnapEndLimit(c.ad.endSnap, c.original) + CueEndLimits(c.cues, c.original)
  }

  /** The bounds after the members' floor, the gap holds, the cue holds, the regions, and the clip. */
  datatype Stages = Stages(floored: Span, gapHeld: Span, cueHeld: Span, regions: Span, clipped: Span, held: Span)

  function StagesOf(c: Setting, proposal: Span, cap: real): Stages {
    var floored := MemberFloor(c.ad, Capped(proposal, c.original, cap));
    var gapHeld := GapHeld(c.tr, c.ad, floored, c.original, c.barriers);
    var cueHeld := CueHeld(c.ad, c.cues, gapHeld, c.original, c.barriers);
    var regions := DaiFloored(c.ad, c.tr, cueHeld, c.original);
    var clipped := Clipped(regions, c.original, c.barriers);
    Stages(floored, gapHeld, cueHeld, regions, clipped, SilenceHeld(c.ad, clipped, c.original, c.barriers))
  }

  lemma ClampedIs(c: Setting, proposal: Span, cap: real)
    ensures var held := StagesOf(c, proposal, cap).held;
      Clamped(c, proposal, cap) == if held.hi <= held.lo then c.original else held
  {
    hide MemberFloor, Capped, GapHeld, CueHeld, DaiFloored, Clipped, SilenceHeld;
  }

  /** Inside the original span, each stage keeps what the one before it left. */
  lemma StagesKeepInside(c: Setting, proposal: Span, cap: real)
    ensures var s, r := StagesOf(c, proposal, cap), Clamped(c, proposal, cap);
      && s.floored.lo <= Capped(proposal, c.original, cap).lo && Capped(proposal, c.original, cap).hi <= s.floored.hi
      && KeepsInside(s.gapHeld, s.floored, c.original) && KeepsInside(s.cueHeld, s.gapHeld, c.original)
      && KeepsInside(s.regions, s.cueHeld, c.original) && KeepsInside(s.clipped, s.regions, c.original)
      && KeepsInside(s.held, s.clipped, c.original) && KeepsInside(r, s.held, c.original)
  {
    ClampedIs(c, proposal, cap);
    var s := StagesOf(c, proposal, cap);
    MemberFloorIs(c.ad, Capped(proposal, c.original, cap));
    GapHoldKeeps(c.tr, c.ad, s.floored, c.original, c.barriers);
    CueHoldKeeps(c.ad, c.cues, s.gapHeld, c.original, c.barriers);
    DaiFloorKeeps(c.ad, c.tr, s.cueHeld, c.original);
    ClipStartFrees(s.regions.lo, c.original.lo, c.barriers);
    ClipEndFrees(s.regions.hi, c.original.hi, c.barriers);
    SilenceHoldKeeps(c.ad, s.clipped, c.original, c.barriers);
    hide MemberFloor, Capped, GapHeld, CueHeld, DaiFloored, SilenceHeld, ClipStart, ClipEnd, Clamped;
  }

  /** An edge proposed past a wordless stretch comes back to its near end, or to a barrier on the way. */
  lemma WordlessHolds(c: Setting, proposal: Span, cap: real, s: Span)
    requires s in Wordless(c.tr, c.original, c.ad)
    ensures var p, r := Capped(proposal, c.original, cap), Clamped(c, proposal, cap);
      && HeldBack(r.lo, p.lo, At(s.lo), c.barriers, c.original.lo)
      && HeldUp(r.hi, p.hi, At(s.hi), c.barriers, c.original.hi)
  {
    hide Clamped, Wordless, HoldStarts, HoldEnds, HeldBack, HeldUp, Capped, MemberFloor, CueHeld, DaiFloored, Clipped,
         SilenceHeld;
    var st, wordless := StagesOf(c, proposal, cap), Wordless(c.tr, c.original, c.ad);
    var i :| 0 <= i < |wordless| && wordless[i] == s;
    assert AtAll(Los(wordless))[i] == At(s.lo) && AtAll(His(wordless))[i] == At(s.hi);
    HoldsReach(st.floored.lo, AtAll(Los(wordless)), c.barriers, c.original.lo, At(s.lo));
    EndHoldsReach(st.floored.hi, AtAll(His(wordless)), c.barriers, c.original.hi, At(s.hi));
    StagesKeepInside(c, proposal, cap);
    var p, r := Capped(proposal, c.original, cap), Clamped(c, proposal, cap);
    BackStays(r.lo, st.gapHeld.lo, st.floored.lo, p.lo, At(s.lo), c.barriers, c.original.lo);
    UpStays(r.hi, st.gapHeld.hi, st.floored.hi, p.hi, At(s.hi), c.barriers, c.original.hi);
  }

  lemma CueLimitsMayHold(c: Setting)
    ensures forall i :: 0 <= i < |CueStarts(c)| ==>
              CueStarts(c)[i].floor <= MaxReal(CueStarts(c)[i].edge, c.original.lo)
    ensures forall i :: 0 <= i < |CueEnds(c)| ==> CueEnds(c)[i].floor >= MinReal(CueEnds(c)[i].edge, c.original.hi)
  {
    hide CueStartLimits, CueEndLimits;
    CueLimitsAllowed(c.cues, c.original);
  }

  /** A start proposed past a cue it is held at comes back to it, or to a barrier on the way. */
  lemma CuesHoldStart(c: Setting, proposal: Span, cap: real, l: Limit)
    requires l in CueStarts(c)
    ensures HeldBack(Clamped(c, proposal, cap).lo, Capped(proposal, c.original, cap).lo, l, c.barriers, c.original.lo)
  {
    hide Clamped, HoldStarts, HoldEnds, HeldBack, Capped, MemberFloor, GapHeld, DaiFloored, Clipped, SilenceHeld;
    hide CueStarts;
    var st := StagesOf(c, proposal, cap);
    CueLimitsMayHold(c);
    assert st.cueHeld.lo == HoldStarts(st.gapHeld.lo, CueStarts(c), c.barriers) by {
      CueHeldIs(c, st.gapHeld);
    }
    HoldsReach(st.gapHeld.lo, CueStarts(c), c.barriers, c.original.lo, l);
    StagesKeepInside(c, proposal, cap);
    BackStays(Clamped(c, proposal, cap).lo, st.cueHeld.lo, st.gapHeld.lo, Capped(proposal, c.original, cap).lo, l,
              c.barriers, c.original.lo);
  }

  lemma CuesHoldEnd(c: Setting, proposal: Span, cap: real, l: Limit)
    requires l in CueEnds(c)
    ensures HeldUp(Clamped(c, proposal, cap).hi, Capped(proposal, c.original, cap).hi, l, c.barriers, c.original.hi)
  {
    hide Clamped, HoldStarts, HoldEnds, HeldUp, Capped, MemberFloor, GapHeld, DaiFloored, Clipped, SilenceHeld, CueEnds;
    var st := StagesOf(c, proposal, cap);
    CueLimitsMayHold(c);
    assert st.cueHeld.hi == HoldEnds(st.gapHeld.hi, CueEnds(c), c.barriers) by {
      CueHeldIs(c, st.gapHeld);
    }
    EndHoldsReach(st.gapHeld.hi, CueEnds(c), c.barriers, c.original.hi, l);
    StagesKeepInside(c, proposal, cap);
    UpStays(Clamped(c, proposal, cap).hi, st.cueHeld.hi, st.gapHeld.hi, Capped(proposal, c.original, cap).hi, l,
            c.barriers, c.original.hi);
  }

  lemma CueHeldIs(c: Setting, b: Span)
    ensures CueHeld(c.ad, c.cues, b, c.original, c.barriers)
         == Span(HoldStarts(b.lo, CueStarts(c), c.barriers), HoldEnds(b.hi, CueEnds(c), c.barriers))
  {
    hide HoldStarts, HoldEnds, CueStartLimits, CueEndLimits, SnapStartLimit, SnapEndLimit;
  }

  /** A start past absorbed silence at the original start takes the silence in whole, unless a barrier stops it. */
  lemma SilenceHoldsStartEdge(c: Setting, proposal: Span, cap: real, l: Limit)
    requires l in SilenceStarts(c.ad.silent, c.original)
    ensures var st, r := StagesOf(c, proposal, cap), Clamped(c, proposal, cap);
      r == c.original || HeldBack(r.lo, st.clipped.lo, l, c.barriers, l.edge)
  {
    hide HoldStarts, HeldBack, Clamped, MemberFloor, Capped, GapHeld, CueHeld, DaiFloored, Clipped;
    hide SilenceStarts, SilenceEnds;
    SilenceLimitsAllowed(c.ad.silent, c.original);
    ClampedIs(c, proposal, cap);
    HoldsReach(StagesOf(c, proposal, cap).clipped.lo, SilenceStarts(c.ad.silent, c.original), c.barriers, l.edge, l);
  }

  lemma SilenceHoldsEndEdge(c: Setting, proposal: Span, cap: real, l: Limit)
    requires l in SilenceEnds(c.ad.silent, c.original)
    ensures var st, r := StagesOf(c, proposal, cap), Clamped(c, proposal, cap);
      r == c.original || HeldUp(r.hi, st.clipped.hi, l, c.barriers, l.edge)
  {
    hide HoldEnds, HeldUp, Clamped, MemberFloor, Capped, GapHeld, CueHeld, DaiFloored, Clipped;
    hide SilenceStarts, SilenceEnds;
    SilenceLimitsAllowed(c.ad.silent, c.original);
    ClampedIs(c, proposal, cap);
    EndHoldsReach(StagesOf(c, proposal, cap).clipped.hi, SilenceEnds(c.ad.silent, c.original), c.barriers, l.edge, l);
  }

  lemma EnteredStarts(ad: Ad, value: real, i: nat, j: nat)
    requires StartEntered(ad, value, i, j)
    ensures ad.cores[i] in EnteredAt(ad, false, value, ad.probes)
  {
    assert EnteredBy(ad, false, value, ad.probes, i, j);
    EnteredAtIs(ad, false, value, ad.probes, ad.cores[i]);
  }

  lemma EnteredEnds(ad: Ad, value: real, i: nat, j: nat)
    requires EndEntered(ad, value, i, j)
    ensures ad.cores[i] in EnteredAt(ad, true, value, ad.probes)
  {
    assert EnteredBy(ad, true, value, ad.probes, i, j);
    EnteredAtIs(ad, true, value, ad.probes, ad.cores[i]);
  }

  /**
   * A start that lands inside a measured region, at h after the holds before it, goes out to the region's edge unless
   * it is on a pause with no probe of the region passed, or stops at the word over the floor.
   */
  lemma RegionHoldsStart(c: Setting, proposal: Span, cap: real, i: nat) returns (h: real)
    requires i < |c.ad.cores| && Overlap(c.ad.cores[i], c.original)
    requires c.ad.cores[i].lo < c.ad.cores[i].hi && c.original.lo < c.original.hi
    ensures MaxReal(h, c.original.lo) <= MaxReal(Capped(proposal, c.original, cap).lo, c.original.lo)
    ensures var r := MaxReal(Clamped(c, proposal, cap).lo, c.original.lo);
      || r <= MaxReal(c.ad.cores[i].lo, c.original.lo)
      || (StartOnPause(c.tr.units, c.tr.words, h, c.original.lo) && forall j: nat :: !StartEntered(c.ad, h, i, j))
      || exists floor, u, cut :: StartCap(c.ad, c.tr, h, floor, u, cut) && r <= MaxReal(cut, c.original.lo)
  {
    hide Clamped, Capped, MemberFloor, GapHeld, CueHeld, Clipped, SilenceHeld, EnteredAt, StartOnPause, CapFrom;
    hide DaiStart;
    var st := StagesOf(c, proposal, cap);
    h := st.cueHeld.lo;
    StagesKeepInside(c, proposal, cap);
    DaiStartIs(c.ad, c.tr, st.cueHeld, c.original);
    if j: nat :| StartEntered(c.ad, h, i, j) {
      EnteredStarts(c.ad, h, i, j);
      var spans := c.ad.independent + EnteredAt(c.ad, false, h, c.ad.probes);
      assert c.ad.cores[i] in spans;
    }
    if !StartOnPause(c.tr.units, c.tr.words, h, c.original.lo) {
      var least :| LeastStart(c.ad.cores, least)
                   && StopsAtRegion(c.ad, c.tr, h, MinReal(h, least), st.regions.lo);
      if cut, u :| StartCap(c.ad, c.tr, h, MinReal(h, least), u, cut) {
        var v :| StartCap(c.ad, c.tr, h, MinReal(h, least), v, st.regions.lo);
      }
    }
  }

  lemma RegionHoldsEnd(c: Setting, proposal: Span, cap: real, i: nat) returns (h: real)
    requires i < |c.ad.cores| && Overlap(c.ad.cores[i], c.original)
    requires c.ad.cores[i].lo < c.ad.cores[i].hi && c.original.lo < c.original.hi
    ensures MinReal(Capped(proposal, c.original, cap).hi, c.original.hi) <= MinReal(h, c.original.hi)
    ensures var r := MinReal(Clamped(c, proposal, cap).hi, c.original.hi);
      || MinReal(c.ad.cores[i].hi, c.original.hi) <= r
      || (EndOnPause(c.tr.units, c.tr.words, h, c.original.hi) && forall j: nat :: !EndEntered(c.ad, h, i, j))
      || exists floor, u, cut :: CapFrom(c.tr.units, c.tr.words, c.ad.independent, h, floor, u, cut)
                                 && MinReal(cut, c.original.hi) <= r
  {
    hide Clamped, Capped, MemberFloor, GapHeld, CueHeld, Clipped, SilenceHeld, EnteredAt, EndOnPause, CapFrom, DaiEnd;
    var st := StagesOf(c, proposal, cap);
    h := st.cueHeld.hi;
    StagesKeepInside(c, proposal, cap);
    DaiEndIs(c.ad, c.tr, st.cueHeld, c.original);
    if j: nat :| EndEntered(c.ad, h, i, j) {
      EnteredEnds(c.ad, h, i, j);
      var spans := c.ad.independent + EnteredAt(c.ad, true, h, c.ad.probes);
      assert c.ad.cores[i] in spans;
    }
    if !EndOnPause(c.tr.units, c.tr.words, h, c.original.hi) {
      var greatest :| GreatestEnd(c.ad.cores, greatest)
                      && EndStopsAtRegion(c.ad, c.tr, h, MaxReal(h, greatest), st.regions.hi);
      if cut, u :| CapFrom(c.tr.units, c.tr.words, c.ad.independent, h, MaxReal(h, greatest), u, cut) {
        var v :| CapFrom(c.tr.units, c.tr.words, c.ad.independent, h, MaxReal(h, greatest), v, st.regions.hi);
      }
    }
  }

  // ----- Nothing else moves an edge -----

  /** No member, wordless stretch, cue, region or independent span lies before the start. */
  ghost predicate StartUndisturbed(c: Setting, start: real) {
    && (forall k: nat :: KeepsMember(c.ad, k) ==> start <= c.ad.members[k].span.lo)
    && (forall s :: s in Wordless(c.tr, c.original, c.ad) ==> start <= s.lo)
    && (forall l :: l in CueStarts(c) ==> start <= l.edge)
    && (c.ad.cores != [] ==> NoRegionBefore(c, start))
  }

  ghost predicate NoRegionBefore(c: Setting, start: real) {
    && (forall i :: 0 <= i < |c.ad.cores| ==> start <= c.ad.cores[i].lo)
    && (forall s :: s in c.ad.independent ==> !ReachesBefore(s, start, c.original))
  }

  ghost predicate EndUndisturbed(c: Setting, end: real) {
    && (forall k: nat :: KeepsMember(c.ad, k) ==> c.ad.members[k].span.hi <= end)
    && (forall s :: s in Wordless(c.tr, c.original, c.ad) ==> s.hi <= end)
    && (forall l :: l in CueEnds(c) ==> l.edge <= end)
    && (c.ad.cores != [] ==> NoRegionPast(c, end))
  }

  ghost predicate NoRegionPast(c: Setting, end: real) {
    && (forall i :: 0 <= i < |c.ad.cores| ==> c.ad.cores[i].hi <= end)
    && (forall s :: s in c.ad.independent ==> !ReachesPast(s, end, c.original))
  }

  lemma RegionsLeaveStart(c: Setting, start: real, r: real)
    requires RegionsMoveStart(c.ad, c.tr, start, c.original, r)
    requires c.ad.cores != [] ==> NoRegionBefore(c, start)
    ensures r == start
  {
    hide StartOnPause, EnteredAt, ReachesBefore;
    if c.ad.cores != [] && StartOnPause(c.tr.units, c.tr.words, start, c.original.lo) {
      var entered := EnteredAt(c.ad, false, start, c.ad.probes);
      forall s | s in c.ad.independent + entered ensures !ReachesBefore(s, start, c.original) {
        EnteredAtIs(c.ad, false, start, c.ad.probes, s);
      }
    }
  }

  lemma RegionsLeaveEnd(c: Setting, end: real, r: real)
    requires RegionsMoveEnd(c.ad, c.tr, end, c.original, r)
    requires c.ad.cores != [] ==> NoRegionPast(c, end)
    ensures r == end
  {
    hide EndOnPause, EnteredAt, ReachesPast;
    if c.ad.cores != [] && EndOnPause(c.tr.units, c.tr.words, end, c.original.hi) {
      var entered := EnteredAt(c.ad, true, end, c.ad.probes);
      forall s | s in c.ad.independent + entered ensures !ReachesPast(s, end, c.original) {
        EnteredAtIs(c.ad, true, end, c.ad.probes, s);
      }
    }
  }

  lemma FlooredStartStays(c: Setting, b: Span)
    requires forall k: nat :: KeepsMember(c.ad, k) ==> b.lo <= c.ad.members[k].span.lo
    ensures MemberFloor(c.ad, b).lo == b.lo
  {
    MemberFloorIs(c.ad, b);
    hide MemberFloor;
  }

  lemma FlooredEndStays(c: Setting, b: Span)
    requires forall k: nat :: KeepsMember(c.ad, k) ==> c.ad.members[k].span.hi <= b.hi
    ensures MemberFloor(c.ad, b).hi == b.hi
  {
    MemberFloorIs(c.ad, b);
    hide MemberFloor;
  }

  /** Without evidence before it, the start reaches the clip as proposed. */
  lemma UndisturbedStart(c: Setting, proposal: Span, cap: real)
    requires StartUndisturbed(c, Capped(proposal, c.original, cap).lo)
    ensures StagesOf(c, proposal, cap).regions.lo == Capped(proposal, c.original, cap).lo
  {
    hide Capped, MemberFloor, HoldStarts, HoldEnds, Wordless, CueStarts, CueEnds, KeepsMember, DaiStart, DaiEnd;
    hide Clipped, SilenceHeld, RegionsMoveStart, NoRegionBefore;
    var p, st := Capped(proposal, c.original, cap), StagesOf(c, proposal, cap);
    FlooredStartStays(c, p);
    var wordless := Wordless(c.tr, c.original, c.ad);
    forall l | l in AtAll(Los(wordless)) ensures p.lo <= l.edge {
      var i :| 0 <= i < |wordless| && l == At(wordless[i].lo);
      assert wordless[i] in wordless;
    }
    HoldsStay(p.lo, AtAll(Los(wordless)), c.barriers);
    CueHeldIs(c, st.gapHeld);
    HoldsStay(p.lo, CueStarts(c), c.barriers);
    DaiStartIs(c.ad, c.tr, st.cueHeld, c.original);
    RegionsLeaveStart(c, p.lo, st.regions.lo);
  }

  lemma UndisturbedEnd(c: Setting, proposal: Span, cap: real)
    requires EndUndisturbed(c, Capped(proposal, c.original, cap).hi)
    ensures StagesOf(c, proposal, cap).regions.hi == Capped(proposal, c.original, cap).hi
  {
    hide Capped, MemberFloor, HoldStarts, HoldEnds, Wordless, CueStarts, CueEnds, KeepsMember, DaiStart, DaiEnd;
    hide Clipped, SilenceHeld, RegionsMoveEnd, NoRegionPast;
    var p, st := Capped(proposal, c.original, cap), StagesOf(c, proposal, cap);
    FlooredEndStays(c, p);
    var wordless := Wordless(c.tr, c.original, c.ad);
    forall l | l in AtAll(His(wordless)) ensures l.edge <= p.hi {
      var i :| 0 <= i < |wordless| && l == At(wordless[i].hi);
      assert wordless[i] in wordless;
    }
    EndHoldsStay(p.hi, AtAll(His(wordless)), c.barriers);
    CueHeldIs(c, st.gapHeld);
    EndHoldsStay(p.hi, CueEnds(c), c.barriers);
    DaiEndIs(c.ad, c.tr, st.cueHeld, c.original);
    RegionsLeaveEnd(c, p.hi, st.regions.hi);
  }

  /** The clip of the capped start at kept audio, with no absorbed silence before it. */
  ghost predicate StartStands(c: Setting, start: real, r: real) {
    ClippedStart(start, c.original.lo, c.barriers, r)
    && forall l :: l in SilenceStarts(c.ad.silent, c.original) ==> r <= l.edge
  }

  ghost predicate EndStands(c: Setting, end: real, r: real) {
    ClippedEnd(end, c.original.hi, c.barriers, r)
    && forall l :: l in SilenceEnds(c.ad.silent, c.original) ==> l.edge <= r
  }

  lemma ClipsOnce(a: real, original: real, barriers: seq<Span>, r: real, s: real)
    requires ClippedStart(a, original, barriers, r) && ClippedStart(a, original, barriers, s)
    ensures r == s
  {
  }

  lemma EndClipsOnce(a: real, original: real, barriers: seq<Span>, r: real, s: real)
    requires ClippedEnd(a, original, barriers, r) && ClippedEnd(a, original, barriers, s)
    ensures r == s
  {
  }

  /** Each edge of the result is the capped proposal's, clipped at kept audio, unless evidence disturbs that edge. */
  lemma OnlyEvidenceMovesEdges(c: Setting, proposal: Span, cap: real, lo: real, hi: real)
    requires var p := Capped(proposal, c.original, cap);
      ClippedStart(p.lo, c.original.lo, c.barriers, lo) && ClippedEnd(p.hi, c.original.hi, c.barriers, hi)
    ensures var p, r := Capped(proposal, c.original, cap), Clamped(c, proposal, cap);
      && (StartUndisturbed(c, p.lo) && StartStands(c, p.lo, lo) ==> r.lo == lo || r == c.original)
      && (EndUndisturbed(c, p.hi) && EndStands(c, p.hi, hi) ==> r.hi == hi || r == c.original)
      && (StartUndisturbed(c, p.lo) && StartStands(c, p.lo, lo) && EndUndisturbed(c, p.hi) && EndStands(c, p.hi, hi) ==>
            r == if hi <= lo then c.original else Span(lo, hi))
  {
    hide Clamped, Capped, MemberFloor, GapHeld, CueHeld, DaiFloored, HoldStarts, HoldEnds, ClippedStart, ClippedEnd,
         StartUndisturbed, EndUndisturbed, SilenceStarts, SilenceEnds, ClipStart, ClipEnd;
    ClampedIs(c, proposal, cap);
    var p, st := Capped(proposal, c.original, cap), StagesOf(c, proposal, cap);
    ClipsAre(st.regions.lo, st.regions.hi, c.original, c.barriers);
    if StartUndisturbed(c, p.lo) && StartStands(c, p.lo, lo) {
      UndisturbedStart(c, proposal, cap);
      ClipsOnce(p.lo, c.original.lo, c.barriers, lo, st.clipped.lo);
      HoldsStay(lo, SilenceStarts(c.ad.silent, c.original), c.barriers);
    }
    if EndUndisturbed(c, p.hi) && EndStands(c, p.hi, hi) {
      UndisturbedEnd(c, proposal, cap);
      EndClipsOnce(p.hi, c.original.hi, c.barriers, hi, st.clipped.hi);
      EndHoldsStay(hi, SilenceEnds(c.ad.silent, c.original), c.barriers);
    }
  }

  /** Without any evidence at all the capped proposal stands, clipped at kept audio, or else the original. */
  lemma ProposalStandsWithoutEvidence(c: Setting, proposal: Span, cap: real, lo: real, hi: real)
    requires c.ad == Ad(c.ad.mergedDistinct, [], [], c.ad.probes, c.ad.independent, [], None, None)
    requires c.cues == [] && Wordless(c.tr, c.original, c.ad) == []
    requires var p := Capped(proposal, c.original, cap);
      ClippedStart(p.lo, c.original.lo, c.barriers, lo) && ClippedEnd(p.hi, c.original.hi, c.barriers, hi)
    ensures Clamped(c, proposal, cap) == if hi <= lo then c.original else Span(lo, hi)
  {
    hide Clamped, Capped, Wordless, ClippedStart, ClippedEnd;
    OnlyEvidenceMovesEdges(c, proposal, cap, lo, hi);
  }
}
