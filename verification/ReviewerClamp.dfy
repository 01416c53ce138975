/** The single path from a reviewer's proposed bounds to marker bounds. */
module ReviewerClamp {
  import opened Basics
  import opened Spans
  import opened EdgeIndex
  import opened EdgeHolds

  const UNREVIEWABLE_GAP_SECONDS := 8.0
  const SNAP_GAP_SECONDS := 0.05
  const CONFIRMED_BOUNDARY_TOLERANCE_S := 0.1
  const MEASURED_MEMBER_TOLERANCE_S := 3.0

  datatype MemberStage = Coarse | Legacy | Measured

  datatype Member = Member(span: Span, stage: MemberStage)

  /** A template cue the edge was snapped to. */
  datatype CueSnap = CueSnap(removeWithAd: bool, cueStart: Option<real>, cueEnd: Option<real>)

  /** A removable, confident template cue inside the episode, with the edges its role can set. */
  datatype Cue = Cue(span: Span, startRole: bool, endRole: bool)

  /** The evidence a marker carries into the clamp; cores and probes are its measured DAI regions and windows. */
  datatype Ad = Ad(mergedDistinct: bool, members: seq<Member>, cores: seq<Span>, probes: seq<Span>,
                   independent: seq<Span>, silent: seq<Span>, startSnap: Option<CueSnap>, endSnap: Option<CueSnap>)

  datatype Transcript = Transcript(units: seq<Span>, words: seq<Span>)

  // ----- Cap and members -----

  function ClampToCap(proposed: real, original: real, cap: real): real {
    if proposed - original > cap then original + cap
    else if proposed - original < -cap then original - cap
    else proposed
  }

  function LeastLo(ss: seq<Span>): (r: real)
    requires ss != []
    ensures forall i :: 0 <= i < |ss| ==> r <= ss[i].lo
    ensures exists i :: 0 <= i < |ss| && r == ss[i].lo
  {
    if |ss| == 1 then ss[0].lo else MinReal(LeastLo(ss[..|ss| - 1]), ss[|ss| - 1].lo)
  }

  function GreatestHi(ss: seq<Span>): (r: real)
    requires ss != []
    ensures forall i :: 0 <= i < |ss| ==> ss[i].hi <= r
    ensures exists i :: 0 <= i < |ss| && r == ss[i].hi
  {
    if |ss| == 1 then ss[0].hi else MaxReal(GreatestHi(ss[..|ss| - 1]), ss[|ss| - 1].hi)
  }

  /** Members whose extent is measured; a coarse one would undo the trim just accepted. */
  function HardSpans(members: seq<Member>): seq<Span> {
    if members == [] then []
    else HardSpans(members[..|members| - 1])
         + (if members[|members| - 1].stage == Coarse then [] else [members[|members| - 1].span])
  }

  function MemberFloor(ad: Ad, b: Span): Span {
    var hard := HardSpans(ad.members);
    if !ad.mergedDistinct || hard == [] then b
    else Span(MinReal(b.lo, LeastLo(hard)), MaxReal(b.hi, GreatestHi(hard)))
  }

  /** Whether bounds drop the evidence a member carries. */
  predicate MemberConflict(m: Member, b: Span) {
    var retained := MinReal(b.hi, m.span.hi) - MaxReal(b.lo, m.span.lo);
    var length := m.span.hi - m.span.lo;
    retained < match m.stage
               case Coarse => MinReal(MIN_AD_DURATION_FOR_REMOVAL, length / 2.0)
               case Legacy => length - CONFIRMED_BOUNDARY_TOLERANCE_S
               case Measured => MaxReal(length / 2.0, length - MEASURED_MEMBER_TOLERANCE_S)
  }

  // ----- Limits -----

  /** transcript_gaps: stretches of at least minS that no unit covers, between the first and last unit. */
  function GapsAfter(units: seq<Span>, covered: real, minS: real): seq<Span> {
    if units == [] then []
    else (if units[0].lo - covered >= minS then [Span(covered, units[0].lo)] else [])
         + GapsAfter(units[1..], MaxReal(covered, units[0].hi), minS)
  }

  function TranscriptGaps(units: seq<Span>, minS: real): seq<Span> {
    if units == [] then [] else GapsAfter(units[1..], units[0].hi, minS)
  }

  function CueEdgeLimit(snap: CueSnap, atStart: bool): Option<real> {
    if atStart == snap.removeWithAd
    then (if snap.cueStart.Some? then Some(snap.cueStart.value - SNAP_GAP_SECONDS) else None)
    else (if snap.cueEnd.Some? then Some(snap.cueEnd.value + SNAP_GAP_SECONDS) else None)
  }

  predicate StartMeasured(ad: Ad, original: Span) {
    ad.cores != [] && AbsReal(LeastLo(ad.cores) - original.lo) <= EDGE_TOLERANCE && ad.startSnap.None?
  }

  predicate EndMeasured(ad: Ad, original: Span) {
    ad.cores != [] && AbsReal(GreatestHi(ad.cores) - original.hi) <= EDGE_TOLERANCE && ad.endSnap.None?
  }

  /** A wordless stretch, clipped to the span, when it is long enough to hold an edge. */
  function StretchInside(ad: Ad, original: Span, stretch: Span, minLen: real): seq<Span> {
    var lo, hi := MaxReal(stretch.lo, original.lo), MinReal(stretch.hi, original.hi);
    var onMeasured := || (StartMeasured(ad, original) && lo == original.lo)
                      || (EndMeasured(ad, original) && hi == original.hi);
    var needed := if onMeasured then EDGE_TOLERANCE else minLen;
    if hi - lo >= needed then [Span(lo, hi)] else []
  }

  function StretchesInside(ad: Ad, original: Span, stretches: seq<Span>, minLen: real): seq<Span> {
    if stretches == [] then []
    else StretchesInside(ad, original, stretches[..|stretches| - 1], minLen)
         + StretchInside(ad, original, stretches[|stretches| - 1], minLen)
  }

  /** Wordless stretches that hold an edge, before the first and after the last unit included. */
  function Wordless(tr: Transcript, original: Span, ad: Ad): seq<Span> {
    var ix := BuildIndex(tr.units, tr.words);
    var gaps := StretchesInside(ad, original, TranscriptGaps(ix.units, EDGE_TOLERANCE), UNREVIEWABLE_GAP_SECONDS);
    if exists i :: 0 <= i < |ix.units| && Overlap(ix.units[i], original) then
      gaps + StretchInside(ad, original, Span(original.lo, ix.units[0].lo), EDGE_TOLERANCE)
           + StretchInside(ad, original, Span(ix.maxHis[|ix.maxHis| - 1], original.hi), EDGE_TOLERANCE)
    else gaps
  }

  function CueStartLimits(cues: seq<Cue>, original: Span): seq<Limit> {
    if cues == [] then []
    else
      var c := cues[|cues| - 1];
      CueStartLimits(cues[..|cues| - 1], original)
      + (if c.startRole && original.lo - EDGE_TOLERANCE <= c.span.lo < original.hi
         then [Limit(c.span.lo, MaxReal(c.span.lo - SNAP_GAP_SECONDS, original.lo))] else [])
  }

  function CueEndLimits(cues: seq<Cue>, original: Span): seq<Limit> {
    if cues == [] then []
    else
      var c := cues[|cues| - 1];
      CueEndLimits(cues[..|cues| - 1], original)
      + (if c.endRole && original.lo < c.span.hi <= original.hi + EDGE_TOLERANCE
         then [Limit(c.span.hi, MinReal(c.span.hi + SNAP_GAP_SECONDS, original.hi))] else [])
  }

  function SnapStartLimit(snap: Option<CueSnap>, original: Span): seq<Limit> {
    if snap.None? then []
    else
      var lim := CueEdgeLimit(snap.value, true);
      if lim.Some? && original.lo - EDGE_TOLERANCE <= lim.value < original.hi
      then [Limit(lim.value, MaxReal(lim.value, original.lo))] else []
  }

  function SnapEndLimit(snap: Option<CueSnap>, original: Span): seq<Limit> {
    if snap.None? then []
    else
      var lim := CueEdgeLimit(snap.value, false);
      if lim.Some? && original.lo < lim.value <= original.hi + EDGE_TOLERANCE
      then [Limit(lim.value, MinReal(lim.value, original.hi))] else []
  }

  function SilenceStarts(silent: seq<Span>, original: Span): seq<Limit> {
    if silent == [] then []
    else
      var s := silent[|silent| - 1];
      SilenceStarts(silent[..|silent| - 1], original)
      + (if s.lo <= original.lo + EDGE_TOLERANCE then [Limit(s.lo, MinReal(s.lo, original.lo))] else [])
  }

  function SilenceEnds(silent: seq<Span>, original: Span): seq<Limit> {
    if silent == [] then []
    else
      var s := silent[|silent| - 1];
      SilenceEnds(silent[..|silent| - 1], original)
      + (if s.hi >= original.hi - EDGE_TOLERANCE then [Limit(s.hi, MaxReal(s.hi, original.hi))] else [])
  }

  // ----- Floors at measured DAI regions -----

  /** Regions whose probe the edge has passed: their unprobed rest is unknown, so they count whole. */
  function Entered(cores: seq<Span>, probe: Span): seq<Span> {
    if cores == [] then []
    else Entered(cores[..|cores| - 1], probe)
         + (if cores[|cores| - 1].lo <= probe.lo && probe.hi <= cores[|cores| - 1].hi then [cores[|cores| - 1]] else [])
  }

  function EnteredAt(ad: Ad, atEnd: bool, value: real, probes: seq<Span>): seq<Span> {
    if probes == [] then []
    else
      var p := probes[|probes| - 1];
      EnteredAt(ad, atEnd, value, probes[..|probes| - 1])
      + (if (if atEnd then p.hi > value else p.lo < value) then Entered(ad.cores, p) else [])
  }

  function EndFloor(spans: seq<Span>, value: real, bounds: Span): (r: real)
    ensures r >= value
  {
    if spans == [] then value
    else
      var lo, hi := MaxReal(spans[|spans| - 1].lo, bounds.lo), MinReal(spans[|spans| - 1].hi, bounds.hi);
      var rest := EndFloor(spans[..|spans| - 1], value, bounds);
      if hi > MaxReal(lo, value) then MaxReal(rest, hi) else rest
  }

  function StartFloor(spans: seq<Span>, value: real, bounds: Span): (r: real)
    ensures r <= value
  {
    if spans == [] then value
    else
      var lo, hi := MaxReal(spans[|spans| - 1].lo, bounds.lo), MinReal(spans[|spans| - 1].hi, bounds.hi);
      var rest := StartFloor(spans[..|spans| - 1], value, bounds);
      if lo < MinReal(hi, value) then MinReal(rest, lo) else rest
  }

  function DaiStart(ad: Ad, tr: Transcript, b: Span, original: Span): real {
    if ad.cores == [] then b.lo
    else
      var ix := BuildIndex(Negated(tr.units), Negated(tr.words));
      var floor := MinReal(b.lo, LeastLo(ad.cores));
      if EndEdgeSupported(ix, -b.lo, -original.lo) then
        StartFloor(ad.independent + EnteredAt(ad, false, b.lo, ad.probes), b.lo, original)
      else
        var capped := EndCappedFloor(ix, Negated(ad.independent), -b.lo, -floor);
        if capped.Some? then -capped.value else floor
  }

  function DaiEnd(ad: Ad, tr: Transcript, b: Span, original: Span): real {
    if ad.cores == [] then b.hi
    else
      var ix := BuildIndex(tr.units, tr.words);
      var floor := MaxReal(b.hi, GreatestHi(ad.cores));
      if EndEdgeSupported(ix, b.hi, original.hi) then
        EndFloor(ad.independent + EnteredAt(ad, true, b.hi, ad.probes), b.hi, original)
      else
        var capped := EndCappedFloor(ix, ad.independent, b.hi, floor);
        if capped.Some? then capped.value else floor
  }

  // ----- The stages -----

  function Capped(proposal: Span, original: Span, cap: real): Span {
    var p := if proposal.hi <= proposal.lo then original else proposal;
    Span(ClampToCap(p.lo, original.lo, cap), ClampToCap(p.hi, original.hi, cap))
  }

  function GapHeld(tr: Transcript, ad: Ad, b: Span, original: Span, barriers: seq<Span>): Span {
    var wordless := Wordless(tr, original, ad);
    Span(HoldStarts(b.lo, AtAll(Los(wordless)), barriers), HoldEnds(b.hi, AtAll(His(wordless)), barriers))
  }

  function CueHeld(ad: Ad, cues: seq<Cue>, b: Span, original: Span, barriers: seq<Span>): Span {
    Span(HoldStarts(b.lo, SnapStartLimit(ad.startSnap, original) + CueStartLimits(cues, original), barriers),
         HoldEnds(b.hi, SnapEndLimit(ad.endSnap, original) + CueEndLimits(cues, original), barriers))
  }

  function DaiFloored(ad: Ad, tr: Transcript, b: Span, original: Span): Span {
    Span(DaiStart(ad, tr, b, original), DaiEnd(ad, tr, b, original))
  }

  function Clipped(b: Span, original: Span, barriers: seq<Span>): Span {
    Span(ClipStart(b.lo, original.lo, barriers), ClipEnd(b.hi, original.hi, barriers))
  }

  function SilenceHeld(ad: Ad, b: Span, original: Span, barriers: seq<Span>): Span {
    Span(HoldStarts(b.lo, SilenceStarts(ad.silent, original), barriers),
         HoldEnds(b.hi, SilenceEnds(ad.silent, original), barriers))
  }

  /** The bounds that come out, from a proposal for an ad on the original span. */
  function ClampBounds(ad: Ad, proposal: Span, original: Span, cap: real, tr: Transcript, cues: seq<Cue>,
                       barriers: seq<Span>): Span
  {
    var b := MemberFloor(ad, Capped(proposal, original, cap));
    var held := CueHeld(ad, cues, GapHeld(tr, ad, b, original, barriers), original, barriers);
    var r := SilenceHeld(ad, Clipped(DaiFloored(ad, tr, held, original), original, barriers), original, barriers);
    if r.hi <= r.lo then original else r
  }

  method ClampProposedBounds(ad: Ad, newStart: real, newEnd: real, originalStart: real, originalEnd: real,
                             maxShift: real, tr: Transcript, cues: seq<Cue>, hardBarriers: seq<Span>)
    returns (clampedStart: real, clampedEnd: real)
    ensures Span(clampedStart, clampedEnd)
         == ClampBounds(ad, Span(newStart, newEnd), Span(originalStart, originalEnd), maxShift, tr, cues, hardBarriers)
  {
    hide HoldStarts, HoldEnds, Wordless, MemberFloor, DaiStart, DaiEnd, ClipStart, ClipEnd, SilenceStarts, SilenceEnds,
      CueStartLimits, CueEndLimits, SnapStartLimit, SnapEndLimit;
    var original := Span(originalStart, originalEnd);
    var s, e := newStart, newEnd;
    if e <= s {
      s, e := originalStart, originalEnd;
    }
    clampedStart := ClampToCap(s, originalStart, maxShift);
    clampedEnd := ClampToCap(e, originalEnd, maxShift);
    var floored := MemberFloor(ad, Span(clampedStart, clampedEnd));
    clampedStart, clampedEnd := floored.lo, floored.hi;
    var wordless := Wordless(tr, original, ad);
    clampedStart, clampedEnd := HoldInwardEdges(clampedStart, clampedEnd,
                                                AtAll(Los(wordless)), AtAll(His(wordless)), hardBarriers);
    clampedStart, clampedEnd := HoldInwardEdges(clampedStart, clampedEnd,
                                                SnapStartLimit(ad.startSnap, original) + CueStartLimits(cues, original),
                                                SnapEndLimit(ad.endSnap, original) + CueEndLimits(cues, original),
                                                hardBarriers);
    var held := Span(clampedStart, clampedEnd);
    clampedStart, clampedEnd := DaiStart(ad, tr, held, original), DaiEnd(ad, tr, held, original);
    clampedStart, clampedEnd := ClipAtBarriers(clampedStart, clampedEnd, originalStart, originalEnd, hardBarriers);
    clampedStart, clampedEnd := HoldInwardEdges(clampedStart, clampedEnd,
                                                SilenceStarts(ad.silent, original), SilenceEnds(ad.silent, original),
                                                hardBarriers);
    if clampedEnd <= clampedStart {
      clampedStart, clampedEnd := originalStart, originalEnd;
    }
  }

  // ----- What the clamp guarantees -----

  /** Inside the original span, a keeps everything b does. */
  ghost predicate KeepsInside(a: Span, b: Span, original: Span) {
    MaxReal(a.lo, original.lo) <= MaxReal(b.lo, original.lo) && MinReal(b.hi, original.hi) <= MinReal(a.hi, original.hi)
  }

  lemma {:induction false} CueLimitsAllowed(cues: seq<Cue>, original: Span)
    ensures forall i :: 0 <= i < |CueStartLimits(cues, original)| ==>
      var l := CueStartLimits(cues, original)[i]; l.floor <= MaxReal(l.edge, original.lo)
    ensures forall i :: 0 <= i < |CueEndLimits(cues, original)| ==>
      var l := CueEndLimits(cues, original)[i]; l.floor >= MinReal(l.edge, original.hi)
  {
    if cues != [] {
      CueLimitsAllowed(cues[..|cues| - 1], original);
    }
  }

  lemma {:induction false} SilenceLimitsAllowed(silent: seq<Span>, original: Span)
    ensures forall i :: 0 <= i < |SilenceStarts(silent, original)| ==>
      SilenceLike(SilenceStarts(silent, original)[i], original.lo)
    ensures forall i :: 0 <= i < |SilenceEnds(silent, original)| ==>
      var l := SilenceEnds(silent, original)[i]; l.floor == MaxReal(l.edge, original.hi)
  {
    if silent != [] {
      SilenceLimitsAllowed(silent[..|silent| - 1], original);
    }
  }

  lemma GapHoldKeeps(tr: Transcript, ad: Ad, b: Span, original: Span, barriers: seq<Span>)
    ensures KeepsInside(GapHeld(tr, ad, b, original, barriers), b, original)
  {
    hide Wordless, HoldStarts, HoldEnds;
    var wordless := Wordless(tr, original, ad);
    HoldsKeepInside(b.lo, AtAll(Los(wordless)), barriers, original.lo);
    EndHoldsKeepInside(b.hi, AtAll(His(wordless)), barriers, original.hi);
  }

  lemma CueHoldKeeps(ad: Ad, cues: seq<Cue>, b: Span, original: Span, barriers: seq<Span>)
    ensures KeepsInside(CueHeld(ad, cues, b, original, barriers), b, original)
  {
    hide HoldStarts, HoldEnds, CueStartLimits, CueEndLimits;
    CueLimitsAllowed(cues, original);
    HoldsKeepInside(b.lo, SnapStartLimit(ad.startSnap, original) + CueStartLimits(cues, original), barriers,
                    original.lo);
    EndHoldsKeepInside(b.hi, SnapEndLimit(ad.endSnap, original) + CueEndLimits(cues, original), barriers, original.hi);
  }

  lemma DaiFloorKeeps(ad: Ad, tr: Transcript, b: Span, original: Span)
    ensures var f := DaiFloored(ad, tr, b, original); f.lo <= b.lo && b.hi <= f.hi
  {
    hide EndEdgeSupported, EndCappedFloor, BuildIndex, StartFloor, EndFloor, EnteredAt;
    if ad.cores != [] {
      var back := BuildIndex(Negated(tr.units), Negated(tr.words));
      var floor := MinReal(b.lo, LeastLo(ad.cores));
      if EndCappedFloor(back, Negated(ad.independent), -b.lo, -floor).Some? {
        CappedFloorIsSafe(back, Negated(ad.independent), -b.lo, -floor, 0.0);
      }
      var ix := BuildIndex(tr.units, tr.words);
      var ceiling := MaxReal(b.hi, GreatestHi(ad.cores));
      if EndCappedFloor(ix, ad.independent, b.hi, ceiling).Some? {
        CappedFloorIsSafe(ix, ad.independent, b.hi, ceiling, 0.0);
      }
    }
  }

  lemma SilenceHoldKeeps(ad: Ad, b: Span, original: Span, barriers: seq<Span>)
    ensures KeepsInside(SilenceHeld(ad, b, original, barriers), b, original)
  {
    hide HoldStarts, HoldEnds, SilenceStarts, SilenceEnds;
    SilenceLimitsAllowed(ad.silent, original);
    HoldsKeepInside(b.lo, SilenceStarts(ad.silent, original), barriers, original.lo);
    EndHoldsKeepInside(b.hi, SilenceEnds(ad.silent, original), barriers, original.hi);
  }

  /** The bounds after every stage but the validity fallback. */
  function Staged(ad: Ad, b: Span, original: Span, tr: Transcript, cues: seq<Cue>, barriers: seq<Span>): Span {
    var held := CueHeld(ad, cues, GapHeld(tr, ad, b, original, barriers), original, barriers);
    SilenceHeld(ad, Clipped(DaiFloored(ad, tr, held, original), original, barriers), original, barriers)
  }

  lemma StagesKeep(ad: Ad, b: Span, original: Span, tr: Transcript, cues: seq<Cue>, barriers: seq<Span>)
    ensures KeepsInside(Staged(ad, b, original, tr, cues, barriers), b, original)
  {
    hide GapHeld, CueHeld, DaiFloored, SilenceHeld, ClipStart, ClipEnd;
    var gap := GapHeld(tr, ad, b, original, barriers);
    var held := CueHeld(ad, cues, gap, original, barriers);
    var dai := DaiFloored(ad, tr, held, original);
    GapHoldKeeps(tr, ad, b, original, barriers);
    CueHoldKeeps(ad, cues, gap, original, barriers);
    DaiFloorKeeps(ad, tr, held, original);
    ClipStartFrees(dai.lo, original.lo, barriers);
    ClipEndFrees(dai.hi, original.hi, barriers);
    SilenceHoldKeeps(ad, Clipped(dai, original, barriers), original, barriers);
  }

  /**
   * Whatever is proposed, the result is a real span and, inside the original, trims no more than the capped proposal.
   */
  lemma NeverTrimsMoreThanAsked(ad: Ad, proposal: Span, original: Span, cap: real, tr: Transcript, cues: seq<Cue>,
                                barriers: seq<Span>)
    requires original.lo < original.hi
    ensures var r := ClampBounds(ad, proposal, original, cap, tr, cues, barriers);
      r.lo < r.hi && KeepsInside(r, MemberFloor(ad, Capped(proposal, original, cap)), original)
                  && KeepsInside(r, Capped(proposal, original, cap), original)
  {
    hide GapHeld, CueHeld, DaiFloored, SilenceHeld, Clipped, HardSpans;
    StagesKeep(ad, MemberFloor(ad, Capped(proposal, original, cap)), original, tr, cues, barriers);
  }

  /** A member inside the original span that the capped proposal respects is respected by the result. */
  lemma RespectedMembersStayRespected(ad: Ad, proposal: Span, original: Span, cap: real, tr: Transcript, cues: seq<Cue>,
                                      barriers: seq<Span>, m: Member)
    requires original.lo < original.hi
    requires original.lo <= m.span.lo <= m.span.hi <= original.hi
    requires !MemberConflict(m, Capped(proposal, original, cap))
    ensures !MemberConflict(m, ClampBounds(ad, proposal, original, cap, tr, cues, barriers))
  {
    hide ClampBounds, Capped;
    NeverTrimsMoreThanAsked(ad, proposal, original, cap, tr, cues, barriers);
  }

  lemma {:induction false} HardSpansHold(members: seq<Member>, k: nat)
    requires k < |members| && members[k].stage != Coarse
    ensures exists i :: 0 <= i < |HardSpans(members)| && HardSpans(members)[i] == members[k].span
  {
    var n := |members| - 1;
    if k < n {
      HardSpansHold(members[..n], k);
      var i :| 0 <= i < |HardSpans(members[..n])| && HardSpans(members[..n])[i] == members[k].span;
      assert HardSpans(members)[i] == members[k].span;
    } else {
      assert HardSpans(members)[|HardSpans(members[..n])|] == members[k].span;
    }
  }

  /** On a merged ad, every measured member's audio inside the original span survives any proposal. */
  lemma MeasuredMembersStayCut(ad: Ad, proposal: Span, original: Span, cap: real, tr: Transcript, cues: seq<Cue>,
                               barriers: seq<Span>, k: nat, t: real)
    requires original.lo < original.hi && ad.mergedDistinct
    requires k < |ad.members| && ad.members[k].stage != Coarse
    requires ad.members[k].span.Has(t) && original.Has(t)
    ensures ClampBounds(ad, proposal, original, cap, tr, cues, barriers).Has(t)
  {
    hide ClampBounds, Capped, HardSpans;
    NeverTrimsMoreThanAsked(ad, proposal, original, cap, tr, cues, barriers);
    HardSpansHold(ad.members, k);
  }

  /** Outside the original span, the result never reaches kept audio. */
  lemma NeverEntersKeptAudio(ad: Ad, proposal: Span, original: Span, cap: real, tr: Transcript, cues: seq<Cue>,
                             barriers: seq<Span>, t: real)
    requires var r := ClampBounds(ad, proposal, original, cap, tr, cues, barriers);
      r.Has(t) && !original.Has(t)
    ensures !Covers(barriers, t)
  {
    hide GapHeld, CueHeld, DaiFloored, HoldStarts, HoldEnds, ClipStart, ClipEnd, SilenceStarts, SilenceEnds,
         MemberFloor;
    var b := MemberFloor(ad, Capped(proposal, original, cap));
    var held := CueHeld(ad, cues, GapHeld(tr, ad, b, original, barriers), original, barriers);
    var dai := DaiFloored(ad, tr, held, original);
    ClipStartFrees(dai.lo, original.lo, barriers);
    ClipEndFrees(dai.hi, original.hi, barriers);
    var clipped := Clipped(dai, original, barriers);
    SilenceLimitsAllowed(ad.silent, original);
    SilenceHoldsStayFree(clipped.lo, SilenceStarts(ad.silent, original), barriers, original.lo);
    SilenceEndHoldsStayFree(clipped.hi, SilenceEnds(ad.silent, original), barriers, original.hi);
    var r := SilenceHeld(ad, clipped, original, barriers);
    if r.lo < r.hi {
      FreeMeansUncovered(r.lo, r.hi, original.lo, original.hi, barriers, t);
    }
  }
}
