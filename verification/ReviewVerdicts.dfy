/** One ad's review: from a reply to a verdict, from a verdict to the list the ad ends in. */
module ReviewVerdicts {
  import opened Basics
  import opened Spans
  import opened EdgeIndex
  import opened EdgeHolds
  import opened ReviewerClamp

  const TRIM_RANGE_EPSILON_S := 0.5

  /** What the prose heuristics make of a verdict's reasoning. */
  datatype Prose = Prose(contradicts: bool, affirms: bool, trims: bool)

  /** Reply to the follow-up call that asks for the trim the prose describes. */
  datatype Answer = NoAnswer | LimitedAnswer | SpanAnswer(span: Span)

  /**
   * Raised: the call raises. Unusable: no response, unparseable, or not an object. NotAnAd: empty, or is_ad is false.
   */
  datatype Reply =
    | Raised(rateLimited: bool)
    | Abstained
    | Unusable
    | NotAnAd
    | Kept(lo: Option<real>, hi: Option<real>, isAd: bool, prose: Prose, answer: Answer)

  /** Whether independent evidence covers both edges; the check can itself raise. */
  datatype Support = Backed | Unbacked | CheckRaises

  datatype Candidate = Candidate(span: Span, ad: Ad, userConfirmed: bool, cueMatch: bool, legacyMerged: bool,
                                 support: Support, evidence: bool)

  /**
   * What a run is given; setup is the exception raised before any review, say while
   * the route is resolved, if there is one.
   */
  datatype Env = Env(tr: Transcript, cues: seq<Cue>, barriers: seq<Span>, cap: real, pass: nat, setup: Option<bool>)

  datatype Kind = Confirmed | Adjust | Reject | Resurrect | Inconclusive | Failure

  datatype Flags = Flags(conflict: bool, structuredAd: bool, clamped: bool, inconclusiveHold: bool, rejectHold: bool)

  datatype Verdict = Verdict(kind: Kind, original: Span, adjusted: Option<Span>, flags: Flags, prose: Prose,
                             answer: Answer)

  datatype Reason = Contradiction | BoundaryConflict | RejectConflict | ReviewerFailed | InconclusiveBounds

  datatype Status = Untouched | Moved | HeldFor(reason: Reason) | RejectedMark | ResurrectedMark

  /** Edges later stages may not widen. */
  datatype Locks = Locks(start: bool, end: bool)

  /** A candidate as the review leaves it. */
  datatype Marker = Marker(c: Candidate, span: Span, status: Status, proposed: Option<Span>, locks: Option<Locks>)

  predicate Skips(c: Candidate) { c.userConfirmed || c.cueMatch }

  function Plain(c: Candidate): Marker { Marker(c, c.span, Untouched, None, None) }

  function Blank(c: Candidate, kind: Kind): Verdict {
    Verdict(kind, c.span, None, Flags(false, false, false, false, false), Prose(false, false, false), NoAnswer)
  }

  predicate BoundsUnchanged(b: Span, original: Span) {
    && AbsReal(b.lo - original.lo) <= CONFIRMED_BOUNDARY_TOLERANCE_S
    && AbsReal(b.hi - original.hi) <= CONFIRMED_BOUNDARY_TOLERANCE_S
  }

  predicate ClampOverrode(p: Span, original: Span, b: Span) {
    p.hi > p.lo && !BoundsUnchanged(p, original) && !BoundsUnchanged(b, p)
  }

  /** Whether a proposal drops evidence a member of a merged ad carries. */
  predicate Conflicts(c: Candidate, p: Span) {
    p.hi > p.lo && c.ad.mergedDistinct && exists i :: 0 <= i < |c.ad.members| && MemberConflict(c.ad.members[i], p)
  }

  function Proposed(c: Candidate, lo: Option<real>, hi: Option<real>): Span {
    Span(if lo.Some? then lo.value else c.span.lo, if hi.Some? then hi.value else c.span.hi)
  }

  function Clamp(c: Candidate, p: Span, env: Env): Span {
    ClampBounds(c.ad, p, c.span, env.cap, env.tr, env.cues, env.barriers)
  }

  /** _review_single, given the reply. */
  function ReviewSingle(c: Candidate, r: Reply, resurrection: bool, env: Env): (Verdict, Marker)
    requires !r.Raised?
  {
    match r
    case Abstained => (Blank(c, Inconclusive), Plain(c))
    case Unusable => (Blank(c, Failure), Plain(c))
    case NotAnAd => (Blank(c, Reject), Plain(c))
    case Kept(lo, hi, isAd, prose, answer) =>
      var p := Proposed(c, lo, hi);
      var b := Clamp(c, p, env);
      var flags := Flags(false, isAd, false, false, false);
      if Conflicts(c, p) then (Verdict(Adjust, c.span, Some(p), flags.(conflict := true), prose, answer), Plain(c))
      else if resurrection || BoundsUnchanged(b, c.span) then
        (Verdict(if resurrection then Resurrect else Confirmed, c.span, None,
                 flags.(clamped := ClampOverrode(p, c.span, b)), prose, answer), Plain(c))
      else
        (Verdict(Adjust, c.span, Some(b), flags, prose, answer),
         Marker(c, b, Moved, None,
                Some(Locks(lo.Some? && EdgeMatches(b.lo, p.lo), hi.Some? && EdgeMatches(b.hi, p.hi)))))
  }

  // ----- Bounds recovered from the prose -----

  datatype Recovery = NoTrim | Limited | Trim(span: Span)

  /** The checks a follow-up answer goes through before it counts as a trim. */
  function RecoverTrim(c: Candidate, prose: Prose, answer: Answer): Recovery {
    if (c.ad.mergedDistinct && c.legacyMerged) || !prose.trims || answer.NoAnswer? then NoTrim
    else if answer.LimitedAnswer? then Limited
    else
      var a := answer.span;
      if a.lo < c.span.lo - TRIM_RANGE_EPSILON_S || a.hi > c.span.hi + TRIM_RANGE_EPSILON_S then NoTrim
      else
        var p := Span(MaxReal(a.lo, c.span.lo), MinReal(a.hi, c.span.hi));
        if p.hi <= p.lo then NoTrim
        else
          var conflict := Conflicts(c, p);
          var q := if conflict || c.ad.cores == [] then p
                   else Span(MinReal(p.lo, LeastLo(c.ad.cores)), MaxReal(p.hi, GreatestHi(c.ad.cores)));
          if q.lo - c.span.lo + (c.span.hi - q.hi) <= CONFIRMED_BOUNDARY_TOLERANCE_S then NoTrim
          else if q.hi - q.lo < MIN_AD_DURATION_FOR_REMOVAL && !conflict then NoTrim
          else Trim(if conflict then q else MemberFloor(c.ad, q))
  }

  /** _hold_inward_limits: the three no-cross rules in one pass. */
  function HoldLimits(c: Candidate, b: Span, env: Env): Span {
    var wordless := Wordless(env.tr, c.span, c.ad);
    var measuredStarts := SnapStartLimit(c.ad.startSnap, c.span) + CueStartLimits(env.cues, c.span);
    var measuredEnds := SnapEndLimit(c.ad.endSnap, c.span) + CueEndLimits(env.cues, c.span);
    Span(HoldStarts(b.lo, AtAll(Los(wordless)) + measuredStarts + SilenceStarts(c.ad.silent, c.span), env.barriers),
         HoldEnds(b.hi, AtAll(His(wordless)) + measuredEnds + SilenceEnds(c.ad.silent, c.span), env.barriers))
  }

  // ----- Where an ad goes -----

  datatype Dest = Accepted | Rejected | HeldContradiction | HeldConflict | HeldEvidence | HeldInconclusive

  /** The verdict is None for an ad that skips the reviewer; Aborts is an exception leaving the loop. */
  datatype Routed = Aborts(rateLimited: bool) | To(dest: Dest, verdict: Option<Verdict>, marker: Marker)

  function Held(m: Marker, reason: Reason): Marker { m.(status := HeldFor(reason)) }

  /** An abstained or failed review; None when the routing goes on. */
  function Settle(v: Verdict, m: Marker, checkSupport: bool): Option<Routed> {
    if v.kind != Inconclusive && v.kind != Failure then None
    else if checkSupport && m.c.support.CheckRaises? then Some(Aborts(false))
    else if checkSupport && m.c.support.Backed? then
      if v.kind == Failure then Some(To(Accepted, Some(v), m)) else None
    else
      Some(To(HeldInconclusive, Some(v.(flags := v.flags.(inconclusiveHold := true))),
              Held(m, if v.kind == Failure then ReviewerFailed else InconclusiveBounds)))
  }

  function ConflictHold(m: Marker, v: Verdict): Marker { Held(m, BoundaryConflict).(proposed := v.adjusted) }

  function RouteContradiction(v: Verdict, m: Marker, env: Env): Routed {
    var rec := if v.kind == Confirmed then RecoverTrim(m.c, v.prose, v.answer) else NoTrim;
    if rec.Limited? then Aborts(true)
    else
      var w := if rec.Trim? then v.(adjusted := Some(HoldLimits(m.c, rec.span, env))) else v;
      To(HeldContradiction, Some(w), Held(m, Contradiction).(proposed := w.adjusted))
  }

  function RouteAffirmed(v: Verdict, m: Marker, env: Env): Routed {
    var rec := RecoverTrim(m.c, v.prose, v.answer);
    if rec.Limited? then Aborts(true)
    else if rec.NoTrim? then To(Accepted, Some(v), m)
    else if Conflicts(m.c, rec.span) then
      var w := v.(kind := Adjust, adjusted := Some(rec.span), flags := v.flags.(conflict := true));
      To(HeldConflict, Some(w), ConflictHold(m, w))
    else
      var b := Clamp(m.c, rec.span, env);
      if BoundsUnchanged(b, v.original) then To(Accepted, Some(v), m)
      else
        To(Accepted, Some(v.(kind := Adjust, adjusted := Some(b))),
           Marker(m.c, b, Moved, None, Some(Locks(false, false))))
  }

  predicate Contradicted(v: Verdict) {
    (v.kind == Confirmed || v.kind == Adjust) && !v.flags.structuredAd && v.prose.contradicts
  }

  function Route(v: Verdict, m: Marker, env: Env): Routed {
    var settled := Settle(v, m, true);
    if settled.Some? then settled.value
    else if v.kind == Reject then
      if m.c.evidence then To(HeldEvidence, Some(v.(flags := v.flags.(rejectHold := true))), Held(m, RejectConflict))
      else To(Rejected, Some(v), m.(status := RejectedMark))
    else if v.flags.conflict then To(HeldConflict, Some(v), ConflictHold(m, v))
    else if Contradicted(v) then RouteContradiction(v, m, env)
    else if v.kind == Confirmed && env.pass == 1 && !v.flags.clamped && v.prose.affirms && v.prose.trims then
      RouteAffirmed(v, m, env)
    else To(Accepted, Some(v), m)
  }

  /** One accepted-pool ad, reply to destination. */
  function RouteAd(c: Candidate, r: Reply, env: Env): Routed {
    if Skips(c) then To(Accepted, None, Plain(c))
    else if r.Raised? then Aborts(r.rateLimited)
    else
      var (v, m) := ReviewSingle(c, r, false, env);
      Route(v, m, env)
  }

  /** The batch-failure rule for one ad. */
  function FailAd(c: Candidate, checkSupport: bool): Routed {
    if Skips(c) then To(Accepted, None, Plain(c))
    else
      var settled := Settle(Blank(c, Failure), Plain(c), checkSupport);
      if settled.Some? then settled.value else Aborts(false)
  }

  // ----- What each list means -----

  /** Which reply sends an ad where, for every ad the reviewer sees. */
  lemma DestinationsExactly(c: Candidate, r: Reply, env: Env)
    requires !Skips(c) && RouteAd(c, r, env).To?
    ensures !r.Raised?
    ensures var d := RouteAd(c, r, env).dest;
            && (d == Rejected <==> r.NotAnAd? && !c.evidence)
            && (d == HeldEvidence <==> r.NotAnAd? && c.evidence)
            && (d == HeldInconclusive <==> (r.Abstained? || r.Unusable?) && c.support.Unbacked?)
            && (d == HeldContradiction <==>
                  r.Kept? && !Conflicts(c, Proposed(c, r.lo, r.hi)) && !r.isAd && r.prose.contradicts)
            && (d == HeldConflict <==>
                  r.Kept? && (Conflicts(c, Proposed(c, r.lo, r.hi)) || RecoveredConflict(c, r, env)))
  {
    hide Clamp, Conflicts, RecoverTrim, HoldLimits;
  }

  /** Pass 1 only: an affirmed ad whose recovered trim drops member evidence. */
  predicate RecoveredConflict(c: Candidate, r: Reply, env: Env)
    requires r.Kept?
  {
    var p := Proposed(c, r.lo, r.hi);
    var rec := RecoverTrim(c, r.prose, r.answer);
    && (r.isAd || !r.prose.contradicts) && r.prose.affirms && r.prose.trims && env.pass == 1
    && BoundsUnchanged(Clamp(c, p, env), c.span) && !ClampOverrode(p, c.span, Clamp(c, p, env))
    && rec.Trim? && Conflicts(c, rec.span)
  }

  /** Bounds an accepted ad may have: untouched, or a clamped request that drops no member evidence. */
  ghost predicate ClampedFrom(m: Marker, p: Span, env: Env) {
    m.span == Clamp(m.c, p, env) && !Conflicts(m.c, p)
  }

  /** The spans a reply can ask for: its own bounds, or the trim its prose describes. */
  ghost predicate AskedFor(c: Candidate, r: Reply, p: Span) {
    r.Kept? && (p == Proposed(c, r.lo, r.hi) || RecoverTrim(c, r.prose, r.answer) == Trim(p))
  }

  lemma AcceptedBounds(c: Candidate, r: Reply, env: Env)
    requires RouteAd(c, r, env).To? && RouteAd(c, r, env).dest == Accepted
    ensures var m := RouteAd(c, r, env).marker;
            && m.c == c
            && (m == Plain(c) || (m.status == Moved && exists p :: AskedFor(c, r, p) && ClampedFrom(m, p, env)))
  {
    hide ClampBounds, Conflicts, RecoverTrim, HoldLimits;
    var m := RouteAd(c, r, env).marker;
    if m != Plain(c) {
      var p := Proposed(c, r.lo, r.hi);
      if m.span == Clamp(c, p, env) && !Conflicts(c, p) {
        assert AskedFor(c, r, p) && ClampedFrom(m, p, env);
      } else {
        var rec := RecoverTrim(c, r.prose, r.answer);
        assert AskedFor(c, r, rec.span) && ClampedFrom(m, rec.span, env);
      }
    }
  }

  /**
   * A held ad keeps its own bounds and says what was proposed; only a contradicted
   * adjust is held on the bounds it proposed.
   */
  lemma HeldAdsKeepTheirBounds(c: Candidate, r: Reply, env: Env)
    requires RouteAd(c, r, env).To?
    ensures var d, m := RouteAd(c, r, env).dest, RouteAd(c, r, env).marker;
            && (m.status.HeldFor? <==> d != Accepted && d != Rejected)
            && (d == Rejected || d == HeldEvidence || d == HeldInconclusive ==> m.span == c.span && m.proposed.None?)
            && (d == HeldConflict ==> m.span == c.span && m.proposed.Some? && Conflicts(c, m.proposed.value))
            && (d == HeldContradiction ==> m.span == c.span || m.proposed == Some(m.span))
            && (d == HeldInconclusive ==>
                  (m.status == HeldFor(ReviewerFailed) <==> r.Unusable?)
                  && (m.status == HeldFor(InconclusiveBounds) <==> r.Abstained?))
  {
    hide Clamp, Conflicts, RecoverTrim, HoldLimits;
  }

  // ----- What no reply can do to a cut -----

  ghost predicate MembersInside(c: Candidate) {
    forall i :: 0 <= i < |c.ad.members| ==>
      c.span.lo <= c.ad.members[i].span.lo <= c.ad.members[i].span.hi <= c.span.hi
  }

  /** The cut is real, takes no kept audio beyond its candidate, and keeps every member's evidence. */
  ghost predicate SafeCut(m: Marker, env: Env) {
    && m.span.lo < m.span.hi
    && (forall t :: m.span.Has(t) && !m.c.span.Has(t) ==> !Covers(env.barriers, t))
    && (m.c.ad.mergedDistinct && MembersInside(m.c) ==>
          forall i :: 0 <= i < |m.c.ad.members| ==> !MemberConflict(m.c.ad.members[i], m.span))
  }

  lemma OriginalKeepsMembers(member: Member, original: Span)
    requires original.lo <= member.span.lo <= member.span.hi <= original.hi
    ensures !MemberConflict(member, original)
  {
  }

  /** Capping moves a proposal toward the candidate, so evidence it keeps stays kept. */
  lemma CappedKeepsMembers(member: Member, p: Span, original: Span, cap: real)
    requires original.lo <= member.span.lo <= member.span.hi <= original.hi && cap >= 0.0
    requires p.hi <= p.lo || !MemberConflict(member, p)
    ensures !MemberConflict(member, Capped(p, original, cap))
  {
    OriginalKeepsMembers(member, original);
  }

  lemma ClampedCutIsSafe(m: Marker, p: Span, env: Env)
    requires m.c.span.lo < m.c.span.hi && env.cap >= 0.0 && ClampedFrom(m, p, env)
    ensures SafeCut(m, env)
  {
    hide ClampBounds, Capped, MemberConflict;
    var c := m.c;
    NeverTrimsMoreThanAsked(c.ad, p, c.span, env.cap, env.tr, env.cues, env.barriers);
    forall t | m.span.Has(t) && !c.span.Has(t) ensures !Covers(env.barriers, t) {
      NeverEntersKeptAudio(c.ad, p, c.span, env.cap, env.tr, env.cues, env.barriers, t);
    }
    if c.ad.mergedDistinct && MembersInside(c) {
      forall i | 0 <= i < |c.ad.members| ensures !MemberConflict(c.ad.members[i], m.span) {
        CappedKeepsMembers(c.ad.members[i], p, c.span, env.cap);
        RespectedMembersStayRespected(c.ad, p, c.span, env.cap, env.tr, env.cues, env.barriers, c.ad.members[i]);
      }
    }
  }

  /** For every reply, an ad that stays accepted is a safe cut. */
  lemma AcceptedCutsAreSafe(c: Candidate, r: Reply, env: Env)
    requires c.span.lo < c.span.hi && env.cap >= 0.0
    requires RouteAd(c, r, env).To? && RouteAd(c, r, env).dest == Accepted
    ensures SafeCut(RouteAd(c, r, env).marker, env)
  {
    hide RouteAd, MemberConflict, Clamp;
    AcceptedBounds(c, r, env);
    var m := RouteAd(c, r, env).marker;
    if m == Plain(c) {
      if MembersInside(c) {
        forall i | 0 <= i < |c.ad.members| ensures !MemberConflict(c.ad.members[i], m.span) {
          OriginalKeepsMembers(c.ad.members[i], c.span);
        }
      }
    } else {
      var p :| AskedFor(c, r, p) && ClampedFrom(m, p, env);
      ClampedCutIsSafe(m, p, env);
    }
  }

  /** The bounds a contradiction hold offers trim no more than the prose asked for. */
  lemma OfferedTrimIsHeld(c: Candidate, b: Span, env: Env)
    ensures KeepsInside(HoldLimits(c, b, env), b, c.span)
  {
    hide HoldStarts, HoldEnds, Wordless, CueStartLimits, CueEndLimits, SilenceStarts, SilenceEnds;
    var wordless := Wordless(env.tr, c.span, c.ad);
    CueLimitsAllowed(env.cues, c.span);
    SilenceLimitsAllowed(c.ad.silent, c.span);
    var starts := AtAll(Los(wordless)) + (SnapStartLimit(c.ad.startSnap, c.span) + CueStartLimits(env.cues, c.span))
                  + SilenceStarts(c.ad.silent, c.span);
    var ends := AtAll(His(wordless)) + (SnapEndLimit(c.ad.endSnap, c.span) + CueEndLimits(env.cues, c.span))
                + SilenceEnds(c.ad.silent, c.span);
    HoldsKeepInside(b.lo, starts, env.barriers, c.span.lo);
    EndHoldsKeepInside(b.hi, ends, env.barriers, c.span.hi);
  }
}
