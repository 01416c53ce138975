/** The marker each reviewed ad ends with, told from its reply. */
module ReviewMarkers {
  import opened Basics
  import opened Spans
  import opened EdgeIndex
  import opened EdgeHolds
  import opened ReviewerClamp
  import opened ReviewVerdicts
  import opened ClampEffects

  /** An edge lies more than a tenth of a second from where it was. */
  ghost predicate Moves(b: Span, original: Span) {
    || b.lo < original.lo - CONFIRMED_BOUNDARY_TOLERANCE_S || b.lo > original.lo + CONFIRMED_BOUNDARY_TOLERANCE_S
    || b.hi < original.hi - CONFIRMED_BOUNDARY_TOLERANCE_S || b.hi > original.hi + CONFIRMED_BOUNDARY_TOLERANCE_S
  }

  lemma MovesIs(b: Span, original: Span)
    ensures BoundsUnchanged(b, original) <==> !Moves(b, original)
  {
  }

  /** The bounds a reply asks for, with the candidate's own where it names none. */
  ghost predicate AsksFor(c: Candidate, r: Reply, p: Span) {
    && r.Kept?
    && (r.lo == Some(p.lo) || (r.lo.None? && p.lo == c.span.lo))
    && (r.hi == Some(p.hi) || (r.hi.None? && p.hi == c.span.hi))
  }

  /** A reply locks the edge it named when the clamp left that edge where it asked. */
  ghost predicate LocksAsked(r: Reply, b: Span, l: Locks)
    requires r.Kept?
  {
    && (l.start <==> r.lo.Some? && r.lo.value - EDGE_TOLERANCE <= b.lo <= r.lo.value + EDGE_TOLERANCE)
    && (l.end <==> r.hi.Some? && r.hi.value - EDGE_TOLERANCE <= b.hi <= r.hi.value + EDGE_TOLERANCE)
  }

  /** The clamp moved a request that was itself a move. */
  ghost predicate Overridden(p: Span, original: Span, b: Span) {
    p.lo < p.hi && Moves(p, original) && Moves(b, p)
  }

  /** In pass 1, the trim the prose of an affirmed and unmoved ad describes. */
  ghost predicate Recovers(c: Candidate, r: Reply, p: Span, env: Env, q: Span) {
    && r.Kept? && env.pass == 1 && r.prose.affirms && r.prose.trims
    && !Moves(Clamp(c, p, env), c.span) && !Overridden(p, c.span, Clamp(c, p, env))
    && RecoverTrim(c, r.prose, r.answer) == Trim(q)
  }

  /** The marker and verdict of an ad moved to the clamp of its reply's own bounds. */
  ghost predicate MovedAsAsked(c: Candidate, r: Reply, b: Span, routed: Routed) {
    && r.Kept? && routed.To? && routed.verdict.Some? && routed.verdict.value.kind == Adjust
    && routed.verdict.value.adjusted == Some(b)
    && routed.marker.c == c && routed.marker.span == b && routed.marker.status == Moved && routed.marker.proposed.None?
    && routed.marker.locks.Some? && LocksAsked(r, b, routed.marker.locks.value)
  }

  /** The marker and verdict of an ad moved to the clamp of a recovered trim: no edge is locked. */
  ghost predicate MovedAsRecovered(c: Candidate, b: Span, routed: Routed) {
    && routed.To? && routed.verdict.Some? && routed.verdict.value.kind == Adjust
    && routed.verdict.value.adjusted == Some(b)
    && routed.marker == Marker(c, b, Moved, None, Some(Locks(false, false)))
  }

  ghost predicate LeftAsItWas(c: Candidate, routed: Routed) {
    && routed.To? && routed.marker == Marker(c, c.span, Untouched, None, None)
    && (routed.verdict.Some? ==> routed.verdict.value.adjusted.None? && routed.verdict.value.kind != Adjust)
  }

  /** The reviewer is not asked about what a person confirmed or a cue pair matched. */
  ghost predicate Exempt(c: Candidate) { c.userConfirmed || c.cueMatch }

  /** What an accepted ad looks like, for every reply; p is what the reply asks for. */
  lemma AcceptedMarkersExactly(c: Candidate, r: Reply, env: Env, p: Span)
    requires RouteAd(c, r, env).To? && RouteAd(c, r, env).dest == Accepted
    requires r.Kept? ==> AsksFor(c, r, p)
    ensures var routed := RouteAd(c, r, env);
      && (Exempt(c) ==> LeftAsItWas(c, routed) && routed.verdict.None?)
      && (!Exempt(c) && !r.Kept? ==> LeftAsItWas(c, routed) && (r.Abstained? || r.Unusable?) && c.support.Backed?)
      && (!Exempt(c) && r.Kept? && Moves(Clamp(c, p, env), c.span) ==> MovedAsAsked(c, r, Clamp(c, p, env), routed))
      && (!Exempt(c) && r.Kept? ==> forall q :: Recovers(c, r, p, env, q) && Moves(Clamp(c, q, env), c.span) ==>
            MovedAsRecovered(c, Clamp(c, q, env), routed))
      && (!Exempt(c) && r.Kept? && !Moves(Clamp(c, p, env), c.span) ==>
            (exists q :: Recovers(c, r, p, env, q) && Moves(Clamp(c, q, env), c.span)) || LeftAsItWas(c, routed))
  {
    hide ClampBounds, Conflicts, RecoverTrim, HoldLimits;
    if !Skips(c) && r.Kept? {
      AskedIs(c, r, p);
      AllMoves();
      hide Moves;
      var rec := RecoverTrim(c, r.prose, r.answer);
      assert rec.Trim? ==> rec == Trim(rec.span);
    }
  }

  lemma AllMoves()
    ensures forall b, original :: BoundsUnchanged(b, original) <==> !Moves(b, original)
  {
  }

  lemma AskedIs(c: Candidate, r: Reply, p: Span)
    requires AsksFor(c, r, p)
    ensures p == Proposed(c, r.lo, r.hi)
  {
  }

  /** The one span each reply asks for. */
  lemma SomeAsked(c: Candidate, r: Reply)
    requires r.Kept?
    ensures AsksFor(c, r, Proposed(c, r.lo, r.hi))
  {
  }

  // ----- Held ads -----

  /**
   * The marker of a contradicted ad: on the bounds asked for if they moved it, else as it was, with the trim to
   * offer.
   */
  ghost predicate ContradictionHeld(c: Candidate, r: Reply, env: Env, p: Span, routed: Routed)
    requires r.Kept?
  {
    var b := Clamp(c, p, env);
    && routed.To? && routed.verdict.Some? && routed.marker.c == c && routed.marker.status == HeldFor(Contradiction)
    && routed.marker.proposed == routed.verdict.value.adjusted
    && (if Moves(b, c.span) then
          && routed.marker.span == b && routed.marker.proposed == Some(b)
          && routed.marker.locks.Some? && LocksAsked(r, b, routed.marker.locks.value)
        else
          && routed.marker.span == c.span && routed.marker.locks.None?
          && match RecoverTrim(c, r.prose, r.answer)
             case Trim(q) => routed.marker.proposed == Some(HoldLimits(c, q, env))
             case _ => routed.marker.proposed.None?)
  }

  ghost predicate ConflictHeld(c: Candidate, p: Span, routed: Routed) {
    && routed.To? && routed.verdict.Some? && routed.verdict.value.adjusted == Some(p)
    && routed.marker == Marker(c, c.span, HeldFor(BoundaryConflict), Some(p), None)
  }

  /** What an ad that is not accepted looks like, for every reply. */
  lemma HeldMarkersExactly(c: Candidate, r: Reply, env: Env, p: Span)
    requires RouteAd(c, r, env).To?
    requires r.Kept? ==> AsksFor(c, r, p)
    ensures var routed := RouteAd(c, r, env);
      && (routed.dest == HeldContradiction ==> r.Kept? && ContradictionHeld(c, r, env, p, routed))
      && (routed.dest == HeldConflict ==>
            r.Kept? && (if Conflicts(c, p) then ConflictHeld(c, p, routed)
                        else exists q :: Recovers(c, r, p, env, q) && Conflicts(c, q) && ConflictHeld(c, q, routed)))
      && (routed.dest == HeldEvidence ==> routed.marker == Marker(c, c.span, HeldFor(RejectConflict), None, None))
      && (routed.dest == Rejected ==> routed.marker == Marker(c, c.span, RejectedMark, None, None))
      && (routed.dest == HeldInconclusive ==>
            routed.marker == Marker(c, c.span, HeldFor(if r.Unusable? then ReviewerFailed else InconclusiveBounds),
                                    None, None))
  {
    hide ClampBounds, Conflicts, RecoverTrim, HoldLimits;
    if !Skips(c) && r.Kept? {
      AskedIs(c, r, p);
      AllMoves();
      hide Moves;
      var rec := RecoverTrim(c, r.prose, r.answer);
      if rec.Trim? {
        assert rec == Trim(rec.span);
        assert RouteAd(c, r, env).dest == HeldConflict && !Conflicts(c, p) ==> Recovers(c, r, p, env, rec.span);
      }
    }
  }

  // ----- Verdicts -----

  /** The reply is contradicted by its own prose, and does not say in its structured part that this is an ad. */
  ghost predicate Contradicts(r: Reply) { r.Kept? && !r.isAd && r.prose.contradicts }

  /** The verdict a reply gets, for the list its ad ends on. */
  ghost predicate VerdictOf(c: Candidate, r: Reply, env: Env, p: Span, dest: Dest, v: Verdict) {
    && v.original == c.span
    && (v.kind == Inconclusive <==> r.Abstained?) && (v.kind == Failure <==> r.Unusable?)
    && (v.kind == Reject <==> r.NotAnAd?) && v.kind != Resurrect
    && v.prose == (if r.Kept? then r.prose else Prose(false, false, false))
    && v.answer == (if r.Kept? then r.answer else NoAnswer)
    && (v.flags.structuredAd <==> r.Kept? && r.isAd)
    && (v.flags.conflict <==> dest == HeldConflict)
    && (v.flags.rejectHold <==> dest == HeldEvidence) && (v.flags.inconclusiveHold <==> dest == HeldInconclusive)
    && (v.flags.clamped <==> r.Kept? && !Conflicts(c, p) && !Moves(Clamp(c, p, env), c.span)
                             && Overridden(p, c.span, Clamp(c, p, env)))
    && (v.adjusted.None? ==> v.kind != Adjust)
    && (v.adjusted.Some? && !Contradicts(r) ==> v.kind == Adjust)
  }

  /** Every verdict of an ad the reviewer is asked about; an exempt ad has none. */
  lemma VerdictsAre(c: Candidate, r: Reply, env: Env, p: Span)
    requires RouteAd(c, r, env).To?
    requires r.Kept? ==> AsksFor(c, r, p)
    ensures var routed := RouteAd(c, r, env);
      && (routed.verdict.Some? <==> !Exempt(c))
      && (!Exempt(c) ==> VerdictOf(c, r, env, p, routed.dest, routed.verdict.value))
  {
    hide ClampBounds, Conflicts, RecoverTrim, HoldLimits;
    if !Skips(c) && r.Kept? {
      AskedIs(c, r, p);
      AllMoves();
      hide Moves;
    }
  }

  /** The follow-up is asked: the prose contradicts a confirmed ad, or in pass 1 affirms one and speaks of a trim. */
  ghost predicate AsksAgain(c: Candidate, r: Reply, env: Env, p: Span) {
    && r.Kept? && !Conflicts(c, p) && !Moves(Clamp(c, p, env), c.span)
    && (|| Contradicts(r)
        || (env.pass == 1 && r.prose.affirms && r.prose.trims && !Overridden(p, c.span, Clamp(c, p, env))))
  }

  /** An exception leaves the loop exactly when the review or the support check raised, or the follow-up was limited. */
  lemma AbortsExactly(c: Candidate, r: Reply, env: Env, p: Span)
    requires r.Kept? ==> AsksFor(c, r, p)
    ensures RouteAd(c, r, env) == Aborts(true)
       <==> !Exempt(c) && (r == Raised(true) || (AsksAgain(c, r, env, p) && RecoverTrim(c, r.prose, r.answer).Limited?))
    ensures RouteAd(c, r, env) == Aborts(false)
       <==> !Exempt(c) && (r == Raised(false) || ((r.Abstained? || r.Unusable?) && c.support.CheckRaises?))
  {
    hide ClampBounds, Conflicts, RecoverTrim, HoldLimits;
    if !Skips(c) && r.Kept? {
      AskedIs(c, r, p);
      AllMoves();
      hide Moves;
    }
  }

  /** The follow-up counts as limited when it was asked for and hit the rate limit. */
  lemma LimitedIs(c: Candidate, prose: Prose, answer: Answer)
    ensures RecoverTrim(c, prose, answer).Limited?
       <==> !(c.ad.mergedDistinct && c.legacyMerged) && prose.trims && answer.LimitedAnswer?
  {
  }

  // ----- What a conflict is -----

  /** p keeps too little of a member: by its stage, under 10 s and under half, or over 0.1 s or 3 s of it lost. */
  ghost predicate Drops(m: Member, p: Span) {
    var length, kept := m.span.hi - m.span.lo, MinReal(p.hi, m.span.hi) - MaxReal(p.lo, m.span.lo);
    match m.stage
    case Coarse => kept < MIN_AD_DURATION_FOR_REMOVAL && kept + kept < length
    case Legacy => length - kept > CONFIRMED_BOUNDARY_TOLERANCE_S
    case Measured => kept + kept < length || length - kept > MEASURED_MEMBER_TOLERANCE_S
  }

  lemma ConflictsAre(c: Candidate, p: Span)
    ensures Conflicts(c, p) <==> p.lo < p.hi && c.ad.mergedDistinct && exists m :: m in c.ad.members && Drops(m, p)
  {
    forall m ensures MemberConflict(m, p) <==> Drops(m, p) {
    }
    hide MemberConflict, Drops;
    if i :| 0 <= i < |c.ad.members| && MemberConflict(c.ad.members[i], p) {
      assert c.ad.members[i] in c.ad.members;
    }
  }

  // ----- The trim recovered from the prose -----

  /** w is p widened just enough to hold every measured region. */
  ghost predicate WidenedToCores(ad: Ad, p: Span, w: Span) {
    && w.lo <= p.lo && p.hi <= w.hi
    && (forall s :: s in ad.cores ==> w.lo <= s.lo && s.hi <= w.hi)
    && (w.lo == p.lo || exists s :: s in ad.cores && w.lo == s.lo)
    && (w.hi == p.hi || exists s :: s in ad.cores && w.hi == s.hi)
  }

  ghost predicate Trims(c: Candidate, w: Span) {
    (w.lo - c.span.lo) + (c.span.hi - w.hi) > CONFIRMED_BOUNDARY_TOLERANCE_S
  }

  /** p is the part of the answer in the candidate, and the answer goes at most half a second outside. */
  ghost predicate AnswerIn(c: Candidate, a: Span, p: Span) {
    && c.span.lo - TRIM_RANGE_EPSILON_S <= a.lo && a.hi <= c.span.hi + TRIM_RANGE_EPSILON_S
    && p == Span(MaxReal(a.lo, c.span.lo), MinReal(a.hi, c.span.hi)) && p.lo < p.hi
  }

  /**
   * What a follow-up answer is worth: a conflict as it stands, or what holds the regions and members of ten seconds.
   */
  ghost predicate TrimFrom(c: Candidate, p: Span, q: Span) {
    if Conflicts(c, p) then q == p && Trims(c, p)
    else
      exists w :: WidenedToCores(c.ad, p, w) && Trims(c, w) && w.hi - w.lo >= MIN_AD_DURATION_FOR_REMOVAL
                  && WidenedToMembers(c.ad, w, q)
  }

  lemma CoresOnce(ad: Ad, p: Span, w: Span)
    requires ad.cores != []
    ensures WidenedToCores(ad, p, w)
       <==> w == Span(MinReal(p.lo, LeastLo(ad.cores)), MaxReal(p.hi, GreatestHi(ad.cores)))
  {
    hide LeastLo, GreatestHi;
    var lo, hi := LeastLo(ad.cores), GreatestHi(ad.cores);
    var i :| 0 <= i < |ad.cores| && lo == ad.cores[i].lo;
    var j :| 0 <= j < |ad.cores| && hi == ad.cores[j].hi;
    assert ad.cores[i] in ad.cores && ad.cores[j] in ad.cores;
  }

  lemma NoCores(ad: Ad, p: Span, w: Span)
    requires ad.cores == []
    ensures WidenedToCores(ad, p, w) <==> w == p
  {
  }

  lemma MembersOnce(ad: Ad, w: Span, q: Span)
    ensures WidenedToMembers(ad, w, q) <==> q == MemberFloor(ad, w)
  {
    MemberFloorIs(ad, w);
    hide MemberFloor, KeepsMember;
    if WidenedToMembers(ad, w, q) {
      var r := MemberFloor(ad, w);
      assert q.lo == r.lo && q.hi == r.hi;
    }
  }

  /** TrimFrom with its only possible widened span filled in. */
  lemma TrimFromIs(c: Candidate, p: Span, q: Span)
    ensures var w := if c.ad.cores == [] then p
                     else Span(MinReal(p.lo, LeastLo(c.ad.cores)), MaxReal(p.hi, GreatestHi(c.ad.cores)));
      TrimFrom(c, p, q)
      <==> if Conflicts(c, p) then q == p && Trims(c, p)
           else Trims(c, w) && w.hi - w.lo >= MIN_AD_DURATION_FOR_REMOVAL && q == MemberFloor(c.ad, w)
  {
    hide Conflicts, MemberFloor, LeastLo, GreatestHi, WidenedToCores, WidenedToMembers, Trims;
    var w := if c.ad.cores == [] then p
             else Span(MinReal(p.lo, LeastLo(c.ad.cores)), MaxReal(p.hi, GreatestHi(c.ad.cores)));
    forall v ensures WidenedToCores(c.ad, p, v) <==> v == w {
      if c.ad.cores == [] {
        NoCores(c.ad, p, v);
      } else {
        CoresOnce(c.ad, p, v);
      }
    }
    MembersOnce(c.ad, w, q);
  }

  /** A trim is recovered exactly when the answer gives one, and it is the one the evidence allows. */
  lemma RecoveredTrimIs(c: Candidate, prose: Prose, answer: Answer, q: Span)
    ensures RecoverTrim(c, prose, answer) == Trim(q)
       <==> && !(c.ad.mergedDistinct && c.legacyMerged) && prose.trims && answer.SpanAnswer?
            && exists p :: AnswerIn(c, answer.span, p) && TrimFrom(c, p, q)
  {
    hide Conflicts, MemberFloor, LeastLo, GreatestHi, TrimFrom;
    if answer.SpanAnswer? {
      var p := Span(MaxReal(answer.span.lo, c.span.lo), MinReal(answer.span.hi, c.span.hi));
      TrimFromIs(c, p, q);
      assert AnswerIn(c, answer.span, p) && TrimFrom(c, p, q) ==>
        exists o :: AnswerIn(c, answer.span, o) && TrimFrom(c, o, q);
    }
  }

  // ----- The trim offered with a contradiction -----

  function StartLimits(c: Candidate, env: Env): seq<Limit> {
    AtAll(Los(Wordless(env.tr, c.span, c.ad)))
    + (SnapStartLimit(c.ad.startSnap, c.span) + CueStartLimits(env.cues, c.span))
    + SilenceStarts(c.ad.silent, c.span)
  }

  function EndLimits(c: Candidate, env: Env): seq<Limit> {
    AtAll(His(Wordless(env.tr, c.span, c.ad)))
    + (SnapEndLimit(c.ad.endSnap, c.span) + CueEndLimits(env.cues, c.span))
    + SilenceEnds(c.ad.silent, c.span)
  }

  /** Every limit of the evidence holds the offered trim, and without a limit past it an edge is offered as it is. */
  lemma OfferedTrimStopsAtLimits(c: Candidate, b: Span, env: Env, l: Limit)
    ensures var h := HoldLimits(c, b, env);
      && (l in StartLimits(c, env) ==> HeldBack(h.lo, b.lo, l, env.barriers, c.span.lo))
      && (l in EndLimits(c, env) ==> HeldUp(h.hi, b.hi, l, env.barriers, c.span.hi))
      && ((forall k :: k in StartLimits(c, env) ==> b.lo <= k.edge) ==> h.lo == b.lo)
      && ((forall k :: k in EndLimits(c, env) ==> k.edge <= b.hi) ==> h.hi == b.hi)
  {
    hide HoldStarts, HoldEnds, Wordless, CueStartLimits, CueEndLimits, SilenceStarts, SilenceEnds, HeldBack, HeldUp;
    CueLimitsAllowed(env.cues, c.span);
    SilenceLimitsAllowed(c.ad.silent, c.span);
    if l in StartLimits(c, env) {
      HoldsReach(b.lo, StartLimits(c, env), env.barriers, c.span.lo, l);
    }
    if l in EndLimits(c, env) {
      EndHoldsReach(b.hi, EndLimits(c, env), env.barriers, c.span.hi, l);
    }
    if forall k :: k in StartLimits(c, env) ==> b.lo <= k.edge {
      HoldsStay(b.lo, StartLimits(c, env), env.barriers);
    }
    if forall k :: k in EndLimits(c, env) ==> k.edge <= b.hi {
      EndHoldsStay(b.hi, EndLimits(c, env), env.barriers);
    }
  }
}
