/**
 * The merged cuts and the applied seconds told from the requested pieces alone: which join, which stay, which run on.
 */
module AppliedGroups {
  import opened Basics
  import opened Spans
  import opened AppliedCuts
  import opened AppliedCutsProofs

  // ----- Pieces and gaps -----

  /** A quote or a timed word lies within tolerance of the edge. */
  ghost predicate Pinned(pins: Pins, edge: real) {
    exists v: real :: edge - EDGE_TOLERANCE <= v <= edge + EDGE_TOLERANCE
                      && (pins.quote == Some(v) || pins.word == Some(v))
  }

  /** The start is confirmed by a person, pinned, or locked by a reviewer who did not want it earlier. */
  ghost predicate StartFixed(p: Segment) {
    p.userConfirmed || Pinned(p.startPins, p.start)
    || (p.startPins.lock.Some? && p.startPins.lock.value <= p.start + EDGE_TOLERANCE)
  }

  ghost predicate EndFixed(p: Segment) {
    p.userConfirmed || Pinned(p.endPins, p.end)
    || (p.endPins.lock.Some? && p.end - EDGE_TOLERANCE <= p.endPins.lock.value)
  }

  lemma FixedEdges(p: Segment)
    ensures StartFixed(p) <==> p.userConfirmed || PreciseStart(p)
    ensures EndFixed(p) <==> p.userConfirmed || PreciseEnd(p)
  {
    NearIsPinned(p.startPins, p.start);
    NearIsPinned(p.endPins, p.end);
    hide Near, Pinned;
  }

  lemma NearIsPinned(pins: Pins, edge: real)
    ensures Pinned(pins, edge) <==> Near(pins.quote, edge) || Near(pins.word, edge)
  {
    if Near(pins.quote, edge) {
      assert pins.quote == Some(pins.quote.value);
    }
    if Near(pins.word, edge) {
      assert pins.word == Some(pins.word.value);
    }
  }

  /** No barrier reaches into the stretch from lo to hi. */
  ghost predicate Clear(barriers: seq<Span>, lo: real, hi: real) {
    lo < hi ==> forall b :: b in barriers ==> b.hi <= lo || hi <= b.lo
  }

  lemma ClearIsUncrossed(barriers: seq<Span>, lo: real, hi: real)
    ensures Clear(barriers, lo, hi) <==> !Crosses(barriers, lo, hi)
  {
    assert forall i :: 0 <= i < |barriers| ==> barriers[i] in barriers;
  }

  /** Piece s is the first of the group to reach its greatest end. */
  ghost predicate SetsEnd(g: seq<Segment>, s: nat) {
    && s < |g| && (forall k :: 0 <= k < |g| ==> g[k].end <= g[s].end)
    && (forall k :: 0 <= k < s ==> g[k].end < g[s].end)
  }

  /**
   * p joins the group: of its kind, less than a second past its end, with nothing between and, over a gap, no fixed
   * edge.
   */
  ghost predicate Continues(g: seq<Segment>, p: Segment, barriers: seq<Span>) {
    exists s: nat :: SetsEnd(g, s) && ContinuesFrom(g, s, p, barriers)
  }

  ghost predicate ContinuesFrom(g: seq<Segment>, s: nat, p: Segment, barriers: seq<Span>)
    requires s < |g|
  {
    && p.beep == g[0].beep && p.start < g[s].end + MERGE_GAP_SECONDS && Clear(barriers, g[s].end, p.start)
    && (g[s].end < p.start ==> !EndFixed(g[s]) && !StartFixed(p))
  }

  // ----- The merged cut of a group -----

  ghost predicate Fingerprinted(g: seq<Segment>) { exists k :: 0 <= k < |g| && g[k].stage == Fingerprint }

  ghost predicate Split(g: seq<Segment>) { exists k :: 0 <= k < |g| && g[k].measuredSplit }

  ghost predicate MostConfident(g: seq<Segment>, x: real) {
    (forall k :: 0 <= k < |g| ==> g[k].confidence <= x) && exists k :: 0 <= k < |g| && g[k].confidence == x
  }

  ghost predicate EndIs(c: Cut, g: seq<Segment>, s: nat) {
    && SetsEnd(g, s) && c.end == g[s].end && c.confirmedEnd == g[s].userConfirmed
    && (c.confirmedEnd || c.preciseEnd <==> EndFixed(g[s])) && c.lockedEnd == EndFixed(g[s])
  }

  ghost predicate CutOf(c: Cut, g: seq<Segment>) {
    && g != [] && c.start == g[0].start && c.beep == g[0].beep && c.lockedStart == StartFixed(g[0])
    && (exists s: nat :: EndIs(c, g, s))
    && MostConfident(g, c.confidence) && c.measuredSplit == Split(g)
    && c.stage == if Fingerprinted(g) then Fingerprint else g[0].stage
  }

  ghost predicate Chained(g: seq<Segment>, barriers: seq<Span>) {
    g != [] && forall k :: 0 < k < |g| ==> Continues(g[..k], g[k], barriers)
  }

  ghost function Flat(gs: seq<seq<Segment>>): seq<Segment> {
    if gs == [] then [] else gs[0] + Flat(gs[1..])
  }

  /** Neighbouring groups stay apart: the second one's first piece does not join the first. */
  ghost predicate Apart(gs: seq<seq<Segment>>, i: nat, barriers: seq<Span>)
    requires 0 < i < |gs|
  {
    gs[i] != [] && !Continues(gs[i - 1], gs[i][0], barriers)
  }

  /** gs cuts the pieces, in their order, into the longest chains. */
  ghost predicate GroupsOf(ps: seq<Segment>, gs: seq<seq<Segment>>, barriers: seq<Span>) {
    && Flat(gs) == ps && (forall i :: 0 <= i < |gs| ==> Chained(gs[i], barriers))
    && (forall i :: 0 < i < |gs| ==> Apart(gs, i, barriers))
  }

  ghost predicate CutsOf(cuts: seq<Cut>, gs: seq<seq<Segment>>) {
    |cuts| == |gs| && forall i :: 0 <= i < |gs| ==> CutOf(cuts[i], gs[i])
  }

  lemma SetsEndOnce(g: seq<Segment>, s: nat, r: nat)
    requires SetsEnd(g, s) && SetsEnd(g, r)
    ensures s == r
  {
    assert g[s].end == g[r].end;
  }

  lemma JoinsIsContinues(c: Cut, g: seq<Segment>, p: Segment, barriers: seq<Span>)
    requires CutOf(c, g)
    ensures Joins(c, p, barriers) <==> Continues(g, p, barriers)
  {
    hide SetsEnd, EndFixed, StartFixed, Clear, Crosses, PreciseStart, PreciseEnd;
    var s: nat :| EndIs(c, g, s);
    FixedEdges(p);
    ClearIsUncrossed(barriers, c.end, p.start);
    forall r: nat | SetsEnd(g, r) ensures r == s {
      SetsEndOnce(g, s, r);
    }
    EndsInside(g, s);
    assert Continues(g, p, barriers) <==> ContinuesFrom(g, s, p, barriers);
  }

  lemma EndsInside(g: seq<Segment>, s: nat)
    requires SetsEnd(g, s)
    ensures s < |g|
  {
  }

  lemma OpenIsCutOf(p: Segment)
    ensures CutOf(Open(p), [p])
  {
    FixedEdges(p);
    hide StartFixed, EndFixed, PreciseStart, PreciseEnd;
    assert SetsEnd([p], 0) && [p][0] == p;
    assert EndIs(Open(p), [p], 0);
  }

  lemma EndExtends(c: Cut, g: seq<Segment>, p: Segment)
    requires CutOf(c, g)
    ensures exists s: nat :: EndIs(Extend(c, p), g + [p], s)
  {
    FixedEdges(p);
    hide StartFixed, EndFixed, PreciseStart, PreciseEnd, MostConfident;
    var all := g + [p];
    var s: nat :| EndIs(c, g, s);
    if p.end > c.end {
      assert all[|g|] == p;
      assert SetsEnd(all, |g|);
      assert EndIs(Extend(c, p), all, |g|);
    } else {
      assert all[s] == g[s] && SetsEnd(all, s);
      assert EndIs(Extend(c, p), all, s);
    }
  }

  lemma TrustExtends(c: Cut, g: seq<Segment>, p: Segment)
    requires CutOf(c, g)
    ensures var e, all := Extend(c, p), g + [p];
      MostConfident(all, e.confidence) && e.measuredSplit == Split(all)
      && e.stage == if Fingerprinted(all) then Fingerprint else g[0].stage
  {
    hide EndIs, EndFixed, StartFixed;
    var all := g + [p];
    assert all[|g|] == p && forall k :: 0 <= k < |g| ==> all[k] == g[k];
    var k :| 0 <= k < |g| && g[k].confidence == c.confidence;
    assert all[k].confidence == c.confidence;
    if Fingerprinted(g) {
      var f :| 0 <= f < |g| && g[f].stage == Fingerprint;
      assert all[f].stage == Fingerprint;
    }
    if Split(g) {
      var f :| 0 <= f < |g| && g[f].measuredSplit;
      assert all[f].measuredSplit;
    }
  }

  lemma ExtendIsCutOf(c: Cut, g: seq<Segment>, p: Segment)
    requires CutOf(c, g)
    ensures CutOf(Extend(c, p), g + [p])
  {
    EndExtends(c, g, p);
    TrustExtends(c, g, p);
    hide EndIs, StartFixed, MostConfident, Fingerprinted, Split;
  }

  lemma ChainExtends(g: seq<Segment>, p: Segment, barriers: seq<Span>)
    requires Chained(g, barriers) && Continues(g, p, barriers)
    ensures Chained(g + [p], barriers)
  {
    hide Continues;
    var all := g + [p];
    forall k | 0 < k < |all| ensures Continues(all[..k], all[k], barriers) {
      assert all[..k] == g[..k] && (k < |g| ==> all[k] == g[k]);
      assert k == |g| ==> g[..k] == g;
    }
  }

  lemma ChainAlone(p: Segment, barriers: seq<Span>)
    ensures Chained([p], barriers)
  {
  }

  lemma GroupsBefore(g: seq<Segment>, rest: seq<Segment>, gs: seq<seq<Segment>>, barriers: seq<Span>)
    requires Chained(g, barriers) && GroupsOf(rest, gs, barriers)
    requires gs != [] ==> gs[0] != [] && !Continues(g, gs[0][0], barriers)
    ensures GroupsOf(g + rest, [g] + gs, barriers)
  {
    hide Chained, Continues;
    var all := [g] + gs;
    assert all[1..] == gs;
    forall i | 0 < i < |all| ensures Apart(all, i, barriers) {
      if i > 1 {
        assert Apart(gs, i - 1, barriers);
      }
    }
  }

  lemma CutsBefore(c: Cut, g: seq<Segment>, cuts: seq<Cut>, gs: seq<seq<Segment>>)
    requires CutOf(c, g) && CutsOf(cuts, gs)
    ensures CutsOf([c] + cuts, [g] + gs)
  {
    hide CutOf;
  }

  lemma {:induction false} MergeFromIsGroups(c: Cut, g: seq<Segment>, rest: seq<Segment>, barriers: seq<Span>)
    returns (gs: seq<seq<Segment>>)
    requires CutOf(c, g) && Chained(g, barriers)
    ensures GroupsOf(g + rest, gs, barriers) && CutsOf(MergeFrom(c, rest, barriers), gs)
    ensures g != [] && gs != [] && gs[0] != [] && gs[0][0] == g[0]
    decreases |rest|
  {
    hide Joins, Continues, CutOf, CutsOf, GroupsOf, Chained, Open, Extend;
    ChainIsSome(g, barriers);
    if rest == [] {
      gs := [g];
      OnlyGroup(c, g, barriers);
      assert g + rest == g;
    } else {
      JoinsIsContinues(c, g, rest[0], barriers);
      if Joins(c, rest[0], barriers) {
        ExtendIsCutOf(c, g, rest[0]);
        ChainExtends(g, rest[0], barriers);
        gs := MergeFromIsGroups(Extend(c, rest[0]), g + [rest[0]], rest[1..], barriers);
        assert g + [rest[0]] + rest[1..] == g + rest;
      } else {
        OpenIsCutOf(rest[0]);
        ChainAlone(rest[0], barriers);
        var later := MergeFromIsGroups(Open(rest[0]), [rest[0]], rest[1..], barriers);
        assert [rest[0]] + rest[1..] == rest;
        GroupsBefore(g, rest, later, barriers);
        CutsBefore(c, g, MergeFrom(Open(rest[0]), rest[1..], barriers), later);
        gs := [g] + later;
      }
    }
  }

  lemma ChainIsSome(g: seq<Segment>, barriers: seq<Span>)
    requires Chained(g, barriers)
    ensures g != []
  {
  }

  lemma OnlyGroup(c: Cut, g: seq<Segment>, barriers: seq<Span>)
    requires CutOf(c, g) && Chained(g, barriers)
    ensures GroupsOf(g, [g], barriers) && CutsOf([c], [g])
  {
    hide CutOf, Chained;
    assert [g][1..] == [];
    assert Flat([g]) == g + Flat([]);
  }

  /** The merged cuts are the longest chains of the pieces by start, each cut told from its chain. */
  lemma MergedIsGroups(ps: seq<Segment>, barriers: seq<Span>) returns (gs: seq<seq<Segment>>)
    ensures GroupsOf(SortBy(ps, StartOf()), gs, barriers) && CutsOf(Merged(ps, barriers), gs)
  {
    hide MergeFrom, CutOf, Chained, Open;
    var sorted := SortBy(ps, StartOf());
    if sorted == [] {
      gs := [];
    } else {
      OpenIsCutOf(sorted[0]);
      ChainAlone(sorted[0], barriers);
      gs := MergeFromIsGroups(Open(sorted[0]), [sorted[0]], sorted[1..], barriers);
      assert [sorted[0]] + sorted[1..] == sorted;
    }
  }

  // ----- Which groups are cut -----

  /** A group lasts: ten seconds, or one of the four signs of trust. */
  ghost predicate Lasting(g: seq<Segment>) {
    exists s: nat :: SetsEnd(g, s) && g != []
      && (|| g[s].end >= g[0].start + MIN_AD_DURATION_FOR_REMOVAL
          || g[s].userConfirmed
          || Fingerprinted(g) || g[0].stage == CueMatch
          || (exists k :: 0 <= k < |g| && g[k].confidence >= SHORT_CUT_KEEP_CONFIDENCE)
          || Split(g))
  }

  lemma KeepsIsLasting(c: Cut, g: seq<Segment>)
    requires CutOf(c, g)
    ensures Keeps(c) <==> Lasting(g)
  {
    hide EndFixed, StartFixed, SetsEnd;
    var s: nat :| EndIs(c, g, s);
    assert SetsEnd(g, s);
    forall r: nat | SetsEnd(g, r) ensures r == s {
      SetsEndOnce(g, s, r);
    }
    EndsInside(g, s);
    var k :| 0 <= k < |g| && g[k].confidence == c.confidence;
  }

  ghost predicate Reaches(g: seq<Segment>, t: real) {
    exists s: nat :: SetsEnd(g, s) && g[0].start <= t < g[s].end
  }

  lemma HasIsReaches(c: Cut, g: seq<Segment>, t: real)
    requires CutOf(c, g)
    ensures c.Has(t) <==> Reaches(g, t)
  {
    hide EndFixed, StartFixed, SetsEnd;
    var s: nat :| EndIs(c, g, s);
    assert SetsEnd(g, s);
    forall r: nat | SetsEnd(g, r) ensures r == s {
      SetsEndOnce(g, s, r);
    }
    EndsInside(g, s);
  }

  /** Group i is the last that lasts. */
  ghost predicate LastLasting(gs: seq<seq<Segment>>, i: nat) {
    i < |gs| && Lasting(gs[i]) && forall j :: i < j < |gs| ==> !Lasting(gs[j])
  }

  /** t is in the short remainder after group i, which no barrier reaches, and the end of the group is not fixed. */
  ghost predicate InRemainder(g: seq<Segment>, total: real, barriers: seq<Span>, t: real) {
    exists s: nat :: SetsEnd(g, s) && g[s].end <= t < total && total < g[s].end + POST_ROLL_TRIM_THRESHOLD
                     && Clear(barriers, g[s].end, total) && !EndFixed(g[s])
  }

  ghost predicate AppliedAt(gs: seq<seq<Segment>>, total: real, barriers: seq<Span>, t: real) {
    || (exists i :: 0 <= i < |gs| && Lasting(gs[i]) && Reaches(gs[i], t))
    || (exists i: nat :: LastLasting(gs, i) && InRemainder(gs[i], total, barriers, t))
  }

  lemma {:induction false} LastKept(cuts: seq<Cut>) returns (i: nat)
    requires LongOrTrusted(cuts) != []
    ensures i < |cuts| && Keeps(cuts[i]) && (forall j :: i < j < |cuts| ==> !Keeps(cuts[j]))
    ensures LongOrTrusted(cuts)[|LongOrTrusted(cuts)| - 1] == cuts[i]
  {
    hide Keeps;
    i := |cuts| - 1;
    if !Keeps(cuts[i]) {
      i := LastKept(cuts[..|cuts| - 1]);
    }
  }

  lemma TailIsRemainder(c: Cut, g: seq<Segment>, total: real, barriers: seq<Span>, t: real)
    requires CutOf(c, g)
    ensures InTail([c], total, barriers, t) <==> InRemainder(g, total, barriers, t)
  {
    hide StartFixed, SetsEnd, EndFixed;
    var s: nat :| EndIs(c, g, s);
    assert SetsEnd(g, s);
    forall r: nat | SetsEnd(g, r) ensures r == s {
      SetsEndOnce(g, s, r);
    }
    EndsInside(g, s);
    if c.end <= t < total {
      assert Clear(barriers, c.end, total) <==>
        forall i :: 0 <= i < |barriers| ==> barriers[i].hi <= c.end || total <= barriers[i].lo;
    }
  }

  lemma TailOfLast(cuts: seq<Cut>, total: real, barriers: seq<Span>, t: real)
    requires cuts != []
    ensures InTail(cuts, total, barriers, t) <==> InTail([cuts[|cuts| - 1]], total, barriers, t)
  {
  }

  lemma KeptIsLasting(cuts: seq<Cut>, gs: seq<seq<Segment>>, t: real)
    requires CutsOf(cuts, gs)
    ensures KeptBySome(cuts, t) <==> exists i :: 0 <= i < |gs| && Lasting(gs[i]) && Reaches(gs[i], t)
  {
    hide CutOf, Keeps, Lasting, Reaches;
    forall i | 0 <= i < |gs| ensures (Keeps(cuts[i]) <==> Lasting(gs[i])) && (cuts[i].Has(t) <==> Reaches(gs[i], t)) {
      KeepsIsLasting(cuts[i], gs[i]);
      HasIsReaches(cuts[i], gs[i], t);
    }
  }

  lemma TailIsAfterLast(cuts: seq<Cut>, gs: seq<seq<Segment>>, total: real, barriers: seq<Span>, t: real)
    requires CutsOf(cuts, gs)
    ensures InTail(LongOrTrusted(cuts), total, barriers, t)
       <==> exists i: nat :: LastLasting(gs, i) && InRemainder(gs[i], total, barriers, t)
  {
    hide CutOf, Keeps, Lasting, InRemainder, InTail, LongOrTrusted;
    forall i | 0 <= i < |gs| ensures Keeps(cuts[i]) <==> Lasting(gs[i]) {
      KeepsIsLasting(cuts[i], gs[i]);
    }
    KeptCuts(cuts);
    var kept := LongOrTrusted(cuts);
    if kept == [] {
      NoTail(total, barriers, t);
      forall i: nat | i < |gs| ensures !Lasting(gs[i]) {
        assert cuts[i] in cuts;
      }
    } else {
      var i := LastKept(cuts);
      TailOfLast(kept, total, barriers, t);
      TailIsRemainder(cuts[i], gs[i], total, barriers, t);
      assert LastLasting(gs, i);
      forall j: nat | LastLasting(gs, j) ensures j == i {
      }
    }
  }

  lemma NoTail(total: real, barriers: seq<Span>, t: real)
    ensures !InTail([], total, barriers, t)
  {
  }

  /**
   * A second is applied exactly when it lies in a group of requested pieces that lasts, or in the short free remainder
   * after the last such group, whose end no person, quote, word or lock fixed.
   */
  lemma AppliedIsByGroups(ads: seq<Segment>, total: real, soft: seq<Span>, hard: seq<Span>)
    returns (gs: seq<seq<Segment>>)
    ensures GroupsOf(SortBy(Clamp(ads, total, hard), StartOf()), gs, soft + hard)
    ensures forall t :: IsCut(Applied(ads, total, soft, hard), t) <==> AppliedAt(gs, total, soft + hard, t)
  {
    hide Applied, Merged, Clamp, CutsOf, GroupsOf, KeptBySome, Lasting, InRemainder, InTail, LastLasting, Reaches;
    var pieces, barriers := Clamp(ads, total, hard), soft + hard;
    gs := MergedIsGroups(pieces, barriers);
    forall t ensures IsCut(Applied(ads, total, soft, hard), t) <==> AppliedAt(gs, total, barriers, t) {
      AppliedExactly(ads, total, soft, hard, t);
      KeptIsLasting(Merged(pieces, barriers), gs, t);
      TailIsAfterLast(Merged(pieces, barriers), gs, total, barriers, t);
    }
  }

  /** Nothing after the last group is applied when its end is fixed: only groups that last are. */
  lemma FixedEndStands(ads: seq<Segment>, total: real, soft: seq<Span>, hard: seq<Span>, gs: seq<seq<Segment>>, i: nat,
                       s: nat, t: real)
    requires forall u :: IsCut(Applied(ads, total, soft, hard), u) <==> AppliedAt(gs, total, soft + hard, u)
    requires LastLasting(gs, i) && SetsEnd(gs[i], s) && EndFixed(gs[i][s])
    ensures IsCut(Applied(ads, total, soft, hard), t) <==>
            exists j :: 0 <= j < |gs| && Lasting(gs[j]) && Reaches(gs[j], t)
  {
    hide Applied, Lasting, Reaches, SetsEnd, EndFixed;
    forall j: nat | LastLasting(gs, j) ensures j == i {
    }
    forall r: nat | SetsEnd(gs[i], r) ensures r == s {
      SetsEndOnce(gs[i], s, r);
    }
  }
}
