/** Which short cuts the filter keeps: what a merged cut carries over from the pieces it took in, and what it loses. */
module AppliedTrust {
  import opened Basics
  import opened Spans
  import opened AppliedCuts
  import opened AppliedCutsProofs

  /** A fingerprint match, a confident ad or a measured split is applied in full however short it is. */
  lemma TrustedPiecesAreApplied(ads: seq<Segment>, total: real, soft: seq<Span>, hard: seq<Span>, k: nat, t: real)
    requires var pieces := Clamp(ads, total, hard); k < |pieces| && pieces[k].Has(t)
    requires var p := Clamp(ads, total, hard)[k];
      p.stage == Fingerprint || p.confidence >= SHORT_CUT_KEEP_CONFIDENCE || p.measuredSplit
    ensures IsCut(Applied(ads, total, soft, hard), t)
  {
    hide Merged, Applied, Clamp;
    var pieces, barriers := Clamp(ads, total, hard), soft + hard;
    ClampedOk(ads, total, hard);
    assert PieceOk(pieces[k], total);
    MergedTakesIn(pieces, barriers, total, pieces[k]);
    var merged := Merged(pieces, barriers);
    var i :| 0 <= i < |merged| && TookIn(merged[i], pieces[k]);
    CutIsApplied(ads, total, soft, hard, merged[i], t);
  }

  /** No unconfirmed piece starts by the end of a confirmed piece of its kind and ends no earlier. */
  ghost predicate ConfirmedEndsStand(ps: seq<Segment>) {
    forall i, j :: 0 <= i < |ps| && 0 <= j < |ps| && ps[i].userConfirmed && !ps[j].userConfirmed
                   && ps[i].beep == ps[j].beep
      ==> !OutlastsFrom(ps[j], ps[i])
  }

  predicate OutlastsFrom(q: Segment, p: Segment) { q.start <= p.end <= q.end }

  /**
   * The open cut ends where a piece of its kind does, is confirmed there if that
   * piece is, and the piece starts by next.
   */
  ghost predicate EndsBy(cur: Cut, ps: seq<Segment>, next: real) {
    exists k :: 0 <= k < |ps| && ps[k].end == cur.end && ps[k].beep == cur.beep
                && ps[k].userConfirmed == cur.confirmedEnd && ps[k].start <= next
  }

  lemma ExtendEndsBy(cur: Cut, ps: seq<Segment>, at: nat, barriers: seq<Span>, next: real)
    requires at < |ps| && EndsBy(cur, ps, ps[at].start) && Joins(cur, ps[at], barriers) && ps[at].start <= next
    ensures EndsBy(Extend(cur, ps[at]), ps, next)
  {
    var k :| 0 <= k < |ps| && ps[k].end == cur.end && ps[k].beep == cur.beep
             && ps[k].userConfirmed == cur.confirmedEnd && ps[k].start <= ps[at].start;
    var w := if ps[at].end > cur.end then at else k;
    assert ps[w].end == Extend(cur, ps[at]).end;
  }

  /** While confirmed ends stand, a cut goes on ending confirmed, and does so once a confirmed piece joins it. */
  lemma JoinStaysConfirmed(cur: Cut, ps: seq<Segment>, at: nat, barriers: seq<Span>)
    requires at < |ps| && ConfirmedEndsStand(ps) && EndsBy(cur, ps, ps[at].start) && Joins(cur, ps[at], barriers)
    requires ps[at].start <= ps[at].end && (cur.confirmedEnd || ps[at].userConfirmed)
    ensures Extend(cur, ps[at]).confirmedEnd
  {
    var k :| 0 <= k < |ps| && ps[k].end == cur.end && ps[k].beep == cur.beep
             && ps[k].userConfirmed == cur.confirmedEnd && ps[k].start <= ps[at].start;
    if !Extend(cur, ps[at]).confirmedEnd {
      assert ps[at].end > cur.end ==> OutlastsFrom(ps[at], ps[k]);
      assert ps[at].end <= cur.end ==> OutlastsFrom(ps[k], ps[at]);
    }
  }

  lemma {:induction false} FirstCutStaysConfirmed(cur: Cut, rest: seq<Segment>, barriers: seq<Span>, ps: seq<Segment>,
                                                  at: nat, total: real)
    requires at <= |ps| && rest == ps[at..] && ConfirmedEndsStand(ps) && SortedPieces(ps) && AllOk(ps, total)
    requires cur.confirmedEnd && (rest != [] ==> EndsBy(cur, ps, rest[0].start))
    ensures MergeFrom(cur, rest, barriers) != [] && MergeFrom(cur, rest, barriers)[0].confirmedEnd
    decreases |rest|
  {
    hide Joins, Extend, ConfirmedEndsStand, EndsBy;
    if rest != [] && Joins(cur, rest[0], barriers) {
      assert rest[0] == ps[at] && rest[1..] == ps[at + 1..];
      JoinStaysConfirmed(cur, ps, at, barriers);
      if rest[1..] != [] {
        ExtendEndsBy(cur, ps, at, barriers, ps[at + 1].start);
      }
      FirstCutStaysConfirmed(Extend(cur, rest[0]), rest[1..], barriers, ps, at + 1, total);
    }
  }

  ghost predicate TakenInConfirmed(cuts: seq<Cut>, p: Segment) {
    exists i :: 0 <= i < |cuts| && TookIn(cuts[i], p) && cuts[i].confirmedEnd
  }

  lemma OpenEndsBy(ps: seq<Segment>, at: nat, next: real)
    requires at < |ps| && ps[at].start <= next
    ensures EndsBy(Open(ps[at]), ps, next)
  {
    assert ps[at].end == Open(ps[at]).end;
  }

  /** The cut a confirmed piece opens or joins takes it in and ends confirmed. */
  lemma HeadConfirmed(cur: Cut, rest: seq<Segment>, barriers: seq<Span>, ps: seq<Segment>, at: nat, total: real,
                      p: Segment)
    requires at <= |ps| && rest == ps[at..] && ConfirmedEndsStand(ps) && SortedPieces(ps) && AllOk(ps, total)
    requires cur.confirmedEnd && (rest != [] ==> EndsBy(cur, ps, rest[0].start)) && TookIn(cur, p)
    ensures TakenInConfirmed(MergeFrom(cur, rest, barriers), p)
  {
    hide MergeFrom, ConfirmedEndsStand, EndsBy;
    FirstCutStaysConfirmed(cur, rest, barriers, ps, at, total);
    FirstCutWidens(cur, rest, barriers);
    assert TookIn(MergeFrom(cur, rest, barriers)[0], p);
  }

  lemma {:induction false} ConfirmedTakenIn(cur: Cut, rest: seq<Segment>, barriers: seq<Span>, ps: seq<Segment>,
                                            at: nat,
                                            total: real, k: nat)
    requires at <= |ps| && rest == ps[at..] && ConfirmedEndsStand(ps) && SortedPieces(ps) && AllOk(ps, total)
    requires k < |rest| && rest[k].userConfirmed && EndsBy(cur, ps, rest[0].start) && cur.start <= rest[0].start
    ensures TakenInConfirmed(MergeFrom(cur, rest, barriers), rest[k])
    decreases |rest|
  {
    hide Joins, ConfirmedEndsStand, EndsBy, TakenInConfirmed, TookIn;
    var ad, tail := rest[0], rest[1..];
    assert ad == ps[at] && tail == ps[at + 1..];
    assert tail != [] ==> tail[0] == ps[at + 1];
    if Joins(cur, ad, barriers) {
      var next := Extend(cur, ad);
      if tail != [] {
        ExtendEndsBy(cur, ps, at, barriers, tail[0].start);
      }
      if k == 0 {
        JoinStaysConfirmed(cur, ps, at, barriers);
        JoinTakesIn(cur, ad, barriers);
        HeadConfirmed(next, tail, barriers, ps, at + 1, total, ad);
      } else {
        assert next.start == cur.start;
        ConfirmedTakenIn(next, tail, barriers, ps, at + 1, total, k - 1);
      }
    } else {
      if tail != [] {
        OpenEndsBy(ps, at, tail[0].start);
      }
      if k == 0 {
        OpenTakesIn(ad);
        HeadConfirmed(Open(ad), tail, barriers, ps, at + 1, total, ad);
      } else {
        ConfirmedTakenIn(Open(ad), tail, barriers, ps, at + 1, total, k - 1);
      }
      LaterTakenIn(cur, MergeFrom(Open(ad), tail, barriers), rest[k]);
    }
  }

  lemma JoinTakesIn(cur: Cut, ad: Segment, barriers: seq<Span>)
    requires Joins(cur, ad, barriers) && cur.start <= ad.start
    ensures TookIn(Extend(cur, ad), ad)
  {
  }

  lemma LaterTakenIn(c: Cut, rest: seq<Cut>, p: Segment)
    requires TakenInConfirmed(rest, p)
    ensures TakenInConfirmed([c] + rest, p)
  {
    var i :| 0 <= i < |rest| && TookIn(rest[i], p) && rest[i].confirmedEnd;
    assert ([c] + rest)[i + 1] == rest[i];
  }

  lemma MergedConfirmed(ps: seq<Segment>, barriers: seq<Span>, total: real, p: Segment)
    requires AllOk(ps, total) && p in ps && p.userConfirmed && ConfirmedEndsStand(ps)
    ensures TakenInConfirmed(Merged(ps, barriers), p)
  {
    hide *;
    var sorted := SortBy(ps, StartOf());
    SortedPiecesOf(ps, total);
    ConfirmedEndsStandIn(ps, sorted);
    assert p in sorted;
    var k :| 0 <= k < |sorted| && sorted[k] == p;
    var rest := sorted[1..];
    MergedOpens(ps, barriers);
    assert rest != [] ==> sorted[0].start <= rest[0].start by {
      StartsBySecond(sorted);
    }
    if rest != [] {
      OpenEndsBy(sorted, 0, rest[0].start);
    }
    OpenTakesIn(sorted[0]);
    if k == 0 {
      HeadConfirmed(Open(sorted[0]), rest, barriers, sorted, 1, total, p);
    } else {
      OpenStart(sorted[0]);
      ConfirmedTakenIn(Open(sorted[0]), rest, barriers, sorted, 1, total, k - 1);
    }
  }

  lemma ConfirmedEndsStandIn(ps: seq<Segment>, qs: seq<Segment>)
    requires ConfirmedEndsStand(ps) && forall q :: q in qs ==> q in ps
    ensures ConfirmedEndsStand(qs)
  {
    forall i, j | 0 <= i < |qs| && 0 <= j < |qs| && qs[i].userConfirmed && !qs[j].userConfirmed
                  && qs[i].beep == qs[j].beep
      ensures !OutlastsFrom(qs[j], qs[i])
    {
      assert qs[i] in ps && qs[j] in ps;
    }
  }

  /**
   * User-confirmed pieces are applied in full, however short, as long as no
   * unconfirmed piece takes over a confirmed end.
   */
  lemma ConfirmedPiecesAreApplied(ads: seq<Segment>, total: real, soft: seq<Span>, hard: seq<Span>, k: nat, t: real)
    requires var pieces := Clamp(ads, total, hard);
      ConfirmedEndsStand(pieces) && k < |pieces| && pieces[k].userConfirmed && pieces[k].Has(t)
    ensures IsCut(Applied(ads, total, soft, hard), t)
  {
    hide Merged, Applied, Clamp, ConfirmedEndsStand;
    var pieces, barriers := Clamp(ads, total, hard), soft + hard;
    ClampedOk(ads, total, hard);
    assert PieceOk(pieces[k], total);
    MergedConfirmed(pieces, barriers, total, pieces[k]);
    var merged := Merged(pieces, barriers);
    var i :| 0 <= i < |merged| && TookIn(merged[i], pieces[k]) && merged[i].confirmedEnd;
    CutIsApplied(ads, total, soft, hard, merged[i], t);
  }

  // ----- Cue matches -----

  /** Every other piece of p's kind that starts no later ends at least the merge gap before p starts. */
  ghost predicate StandsClear(ps: seq<Segment>, p: Segment) {
    forall i :: 0 <= i < |ps| && ps[i] != p && ps[i].beep == p.beep && ps[i].start <= p.start
      ==> ps[i].end + MERGE_GAP_SECONDS <= p.start
  }

  /** The open cut ends where a piece of its kind other than p does, and that piece starts by next. */
  ghost predicate EndsElsewhere(cur: Cut, ps: seq<Segment>, p: Segment, next: real) {
    exists k :: 0 <= k < |ps| && ps[k] != p && ps[k].end == cur.end && ps[k].beep == cur.beep && ps[k].start <= next
  }

  lemma OpenEndsElsewhere(ps: seq<Segment>, at: nat, p: Segment, next: real)
    requires at < |ps| && ps[at] != p && ps[at].start <= next
    ensures EndsElsewhere(Open(ps[at]), ps, p, next)
  {
    assert ps[at].end == Open(ps[at]).end;
  }

  lemma ExtendEndsElsewhere(cur: Cut, ps: seq<Segment>, at: nat, barriers: seq<Span>, p: Segment, next: real)
    requires at < |ps| && ps[at] != p && EndsElsewhere(cur, ps, p, ps[at].start) && Joins(cur, ps[at], barriers)
    requires ps[at].start <= next
    ensures EndsElsewhere(Extend(cur, ps[at]), ps, p, next)
  {
    var k :| 0 <= k < |ps| && ps[k] != p && ps[k].end == cur.end && ps[k].beep == cur.beep
             && ps[k].start <= ps[at].start;
    var w := if ps[at].end > cur.end then at else k;
    assert ps[w].end == Extend(cur, ps[at]).end;
  }

  lemma ClearPieceDoesNotJoin(cur: Cut, ps: seq<Segment>, p: Segment, barriers: seq<Span>)
    requires StandsClear(ps, p) && EndsElsewhere(cur, ps, p, p.start)
    ensures !Joins(cur, p, barriers)
  {
  }

  ghost predicate TakenInStaged(cuts: seq<Cut>, p: Segment) {
    exists i :: 0 <= i < |cuts| && TookIn(cuts[i], p) && cuts[i].stage != OtherStage
  }

  lemma StagedLater(c: Cut, rest: seq<Cut>, p: Segment)
    requires TakenInStaged(rest, p)
    ensures TakenInStaged([c] + rest, p)
  {
    var i :| 0 <= i < |rest| && TookIn(rest[i], p) && rest[i].stage != OtherStage;
    assert ([c] + rest)[i + 1] == rest[i];
  }

  /** A cut keeps the stage of the piece that opened it, unless a fingerprint match joins. */
  lemma OpenedStaged(p: Segment, rest: seq<Segment>, barriers: seq<Span>)
    requires p.stage != OtherStage
    ensures TakenInStaged(MergeFrom(Open(p), rest, barriers), p)
  {
    hide MergeFrom;
    FirstCutWidens(Open(p), rest, barriers);
    assert TookIn(MergeFrom(Open(p), rest, barriers)[0], p);
  }

  lemma {:induction false} StagedTakenIn(cur: Cut, rest: seq<Segment>, barriers: seq<Span>, ps: seq<Segment>, at: nat,
                                         k: nat, p: Segment)
    requires at <= |ps| && rest == ps[at..] && SortedPieces(ps) && StandsClear(ps, p) && p.stage != OtherStage
    requires k < |rest| && rest[k] == p && (forall i :: 0 <= i < k ==> rest[i] != p)
    requires EndsElsewhere(cur, ps, p, rest[0].start)
    ensures TakenInStaged(MergeFrom(cur, rest, barriers), p)
    decreases |rest|
  {
    hide Joins, StandsClear, EndsElsewhere, TakenInStaged, Extend, Open;
    var ad, tail := rest[0], rest[1..];
    assert ad == ps[at] && tail == ps[at + 1..];
    if k == 0 {
      ClearPieceDoesNotJoin(cur, ps, p, barriers);
      OpenedStaged(p, tail, barriers);
      StagedLater(cur, MergeFrom(Open(p), tail, barriers), p);
    } else {
      assert tail[0] == ps[at + 1];
      if Joins(cur, ad, barriers) {
        ExtendEndsElsewhere(cur, ps, at, barriers, p, tail[0].start);
        StagedTakenIn(Extend(cur, ad), tail, barriers, ps, at + 1, k - 1, p);
      } else {
        OpenEndsElsewhere(ps, at, p, tail[0].start);
        StagedTakenIn(Open(ad), tail, barriers, ps, at + 1, k - 1, p);
        StagedLater(cur, MergeFrom(Open(ad), tail, barriers), p);
      }
    }
  }

  lemma {:induction false} FirstOf(ps: seq<Segment>, p: Segment) returns (k: nat)
    requires p in ps
    ensures k < |ps| && ps[k] == p && forall i :: 0 <= i < k ==> ps[i] != p
  {
    if ps[0] == p {
      k := 0;
    } else {
      assert p in ps[1..];
      k := FirstOf(ps[1..], p);
      assert forall i :: 0 <= i < k ==> ps[1..][i] != p;
      assert forall i :: 1 <= i < k + 1 ==> ps[i] == ps[1..][i - 1];
      k := k + 1;
    }
  }

  lemma StandsClearIn(ps: seq<Segment>, qs: seq<Segment>, p: Segment)
    requires StandsClear(ps, p) && forall q :: q in qs ==> q in ps
    ensures StandsClear(qs, p)
  {
    forall i | 0 <= i < |qs| && qs[i] != p && qs[i].beep == p.beep && qs[i].start <= p.start
      ensures qs[i].end + MERGE_GAP_SECONDS <= p.start
    {
      assert qs[i] in ps;
    }
  }

  lemma MergedStaged(ps: seq<Segment>, barriers: seq<Span>, total: real, p: Segment)
    requires AllOk(ps, total) && p in ps && p.stage != OtherStage && StandsClear(ps, p)
    ensures TakenInStaged(Merged(ps, barriers), p)
  {
    hide *;
    var sorted := SortBy(ps, StartOf());
    SortedPiecesOf(ps, total);
    StandsClearIn(ps, sorted, p);
    assert p in sorted;
    var k := FirstOf(sorted, p);
    var rest := sorted[1..];
    MergedOpens(ps, barriers);
    if k == 0 {
      OpenedStaged(p, rest, barriers);
    } else {
      StartsBySecond(sorted);
      OpenEndsElsewhere(sorted, 0, p, rest[0].start);
      StagedTakenIn(Open(sorted[0]), rest, barriers, sorted, 1, k - 1, p);
    }
  }

  /** A cue match is applied in full, however short, when it stands clear of earlier pieces of its kind. */
  lemma CueMatchesAreApplied(ads: seq<Segment>, total: real, soft: seq<Span>, hard: seq<Span>, k: nat, t: real)
    requires var pieces := Clamp(ads, total, hard);
      k < |pieces| && pieces[k].stage == CueMatch && StandsClear(pieces, pieces[k]) && pieces[k].Has(t)
    ensures IsCut(Applied(ads, total, soft, hard), t)
  {
    hide Merged, Applied, Clamp, StandsClear;
    var pieces, barriers := Clamp(ads, total, hard), soft + hard;
    ClampedOk(ads, total, hard);
    assert PieceOk(pieces[k], total);
    MergedStaged(pieces, barriers, total, pieces[k]);
    var merged := Merged(pieces, barriers);
    var i :| 0 <= i < |merged| && TookIn(merged[i], pieces[k]) && merged[i].stage != OtherStage;
    CutIsApplied(ads, total, soft, hard, merged[i], t);
  }

  // ----- Where a confirmed or a cue-match cut is lost -----

  const UNPINNED := Pins(None, None, None)

  function Short(start: real, confirmed: bool, stage: Stage): Segment {
    Segment(start, start + 4.0, confirmed, UNPINNED, UNPINNED, false, 0.5, stage, false)
  }

  lemma ShortAloneIsClamped(start: real, confirmed: bool, stage: Stage)
    requires 0.0 <= start <= 10.0
    ensures ClampOne(Short(start, confirmed, stage), 100.0, []) == [Short(start, confirmed, stage)]
  {
    assert Subtract([Span(start, start + 4.0)], []) == [Span(start, start + 4.0)];
  }

  lemma ShortAloneIsMerged(p: Segment)
    ensures Merged([p], []) == [Open(p)]
  {
    SortByKeepsSorted([p], StartOf());
  }

  lemma ShortAlone(start: real, confirmed: bool, stage: Stage)
    requires 0.0 <= start <= 10.0 && (confirmed || stage != OtherStage)
    ensures |Applied([Short(start, confirmed, stage)], 100.0, [], [])| == 1
  {
    hide ClampOne, Merged;
    var p := Short(start, confirmed, stage);
    ShortAloneIsClamped(start, confirmed, stage);
    assert [p][..0] == [];
    assert Clamp([p], 100.0, []) == [p];
    ShortAloneIsMerged(p);
    var whole: seq<Span> := [];
    assert whole + whole == whole;
    assert [Open(p)][..0] == [];
    assert LongOrTrusted([Open(p)]) == [Open(p)];
  }

  /** Two short pieces that touch make one short cut, with the first one's stage and the second one's confirmed flag. */
  lemma ShortPairIsDropped(confirmed: bool, stage: Stage)
    requires stage != Fingerprint
    ensures Applied([Short(0.0, confirmed, OtherStage), Short(4.0, false, stage)], 100.0, [], []) == []
  {
    var a, b := Short(0.0, confirmed, OtherStage), Short(4.0, false, stage);
    var both, whole: seq<Span> := [a, b], [];
    ShortAloneIsClamped(0.0, confirmed, OtherStage);
    ShortAloneIsClamped(4.0, false, stage);
    assert both[..1] == [a] && [a][..0] == [];
    assert Clamp([a], 100.0, []) == [a];
    assert Clamp(both, 100.0, []) == both;
    SortByKeepsSorted(both, StartOf());
    assert Joins(Open(a), b, whole + whole);
    var span := Extend(Open(a), b);
    assert both[1..] == [b] && [b][1..] == [];
    assert MergeFrom(Open(a), [b], whole + whole) == [span];
    assert !Keeps(span);
    assert [span][..0] == [];
    assert LongOrTrusted([span]) == [];
  }

  /** A confirmed cut is lost where an unconfirmed neighbour that ends its span takes the flag over. */
  lemma ConfirmedCutCanBeDropped()
    ensures var confirmed, neighbour := Short(0.0, true, OtherStage), Short(4.0, false, OtherStage);
      Applied([confirmed, neighbour], 100.0, [], []) == [] && |Applied([confirmed], 100.0, [], [])| == 1
  {
    ShortPairIsDropped(true, OtherStage);
    ShortAlone(0.0, true, OtherStage);
  }

  /**
   * A cue-match cut is lost where it joins a span that an ordinary detection opened:
   * only a fingerprint stage is carried.
   */
  lemma CueMatchCanBeDropped()
    ensures var neighbour, cue := Short(0.0, false, OtherStage), Short(4.0, false, CueMatch);
      Applied([neighbour, cue], 100.0, [], []) == [] && |Applied([cue], 100.0, [], [])| == 1
  {
    ShortPairIsDropped(false, CueMatch);
    ShortAlone(4.0, false, CueMatch);
  }
}
