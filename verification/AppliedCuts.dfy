/** Requested segments turned into the cuts the renderer applies. */
module AppliedCuts {
  import opened Basics
  import opened Spans

  const SHORT_CUT_KEEP_CONFIDENCE := 0.9
  const POST_ROLL_TRIM_THRESHOLD := 30.0

  datatype Stage = Fingerprint | CueMatch | OtherStage

  /** What can pin an edge: an aligned quote, a word timing, a reviewer lock. */
  datatype Pins = Pins(quote: Option<real>, word: Option<real>, lock: Option<real>)

  datatype Segment = Segment(start: real, end: real, userConfirmed: bool, startPins: Pins, endPins: Pins,
                             beep: bool, confidence: real, stage: Stage, measuredSplit: bool) {
    ghost predicate Has(t: real) { start <= t < end }
  }

  predicate Near(pin: Option<real>, edge: real) {
    pin.Some? && AbsReal(pin.value - edge) <= EDGE_TOLERANCE
  }

  predicate PreciseStart(ad: Segment) {
    Near(ad.startPins.quote, ad.start) || Near(ad.startPins.word, ad.start)
    || (ad.startPins.lock.Some? && ad.start >= ad.startPins.lock.value - EDGE_TOLERANCE)
  }

  predicate PreciseEnd(ad: Segment) {
    Near(ad.endPins.quote, ad.end) || Near(ad.endPins.word, ad.end)
    || (ad.endPins.lock.Some? && ad.end <= ad.endPins.lock.value + EDGE_TOLERANCE)
  }

  /** A cut being assembled; the flags are those of the member that set its current end. */
  datatype Cut = Cut(start: real, end: real, confirmedEnd: bool, preciseEnd: bool, lockedStart: bool, lockedEnd: bool,
                     beep: bool, confidence: real, stage: Stage, measuredSplit: bool) {
    ghost predicate Has(t: real) { start <= t < end }
  }

  ghost predicate Requested(ads: seq<Segment>, t: real) {
    exists i :: 0 <= i < |ads| && ads[i].Has(t)
  }

  ghost predicate IsCut(cuts: seq<Cut>, t: real) {
    exists i :: 0 <= i < |cuts| && cuts[i].Has(t)
  }

  // ----- Clamping at the file and at kept audio -----

  function OnPieces(ad: Segment, pieces: seq<Span>): (r: seq<Segment>)
    ensures |r| == |pieces|
    ensures forall i :: 0 <= i < |r| ==> r[i] == ad.(start := pieces[i].lo, end := pieces[i].hi)
  {
    if pieces == [] then [] else [ad.(start := pieces[0].lo, end := pieces[0].hi)] + OnPieces(ad, pieces[1..])
  }

  function ClampOne(ad: Segment, total: real, hard: seq<Span>): seq<Segment> {
    var lo, hi := MaxReal(0.0, ad.start), MinReal(ad.end, total);
    if hi <= lo then [] else OnPieces(ad, Subtract([Span(lo, hi)], hard))
  }

  function Clamp(ads: seq<Segment>, total: real, hard: seq<Span>): seq<Segment> {
    if ads == [] then [] else Clamp(ads[..|ads| - 1], total, hard) + ClampOne(ads[|ads| - 1], total, hard)
  }

  // ----- Merging -----

  predicate Crosses(barriers: seq<Span>, start: real, end: real) {
    start < end && exists i :: 0 <= i < |barriers| && barriers[i].lo < end && barriers[i].hi > start
  }

  function Open(ad: Segment): Cut {
    Cut(ad.start, ad.end, ad.userConfirmed, PreciseEnd(ad), ad.userConfirmed || PreciseStart(ad),
        ad.userConfirmed || PreciseEnd(ad), ad.beep, ad.confidence, ad.stage, ad.measuredSplit)
  }

  predicate Joins(cur: Cut, ad: Segment, barriers: seq<Span>) {
    var gap := ad.start - cur.end;
    && gap < MERGE_GAP_SECONDS
    && !Crosses(barriers, cur.end, ad.start)
    && (gap <= 0.0 || !(ad.userConfirmed || cur.confirmedEnd || cur.preciseEnd || PreciseStart(ad)))
    && ad.beep == cur.beep
  }

  function Extend(cur: Cut, ad: Segment): Cut {
    var reach := if ad.end > cur.end
                 then cur.(end := ad.end, confirmedEnd := ad.userConfirmed, preciseEnd := PreciseEnd(ad),
                           lockedEnd := ad.userConfirmed || PreciseEnd(ad))
                 else cur;
    reach.(confidence := MaxReal(cur.confidence, ad.confidence),
           stage := if ad.stage == Fingerprint then Fingerprint else cur.stage,
           measuredSplit := cur.measuredSplit || ad.measuredSplit)
  }

  function MergeFrom(cur: Cut, rest: seq<Segment>, barriers: seq<Span>): seq<Cut>
    decreases |rest|
  {
    if rest == [] then [cur]
    else if Joins(cur, rest[0], barriers) then MergeFrom(Extend(cur, rest[0]), rest[1..], barriers)
    else [cur] + MergeFrom(Open(rest[0]), rest[1..], barriers)
  }

  function StartOf(): Segment -> real { (ad: Segment) => ad.start }

  function Merged(pieces: seq<Segment>, barriers: seq<Span>): seq<Cut> {
    var sorted := SortBy(pieces, StartOf());
    if sorted == [] then [] else MergeFrom(Open(sorted[0]), sorted[1..], barriers)
  }

  // ----- Short cuts and the end of the episode -----

  predicate Trusted(c: Cut) {
    c.confirmedEnd || c.stage != OtherStage || c.confidence >= SHORT_CUT_KEEP_CONFIDENCE || c.measuredSplit
  }

  predicate Keeps(c: Cut) {
    c.end - c.start >= MIN_AD_DURATION_FOR_REMOVAL || Trusted(c)
  }

  function LongOrTrusted(cuts: seq<Cut>): seq<Cut> {
    if cuts == [] then []
    else LongOrTrusted(cuts[..|cuts| - 1]) + (if Keeps(cuts[|cuts| - 1]) then [cuts[|cuts| - 1]] else [])
  }

  predicate RunsToEnd(last: Cut, total: real, barriers: seq<Span>) {
    && !Crosses(barriers, last.end, total)
    && !last.confirmedEnd && !last.preciseEnd
    && total - last.end < POST_ROLL_TRIM_THRESHOLD && last.end != total
  }

  function ExtendToEnd(cuts: seq<Cut>, total: real, barriers: seq<Span>): seq<Cut> {
    if cuts == [] || !RunsToEnd(cuts[|cuts| - 1], total, barriers) then cuts
    else cuts[|cuts| - 1 := cuts[|cuts| - 1].(end := total, lockedEnd := false)]
  }

  /** The cuts applied to an episode of the given length. */
  function Applied(ads: seq<Segment>, total: real, soft: seq<Span>, hard: seq<Span>): seq<Cut> {
    var pieces := Clamp(ads, total, hard);
    if total == 0.0 || pieces == [] then []
    else ExtendToEnd(LongOrTrusted(Merged(pieces, soft + hard)), total, soft + hard)
  }

  method ClampSegments(ads: seq<Segment>, total: real, hard: seq<Span>) returns (clamped: seq<Segment>)
    ensures clamped == Clamp(ads, total, hard)
  {
    clamped := [];
    for i := 0 to |ads|
      invariant clamped == Clamp(ads[..i], total, hard)
    {
      assert ads[..i + 1][..i] == ads[..i];
      var ad := ads[i];
      var lo, hi := MaxReal(0.0, ad.start), MinReal(ad.end, total);
      if hi <= lo {
        continue;
      }
      clamped := clamped + OnPieces(ad, Subtract([Span(lo, hi)], hard));
    }
    assert ads[..|ads|] == ads;
  }

  method MergeSegments(clamped: seq<Segment>, barriers: seq<Span>) returns (merged: seq<Cut>)
    requires clamped != []
    ensures merged == Merged(clamped, barriers)
  {
    hide Joins, Open, PreciseEnd;
    var sorted := SortBy(clamped, StartOf());
    merged := [];
    var current := Open(sorted[0]);
    for i := 1 to |sorted|
      invariant merged + MergeFrom(current, sorted[i..], barriers) == Merged(clamped, barriers)
    {
      var ad := sorted[i];
      assert sorted[i..][1..] == sorted[i + 1..];
      if Joins(current, ad, barriers) {
        ghost var before := current;
        if ad.end > current.end {
          current := current.(end := ad.end, confirmedEnd := ad.userConfirmed, preciseEnd := PreciseEnd(ad),
                              lockedEnd := ad.userConfirmed || PreciseEnd(ad));
        }
        if ad.confidence > current.confidence {
          current := current.(confidence := ad.confidence);
        }
        if ad.stage == Fingerprint {
          current := current.(stage := Fingerprint);
        }
        if ad.measuredSplit {
          current := current.(measuredSplit := true);
        }
        assert current == Extend(before, ad);
      } else {
        assert merged + ([current] + MergeFrom(Open(ad), sorted[i + 1..], barriers))
            == (merged + [current]) + MergeFrom(Open(ad), sorted[i + 1..], barriers);
        merged := merged + [current];
        current := Open(ad);
      }
    }
    merged := merged + [current];
  }

  method DropShort(merged: seq<Cut>) returns (cuts: seq<Cut>)
    ensures cuts == LongOrTrusted(merged)
  {
    cuts := [];
    for i := 0 to |merged|
      invariant cuts == LongOrTrusted(merged[..i])
    {
      assert merged[..i + 1][..i] == merged[..i];
      if Keeps(merged[i]) {
        cuts := cuts + [merged[i]];
      }
    }
    assert merged[..|merged|] == merged;
  }

  method ComputeAppliedCuts(ads: seq<Segment>, total: real, soft: seq<Span>, hard: seq<Span>) returns (cuts: seq<Cut>)
    ensures cuts == Applied(ads, total, soft, hard)
  {
    hide Merged, LongOrTrusted, RunsToEnd, ClampOne;
    if ads == [] || total == 0.0 {
      return [];
    }
    var clamped := ClampSegments(ads, total, hard);
    if clamped == [] {
      return [];
    }
    var barriers := soft + hard;
    var mergedAds := MergeSegments(clamped, barriers);
    cuts := DropShort(mergedAds);
    if cuts != [] && RunsToEnd(cuts[|cuts| - 1], total, barriers) {
      cuts := cuts[|cuts| - 1 := cuts[|cuts| - 1].(end := total, lockedEnd := false)];
    }
  }

  // ----- Clamped pieces -----

  ghost predicate PieceOk(p: Segment, total: real) {
    0.0 <= p.start < p.end <= total
  }

  lemma ClampOneOk(ad: Segment, total: real, hard: seq<Span>)
    ensures forall i :: 0 <= i < |ClampOne(ad, total, hard)| ==>
      var p := ClampOne(ad, total, hard)[i];
      PieceOk(p, total) && ad.start <= p.start && p.end <= ad.end && p.beep == ad.beep
  {
    var lo, hi := MaxReal(0.0, ad.start), MinReal(ad.end, total);
    if lo < hi {
      var whole := [Span(lo, hi)];
      SubtractShape(whole, hard);
      forall i | 0 <= i < |Subtract(whole, hard)|
        ensures lo <= Subtract(whole, hard)[i].lo && Subtract(whole, hard)[i].hi <= hi
      {
        assert InsideSome(Subtract(whole, hard)[i], whole);
      }
    }
  }

  lemma ClampOneExact(ad: Segment, total: real, hard: seq<Span>, t: real)
    ensures Requested(ClampOne(ad, total, hard), t) <==> ad.Has(t) && 0.0 <= t < total && !Covers(hard, t)
  {
    var lo, hi := MaxReal(0.0, ad.start), MinReal(ad.end, total);
    if lo < hi {
      var pieces := Subtract([Span(lo, hi)], hard);
      var r := OnPieces(ad, pieces);
      SubtractCovers([Span(lo, hi)], hard, t);
      CoversOne(Span(lo, hi), t);
      if Requested(r, t) {
        var i :| 0 <= i < |r| && r[i].Has(t);
        assert pieces[i].Has(t);
      }
      if Covers(pieces, t) {
        var i :| 0 <= i < |pieces| && pieces[i].Has(t);
        assert r[i].Has(t);
      }
    }
  }

  lemma RequestedConcat(a: seq<Segment>, b: seq<Segment>, t: real)
    ensures Requested(a + b, t) <==> Requested(a, t) || Requested(b, t)
  {
    if Requested(a, t) {
      var i :| 0 <= i < |a| && a[i].Has(t);
      assert (a + b)[i].Has(t);
    }
    if Requested(b, t) {
      var i :| 0 <= i < |b| && b[i].Has(t);
      assert (a + b)[|a| + i].Has(t);
    }
  }

  lemma RequestedOne(ad: Segment, t: real)
    ensures Requested([ad], t) <==> ad.Has(t)
  {
    assert [ad][0] == ad;
  }

  /** p is one of the ads, narrowed. */
  ghost predicate CameFrom(p: Segment, ads: seq<Segment>) {
    exists k :: 0 <= k < |ads| && ads[k].start <= p.start && p.end <= ads[k].end && p.beep == ads[k].beep
  }

  lemma {:induction false} ClampShape(ads: seq<Segment>, total: real, hard: seq<Span>)
    ensures forall i :: 0 <= i < |Clamp(ads, total, hard)| ==>
      PieceOk(Clamp(ads, total, hard)[i], total) && CameFrom(Clamp(ads, total, hard)[i], ads)
  {
    hide ClampOne;
    if ads != [] {
      var init, last := ads[..|ads| - 1], ads[|ads| - 1];
      ClampShape(init, total, hard);
      ClampOneOk(last, total, hard);
      var a, b := Clamp(init, total, hard), ClampOne(last, total, hard);
      forall i | 0 <= i < |a + b| ensures PieceOk((a + b)[i], total) && CameFrom((a + b)[i], ads) {
        if i < |a| {
          assert CameFrom(a[i], init);
          var k :| 0 <= k < |init| && init[k].start <= a[i].start && a[i].end <= init[k].end
                   && a[i].beep == init[k].beep;
          assert ads[k] == init[k];
        } else {
          assert ads[|ads| - 1] == last;
        }
      }
    }
  }

  /** Clamping requests exactly the asked-for seconds inside the file and outside kept audio. */
  lemma {:induction false} ClampIsExact(ads: seq<Segment>, total: real, hard: seq<Span>, t: real)
    ensures Requested(Clamp(ads, total, hard), t) <==> Requested(ads, t) && 0.0 <= t < total && !Covers(hard, t)
  {
    hide ClampOne;
    if ads != [] {
      var init, last := ads[..|ads| - 1], ads[|ads| - 1];
      ClampIsExact(init, total, hard, t);
      ClampOneExact(last, total, hard, t);
      RequestedConcat(Clamp(init, total, hard), ClampOne(last, total, hard), t);
      RequestedConcat(init, [last], t);
      RequestedOne(last, t);
      assert init + [last] == ads;
    }
  }
}
