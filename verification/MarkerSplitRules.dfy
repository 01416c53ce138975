/** When a marker is split at trims or at releases, and when it stays whole. */
module MarkerSplitRules {
  import opened Basics
  import opened Spans
  import opened MarkerSplits

  // ----- The confirm that covers a marker -----

  /** The confirm's bounds or its own span have half of the audio. */
  ghost predicate HasHalf(c: Confirm, s: Span) {
    HalfIn(s, c.bounds) || (c.confirmedSpan.Some? && HalfIn(s, c.confirmedSpan.value))
  }

  /** Confirm k is the newest that has half of the audio. */
  ghost predicate NewestWithHalf(cs: seq<Confirm>, s: Span, k: nat) {
    k < |cs| && HasHalf(cs[k], s) && forall j :: 0 <= j < k ==> !HasHalf(cs[j], s)
  }

  lemma HasHalfIs(c: Confirm, s: Span)
    requires s.lo < s.hi
    ensures CoversHalf(c, s) <==> HasHalf(c, s)
  {
    HalfIs(s, c.bounds);
    if c.confirmedSpan.Some? {
      HalfIs(s, c.confirmedSpan.value);
    }
    hide OverlapRatio, HalfIn;
  }

  lemma {:induction false} FirstCoveringIs(cs: seq<Confirm>, s: Span, c: Confirm)
    requires s.lo < s.hi
    ensures FirstCovering(cs, s) == Some(c) <==> exists k: nat :: NewestWithHalf(cs, s, k) && cs[k] == c
  {
    hide CoversHalf, HasHalf;
    if cs != [] {
      HasHalfIs(cs[0], s);
      FirstCoveringIs(cs[1..], s, c);
      if CoversHalf(cs[0], s) {
        assert NewestWithHalf(cs, s, 0);
      } else {
        if k: nat :| NewestWithHalf(cs[1..], s, k) && cs[1..][k] == c {
          assert NewestWithHalf(cs, s, k + 1);
        }
        if k: nat :| NewestWithHalf(cs, s, k) && cs[k] == c {
          assert NewestWithHalf(cs[1..], s, k - 1);
        }
      }
    }
  }

  /** A marker of a millisecond or more is matched by the newest confirm that has half of it. */
  lemma MatchIs(cs: seq<Confirm>, s: Span, c: Confirm)
    ensures MatchingConfirm(cs, s) == Some(c)
       <==> s.hi - s.lo >= 0.001 && exists k: nat :: NewestWithHalf(cs, s, k) && cs[k] == c
  {
    hide FirstCovering, NewestWithHalf;
    if s.hi - s.lo >= 0.001 {
      FirstCoveringIs(cs, s, c);
    }
  }

  // ----- The trim split -----

  /** The newest confirm that has half of the marker names a span of its own: the marker is left to it. */
  ghost predicate LeftToConfirm(cs: seq<Confirm>, s: Span) {
    s.hi - s.lo >= 0.001 && exists k: nat :: NewestWithHalf(cs, s, k) && cs[k].confirmedSpan.Some?
  }

  lemma LeftIs(cs: seq<Confirm>, s: Span)
    ensures SpanMatched(cs, s) <==> LeftToConfirm(cs, s)
  {
    hide MatchingConfirm, HasHalf;
    var m := MatchingConfirm(cs, s);
    if m.Some? {
      MatchIs(cs, s, m.value);
    }
    if s.hi - s.lo >= 0.001 {
      if k: nat :| NewestWithHalf(cs, s, k) && cs[k].confirmedSpan.Some? {
        MatchIs(cs, s, cs[k]);
      }
    }
  }

  ghost predicate Clear(s: Span, range: Span) { s.hi <= range.lo || range.hi <= s.lo }

  /** A marker outside every trimmed range, or left to a confirm, comes out whole. */
  lemma {:induction false} MarkersStayWhole(ad: Marker, ranges: seq<Span>, cs: seq<Confirm>)
    requires LeftToConfirm(cs, ad.span) || forall r :: r in ranges ==> Clear(ad.span, r)
    ensures TrimSplit([ad], ranges, cs) == [ad]
  {
    hide SpanMatched, LeftToConfirm;
    if ranges != [] {
      var init, last := ranges[..|ranges| - 1], ranges[|ranges| - 1];
      assert forall r :: r in init ==> r in ranges;
      MarkersStayWhole(ad, init, cs);
      LeftIs(cs, ad.span);
      assert [ad][..0] == [] && SplitAll([], last, cs) == [];
      assert SplitAll([ad], last, cs) == SplitAll([ad][..0], last, cs) + SplitOne(ad, last, cs);
      assert last in ranges;
    }
  }

  /** Over one range that it meets, any other marker is cut into what lies before, in and after it, the middle kept. */
  lemma TrimmedMarkerIsCut(ad: Marker, range: Span, cs: seq<Confirm>)
    requires !LeftToConfirm(cs, ad.span) && ad.span.lo < range.hi && range.lo < ad.span.hi
    requires ad.span.lo < ad.span.hi && range.lo < range.hi
    ensures var before := if ad.span.lo < range.lo then [ad.(span := Span(ad.span.lo, range.lo))] else [];
      var after := if range.hi < ad.span.hi then [ad.(span := Span(range.hi, ad.span.hi))] else [];
      var inside := Span(MaxReal(ad.span.lo, range.lo), MinReal(ad.span.hi, range.hi));
      TrimSplit([ad], [range], cs) == before + [Marker(inside, true, ad.reviewerRejected, false)] + after
  {
    hide SpanMatched, LeftToConfirm;
    LeftIs(cs, ad.span);
    assert [range][..0] == [] && TrimSplit([ad], [], cs) == [ad];
    assert [ad][..0] == [] && SplitAll([], range, cs) == [];
    assert TrimSplit([ad], [range], cs) == SplitAll(TrimSplit([ad], [range][..0], cs), range, cs);
    assert SplitAll([ad], range, cs) == SplitAll([ad][..0], range, cs) + SplitOne(ad, range, cs);
  }

  /** After all ranges a fragment is kept inside one of them, or meets none unless a confirm has it. */
  lemma FragmentsAreSettled(ad: Marker, ranges: seq<Span>, cs: seq<Confirm>, f: Marker)
    requires ad.span.lo < ad.span.hi && !ad.keptByTrim && Apart(ranges) && Positive(ranges)
    requires f in TrimSplit([ad], ranges, cs)
    ensures f.keptByTrim ==> exists r :: r in ranges && r.lo <= f.span.lo && f.span.hi <= r.hi
    ensures !f.keptByTrim ==> LeftToConfirm(cs, f.span) || forall r :: r in ranges ==> Clear(f.span, r)
  {
    hide TrimSplit, SpanMatched, LeftToConfirm;
    TrimSplitSettles(ad, ranges, cs);
    LeftIs(cs, f.span);
    assert Settled(f, ranges, cs);
    if f.keptByTrim {
      var i :| 0 <= i < |ranges| && ranges[i].lo <= f.span.lo && f.span.hi <= ranges[i].hi;
      assert ranges[i] in ranges;
    }
  }

  // ----- The split at releases -----

  /** c is a release filed for the same hold as the newest confirm, and its span reaches into the marker. */
  ghost predicate ReleaseOf(c: Confirm, newest: Confirm, s: Span) {
    && c.autoFiled && c.confirmedSpan.Some? && c.confirmedSpan.value.lo < s.hi && s.lo < c.confirmedSpan.value.hi
    && (c.bounds == newest.bounds || (c.holdId.Some? && c.holdId == newest.holdId))
  }

  ghost function ReleasesIn(cs: seq<Confirm>, newest: Confirm, s: Span): seq<Confirm> {
    if cs == [] then []
    else (if ReleaseOf(cs[0], newest, s) then [cs[0]] else []) + ReleasesIn(cs[1..], newest, s)
  }

  /** The part of a group that its first confirm makes up. */
  ghost function One(b: bool, c: Confirm): seq<Confirm> { if b then [c] else [] }

  lemma ReachingOne(b: bool, c: Confirm, s: Span)
    ensures Reaching(One(b, c), s) == One(b && c.confirmedSpan.Some? && Overlap(c.confirmedSpan.value, s), c)
  {
    assert [c][1..] == [];
  }

  lemma ReachingUnfolds(c: Confirm, rest: seq<Confirm>, s: Span)
    ensures Reaching([c] + rest, s) == Reaching([c], s) + Reaching(rest, s)
  {
    assert ([c] + rest)[1..] == rest && [c][1..] == [];
    hide Overlap;
  }

  lemma {:induction false} ReachingConcat(a: seq<Confirm>, b: seq<Confirm>, s: Span)
    ensures Reaching(a + b, s) == Reaching(a, s) + Reaching(b, s)
  {
    hide Reaching;
    if a == [] {
      assert a + b == b;
      EmptyReaching(s);
    } else {
      ReachingConcat(a[1..], b, s);
      ReachingUnfolds(a[0], a[1..] + b, s);
      ReachingUnfolds(a[0], a[1..], s);
      assert [a[0]] + (a[1..] + b) == a + b && [a[0]] + a[1..] == a;
    }
  }

  lemma EmptyReaching(s: Span)
    ensures Reaching([], s) == []
  {
  }

  /** A release is filed under its bounds or, failing that, under its hold: once either way. */
  lemma OnceInTheGroup(c: Confirm, newest: Confirm, s: Span, same: bool, held: bool)
    requires same <==> IsRelease(c) && c.bounds == newest.bounds
    requires held <==> IsRelease(c) && c.holdId.Some? && c.holdId == newest.holdId && c.bounds != newest.bounds
    ensures multiset(Reaching(One(same, c), s)) + multiset(Reaching(One(held, c), s))
         == multiset(One(ReleaseOf(c, newest, s), c))
  {
    ReachingOne(same, c, s);
    ReachingOne(held, c, s);
    hide Reaching;
  }

  lemma {:induction false} GroupIs(cs: seq<Confirm>, newest: Confirm, s: Span)
    ensures multiset(Reaching(SameBounds(cs, newest), s)) + multiset(Reaching(SameHoldOnly(cs, newest), s))
         == multiset(ReleasesIn(cs, newest, s))
  {
    hide Reaching, ReleaseOf, IsRelease;
    if cs == [] {
      EmptyReaching(s);
    } else {
      var c := cs[0];
      var same := IsRelease(c) && c.bounds == newest.bounds;
      var held := IsRelease(c) && c.holdId.Some? && c.holdId == newest.holdId && c.bounds != newest.bounds;
      assert SameBounds(cs, newest) == One(same, c) + SameBounds(cs[1..], newest);
      assert SameHoldOnly(cs, newest) == One(held, c) + SameHoldOnly(cs[1..], newest);
      assert ReleasesIn(cs, newest, s) == One(ReleaseOf(c, newest, s), c) + ReleasesIn(cs[1..], newest, s);
      GroupIs(cs[1..], newest, s);
      OnceInTheGroup(c, newest, s, same, held);
      hide SameBounds, SameHoldOnly, ReleasesIn, One;
      ReachingConcat(One(same, c), SameBounds(cs[1..], newest), s);
      ReachingConcat(One(held, c), SameHoldOnly(cs[1..], newest), s);
    }
  }

  /** The releases of a marker's hold, by the start of what they release. */
  ghost predicate ReleaseList(cs: seq<Confirm>, newest: Confirm, s: Span, rs: seq<Confirm>) {
    && multiset(rs) == multiset(ReleasesIn(cs, newest, s)) && (forall c :: c in rs ==> c.confirmedSpan.Some?)
    && forall i, j :: 0 <= i < j < |rs| ==> rs[i].confirmedSpan.value.lo <= rs[j].confirmedSpan.value.lo
  }

  lemma ReleasesAre(cs: seq<Confirm>, newest: Confirm, s: Span)
    ensures ReleaseList(cs, newest, s, Releases(cs, newest, s))
  {
    GroupIs(cs, newest, s);
    ReachingConcat(SameBounds(cs, newest), SameHoldOnly(cs, newest), s);
    ReleasesHaveSpans(cs, newest, s);
    hide Reaching, SameBounds, SameHoldOnly, ReleasesIn;
    SortByIsSorted(Reaching(SameBounds(cs, newest) + SameHoldOnly(cs, newest), s), ReleaseStart());
  }

  /** Each marker is split on its own, in order. */
  lemma {:induction false} HoldsSplitPerMarker(a: seq<Marker>, b: seq<Marker>, cs: seq<Confirm>)
    ensures SplitHolds(a + b, cs) == SplitHolds(a, cs) + SplitHolds(b, cs)
    ensures forall ad :: b == [ad] ==> SplitHolds(b, cs) == SplitHold(ad, cs)
    decreases |b|
  {
    hide SplitHold;
    if b == [] {
      assert a + b == a;
    } else {
      var n := |b| - 1;
      HoldsSplitPerMarker(a, b[..n], cs);
      assert (a + b)[..|a + b| - 1] == a + b[..n];
    }
  }

  /** No release runs into the next. */
  ghost predicate OneByOne(rs: seq<Confirm>) {
    forall i :: 0 <= i < |rs| - 1 ==> EndsBefore(rs, i)
  }

  ghost predicate EndsBefore(rs: seq<Confirm>, i: nat)
    requires i + 1 < |rs|
  {
    rs[i].confirmedSpan.Some? && rs[i + 1].confirmedSpan.Some?
    && rs[i].confirmedSpan.value.hi <= rs[i + 1].confirmedSpan.value.lo
  }

  lemma OneByOneIs(rs: seq<Confirm>)
    requires forall c :: c in rs ==> c.confirmedSpan.Some?
    ensures OneByOne(rs) <==> !AnyOverlap(rs)
  {
    forall i: nat | i + 1 < |rs| ensures EndsBefore(rs, i) <==> !RunsInto(rs, i) {
      assert rs[i] in rs && rs[i + 1] in rs;
    }
  }

  /**
   * A hold is split exactly when its newest confirm is a release, and two or more releases of the hold reach into it
   * one after another; a marker that is not split is pinned to its only release, or to the confirm that has it.
   */
  lemma HoldsSplitExactly(ad: Marker, cs: seq<Confirm>) returns (rs: seq<Confirm>)
    ensures ad.reviewerRejected || ad.keptByTrim || MatchingConfirm(cs, ad.span).None? ==>
              SplitHold(ad, cs) == [Pinned(ad.span, None)]
    ensures !(ad.reviewerRejected || ad.keptByTrim) && MatchingConfirm(cs, ad.span).Some? ==>
      var newest := MatchingConfirm(cs, ad.span).value;
      && (!newest.autoFiled ==> SplitHold(ad, cs) == [Pinned(ad.span, Some(newest))])
      && (newest.autoFiled ==>
            && ReleaseList(cs, newest, ad.span, rs)
            && (|rs| == 1 ==> SplitHold(ad, cs) == [Pinned(ad.span, Some(rs[0]))])
            && (Split(ad, cs) <==> |rs| >= 2 && OneByOne(rs))
            && (|rs| != 1 && !Split(ad, cs) ==> SplitHold(ad, cs) == [Pinned(ad.span, Some(newest))]))
  {
    hide MatchingConfirm, Releases, AnyOverlap, OneByOne, ReleaseList;
    rs := [];
    var m := MatchingConfirm(cs, ad.span);
    if m.Some? {
      rs := Releases(cs, m.value, ad.span);
      ReleasesAre(cs, m.value, ad.span);
      ReleasesHaveSpans(cs, m.value, ad.span);
      OneByOneIs(rs);
    }
  }
}
