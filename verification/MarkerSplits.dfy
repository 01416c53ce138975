/** Splitting markers: at audio a user trimmed out, and at the releases of one hold. */
module MarkerSplits {
  import opened Basics
  import opened Spans

  /** A confirm on file, newest first in a list. */
  datatype Confirm = Confirm(bounds: Span, confirmedSpan: Option<Span>, autoFiled: bool, holdId: Option<string>)

  /** A marker, with the flags splitting reads or sets. */
  datatype Marker = Marker(span: Span, keptByTrim: bool, reviewerRejected: bool, measuredSplit: bool)

  // ----- The newest covering confirm -----

  predicate CoversHalf(c: Confirm, s: Span) {
    OverlapRatio(c.bounds, s) >= CORRECTION_MATCH_MIN_COVERAGE
    || (c.confirmedSpan.Some? && OverlapRatio(c.confirmedSpan.value, s) >= CORRECTION_MATCH_MIN_COVERAGE)
  }

  function FirstCovering(cs: seq<Confirm>, s: Span): (r: Option<Confirm>)
    ensures r.Some? ==> r.value in cs
  {
    if cs == [] then None else if CoversHalf(cs[0], s) then Some(cs[0]) else FirstCovering(cs[1..], s)
  }

  function MatchingConfirm(cs: seq<Confirm>, s: Span): (r: Option<Confirm>)
    ensures r.Some? ==> r.value in cs
  {
    if s.hi - s.lo < 0.001 then None else FirstCovering(cs, s)
  }

  /** A confirm with a span of its own matches these bounds, so the trim split leaves them whole. */
  predicate SpanMatched(cs: seq<Confirm>, s: Span) {
    var m := MatchingConfirm(cs, s);
    m.Some? && m.value.confirmedSpan.Some?
  }

  // ----- The trim split -----

  function SplitOne(ad: Marker, range: Span, cs: seq<Confirm>): seq<Marker> {
    var lo, hi := MaxReal(ad.span.lo, range.lo), MinReal(ad.span.hi, range.hi);
    if hi <= lo || SpanMatched(cs, ad.span) then [ad]
    else
      (if ad.span.lo < lo then [ad.(span := Span(ad.span.lo, lo))] else [])
      + [ad.(span := Span(lo, hi), keptByTrim := true, measuredSplit := false)]
      + (if hi < ad.span.hi then [ad.(span := Span(hi, ad.span.hi))] else [])
  }

  function SplitAll(ads: seq<Marker>, range: Span, cs: seq<Confirm>): seq<Marker> {
    if ads == [] then [] else SplitAll(ads[..|ads| - 1], range, cs) + SplitOne(ads[|ads| - 1], range, cs)
  }

  function TrimSplit(ads: seq<Marker>, ranges: seq<Span>, cs: seq<Confirm>): seq<Marker> {
    if ranges == [] then ads
    else SplitAll(TrimSplit(ads, ranges[..|ranges| - 1], cs), ranges[|ranges| - 1], cs)
  }

  method SplitAtTrims(ads: seq<Marker>, ranges: seq<Span>, cs: seq<Confirm>) returns (out: seq<Marker>)
    ensures out == TrimSplit(ads, ranges, cs)
  {
    hide SpanMatched;
    out := ads;
    for i := 0 to |ranges|
      invariant out == TrimSplit(ads, ranges[..i], cs)
    {
      assert ranges[..i + 1][..i] == ranges[..i];
      out := SplitAtRange(out, ranges[i], cs);
    }
    assert ranges[..|ranges|] == ranges;
  }

  method SplitAtRange(ads: seq<Marker>, range: Span, cs: seq<Confirm>) returns (split: seq<Marker>)
    ensures split == SplitAll(ads, range, cs)
  {
    hide SpanMatched;
    split := [];
    for j := 0 to |ads|
      invariant split == SplitAll(ads[..j], range, cs)
    {
      assert ads[..j + 1][..j] == ads[..j];
      var ad := ads[j];
      var lo, hi := MaxReal(ad.span.lo, range.lo), MinReal(ad.span.hi, range.hi);
      if hi <= lo || SpanMatched(cs, ad.span) {
        split := split + [ad];
        continue;
      }
      var parts := if ad.span.lo < lo then [ad.(span := Span(ad.span.lo, lo))] else [];
      parts := parts + [ad.(span := Span(lo, hi), keptByTrim := true, measuredSplit := false)];
      if hi < ad.span.hi {
        parts := parts + [ad.(span := Span(hi, ad.span.hi))];
      }
      assert parts == SplitOne(ad, range, cs);
      split := split + parts;
    }
    assert ads[..|ads|] == ads;
  }

  /** The pieces run end to end from lo to hi, none empty. */
  ghost predicate Tiles(ps: seq<Marker>, lo: real, hi: real) {
    && ps != [] && ps[0].span.lo == lo && ps[|ps| - 1].span.hi == hi
    && (forall i :: 0 <= i < |ps| ==> ps[i].span.lo < ps[i].span.hi)
    && (forall i :: 0 <= i < |ps| - 1 ==> MeetAt(ps, i))
  }

  ghost predicate MeetAt(ps: seq<Marker>, i: nat)
    requires i + 1 < |ps|
  {
    ps[i].span.hi == ps[i + 1].span.lo
  }

  lemma TilesConcat(a: seq<Marker>, b: seq<Marker>, lo: real, mid: real, hi: real)
    requires Tiles(a, lo, mid) && Tiles(b, mid, hi)
    ensures Tiles(a + b, lo, hi)
  {
    forall i: nat | i < |a + b| - 1 ensures MeetAt(a + b, i) {
      if i < |a| - 1 {
        assert MeetAt(a, i);
      } else if i >= |a| {
        assert MeetAt(b, i - |a|);
      }
    }
  }

  lemma SplitOneTiles(ad: Marker, range: Span, cs: seq<Confirm>)
    requires ad.span.lo < ad.span.hi
    ensures Tiles(SplitOne(ad, range, cs), ad.span.lo, ad.span.hi)
  {
    hide SpanMatched;
    var out := SplitOne(ad, range, cs);
    forall i: nat | i < |out| - 1 ensures MeetAt(out, i) {
    }
  }

  lemma {:induction false} SplitAllTiles(ps: seq<Marker>, range: Span, cs: seq<Confirm>, lo: real, hi: real)
    requires Tiles(ps, lo, hi)
    ensures Tiles(SplitAll(ps, range, cs), lo, hi)
  {
    hide SplitOne;
    var n := |ps| - 1;
    SplitOneTiles(ps[n], range, cs);
    if n > 0 {
      assert MeetAt(ps, n - 1);
      forall i: nat | i < n - 1 ensures MeetAt(ps[..n], i) {
        assert MeetAt(ps, i);
      }
      SplitAllTiles(ps[..n], range, cs, lo, ps[n].span.lo);
      TilesConcat(SplitAll(ps[..n], range, cs), SplitOne(ps[n], range, cs), lo, ps[n].span.lo, hi);
    } else {
      assert SplitAll(ps, range, cs) == SplitOne(ps[0], range, cs);
    }
  }

  /** Trimming conserves audio: a marker's fragments tile it. */
  lemma {:induction false} TrimSplitTiles(ad: Marker, ranges: seq<Span>, cs: seq<Confirm>)
    requires ad.span.lo < ad.span.hi
    ensures Tiles(TrimSplit([ad], ranges, cs), ad.span.lo, ad.span.hi)
  {
    if ranges != [] {
      var init := ranges[..|ranges| - 1];
      TrimSplitTiles(ad, init, cs);
      SplitAllTiles(TrimSplit([ad], init, cs), ranges[|ranges| - 1], cs, ad.span.lo, ad.span.hi);
    }
  }

  lemma {:induction false} SplitAllConcat(a: seq<Marker>, b: seq<Marker>, range: Span, cs: seq<Confirm>)
    ensures SplitAll(a + b, range, cs) == SplitAll(a, range, cs) + SplitAll(b, range, cs)
  {
    hide SplitOne;
    if b == [] {
      assert a + b == a;
    } else {
      var n := |b| - 1;
      SplitAllConcat(a, b[..n], range, cs);
      assert (a + b)[..|a + b| - 1] == a + b[..n];
    }
  }

  /** Each marker is split on its own: the whole list's result is the markers' results in order. */
  lemma {:induction false} TrimSplitPerMarker(a: seq<Marker>, b: seq<Marker>, ranges: seq<Span>, cs: seq<Confirm>)
    ensures TrimSplit(a + b, ranges, cs) == TrimSplit(a, ranges, cs) + TrimSplit(b, ranges, cs)
  {
    if ranges != [] {
      var init := ranges[..|ranges| - 1];
      TrimSplitPerMarker(a, b, init, cs);
      SplitAllConcat(TrimSplit(a, init, cs), TrimSplit(b, init, cs), ranges[|ranges| - 1], cs);
    }
  }

  /**
   * A kept fragment lies in one trimmed-out range; any other is clear of all of them, or matched by a confirmed span.
   */
  ghost predicate Settled(f: Marker, ranges: seq<Span>, cs: seq<Confirm>) {
    if f.keptByTrim then exists i :: 0 <= i < |ranges| && ranges[i].lo <= f.span.lo && f.span.hi <= ranges[i].hi
    else forall i :: 0 <= i < |ranges| && Overlap(f.span, ranges[i]) ==> SpanMatched(cs, f.span)
  }

  lemma SplitOneSettles(ad: Marker, range: Span, ranges: seq<Span>, cs: seq<Confirm>)
    requires Settled(ad, ranges, cs) && ad.span.lo < ad.span.hi && range.lo < range.hi
    requires forall i :: 0 <= i < |ranges| ==> !Overlap(ranges[i], range)
    ensures forall f :: f in SplitOne(ad, range, cs) ==> Settled(f, ranges + [range], cs)
  {
    hide SpanMatched;
    var all := ranges + [range];
    if ad.keptByTrim {
      var i :| 0 <= i < |ranges| && ranges[i].lo <= ad.span.lo && ad.span.hi <= ranges[i].hi;
      assert !Overlap(ranges[i], range);
      assert all[i] == ranges[i];
    } else {
      forall f | f in SplitOne(ad, range, cs) ensures Settled(f, all, cs) {
        if f.keptByTrim {
          assert all[|ranges|].lo <= f.span.lo && f.span.hi <= all[|ranges|].hi;
        } else {
          var lo, hi := MaxReal(ad.span.lo, range.lo), MinReal(ad.span.hi, range.hi);
          assert f == ad || f.span == Span(ad.span.lo, lo) || f.span == Span(hi, ad.span.hi);
          forall i | 0 <= i < |all| && Overlap(f.span, all[i]) ensures SpanMatched(cs, f.span) {
            assert i < |ranges| ==> all[i] == ranges[i] && Overlap(ad.span, ranges[i]);
          }
        }
      }
    }
  }

  lemma {:induction false} SplitAllSettles(ps: seq<Marker>, range: Span, ranges: seq<Span>, cs: seq<Confirm>)
    requires range.lo < range.hi
    requires forall f :: f in ps ==> Settled(f, ranges, cs) && f.span.lo < f.span.hi
    requires forall i :: 0 <= i < |ranges| ==> !Overlap(ranges[i], range)
    ensures forall f :: f in SplitAll(ps, range, cs) ==> Settled(f, ranges + [range], cs)
  {
    hide SplitOne, Settled;
    if ps != [] {
      SplitAllSettles(ps[..|ps| - 1], range, ranges, cs);
      SplitOneSettles(ps[|ps| - 1], range, ranges, cs);
    }
  }

  /** After the split every fragment of a marker is settled against every trimmed-out range. */
  lemma {:induction false} TrimSplitSettles(ad: Marker, ranges: seq<Span>, cs: seq<Confirm>)
    requires ad.span.lo < ad.span.hi && !ad.keptByTrim
    requires Apart(ranges) && Positive(ranges)
    ensures forall f :: f in TrimSplit([ad], ranges, cs) ==> Settled(f, ranges, cs)
  {
    hide SplitOne, SpanMatched;
    if ranges != [] {
      var init, last := ranges[..|ranges| - 1], ranges[|ranges| - 1];
      TrimSplitSettles(ad, init, cs);
      TrimSplitTiles(ad, init, cs);
      var before := TrimSplit([ad], init, cs);
      forall f | f in before ensures Settled(f, init, cs) && f.span.lo < f.span.hi {
        var i :| 0 <= i < |before| && before[i] == f;
      }
      SplitAllSettles(before, last, init, cs);
      assert init + [last] == ranges;
    }
  }

  // ----- Splitting a hold at its releases -----

  /** A piece of a marker, with the release it is pinned to, if any. */
  datatype Pinned = Pinned(span: Span, release: Option<Confirm>)

  predicate IsRelease(c: Confirm) { c.autoFiled && c.confirmedSpan.Some? }

  function SameBounds(cs: seq<Confirm>, newest: Confirm): seq<Confirm> {
    if cs == [] then []
    else (if IsRelease(cs[0]) && cs[0].bounds == newest.bounds then [cs[0]] else []) + SameBounds(cs[1..], newest)
  }

  /** Releases of the same hold whose bounds have since changed. */
  function SameHoldOnly(cs: seq<Confirm>, newest: Confirm): seq<Confirm> {
    if cs == [] then []
    else (if IsRelease(cs[0]) && cs[0].holdId.Some? && cs[0].holdId == newest.holdId && cs[0].bounds != newest.bounds
          then [cs[0]] else []) + SameHoldOnly(cs[1..], newest)
  }

  function Reaching(cs: seq<Confirm>, s: Span): (r: seq<Confirm>)
    ensures forall c :: c in r ==> c in cs && c.confirmedSpan.Some? && Overlap(c.confirmedSpan.value, s)
  {
    if cs == [] then []
    else
      (if cs[0].confirmedSpan.Some? && Overlap(cs[0].confirmedSpan.value, s) then [cs[0]] else [])
      + Reaching(cs[1..], s)
  }

  function ReleaseStart(): Confirm -> real {
    (c: Confirm) => if c.confirmedSpan.Some? then c.confirmedSpan.value.lo else 0.0
  }

  function Releases(cs: seq<Confirm>, newest: Confirm, s: Span): seq<Confirm> {
    SortBy(Reaching(SameBounds(cs, newest) + SameHoldOnly(cs, newest), s), ReleaseStart())
  }

  predicate AnyOverlap(rs: seq<Confirm>)
    requires forall c :: c in rs ==> c.confirmedSpan.Some?
  {
    exists i :: 0 <= i < |rs| - 1 && RunsInto(rs, i)
  }

  predicate RunsInto(rs: seq<Confirm>, i: nat)
    requires i + 1 < |rs| && forall c :: c in rs ==> c.confirmedSpan.Some?
  {
    rs[i].confirmedSpan.value.hi > rs[i + 1].confirmedSpan.value.lo
  }

  /** Where piece i starts: the marker's start, then each release's end. */
  function PieceStart(s: Span, rs: seq<Confirm>, i: nat): real
    requires i < |rs| && forall c :: c in rs ==> c.confirmedSpan.Some?
  {
    if i == 0 then s.lo else rs[i - 1].confirmedSpan.value.hi
  }

  function PieceEnd(s: Span, rs: seq<Confirm>, i: nat): real
    requires i < |rs| && forall c :: c in rs ==> c.confirmedSpan.Some?
  {
    if i == |rs| - 1 then s.hi else rs[i].confirmedSpan.value.hi
  }

  function Pieces(s: Span, rs: seq<Confirm>, n: nat): (r: seq<Pinned>)
    requires n <= |rs| && forall c :: c in rs ==> c.confirmedSpan.Some?
    ensures |r| == n
    ensures forall i :: 0 <= i < n ==> r[i] == Pinned(Span(PieceStart(s, rs, i), PieceEnd(s, rs, i)), Some(rs[i]))
  {
    if n == 0 then []
    else Pieces(s, rs, n - 1) + [Pinned(Span(PieceStart(s, rs, n - 1), PieceEnd(s, rs, n - 1)), Some(rs[n - 1]))]
  }

  lemma ReleasesHaveSpans(cs: seq<Confirm>, newest: Confirm, s: Span)
    ensures forall c :: c in Releases(cs, newest, s) ==>
      && c.confirmedSpan.Some? && Overlap(c.confirmedSpan.value, s)
      && c in SameBounds(cs, newest) + SameHoldOnly(cs, newest)
    ensures forall i, j :: 0 <= i < j < |Releases(cs, newest, s)| ==>
      ReleaseStart()(Releases(cs, newest, s)[i]) <= ReleaseStart()(Releases(cs, newest, s)[j])
  {
    var group := Reaching(SameBounds(cs, newest) + SameHoldOnly(cs, newest), s);
    SortByMembers(group, ReleaseStart());
    SortByIsSorted(group, ReleaseStart());
  }

  function SplitHold(ad: Marker, cs: seq<Confirm>): seq<Pinned> {
    var newest := MatchingConfirm(cs, ad.span);
    if ad.reviewerRejected || ad.keptByTrim || newest.None? then [Pinned(ad.span, None)]
    else if !newest.value.autoFiled then [Pinned(ad.span, newest)]
    else
      var rs := Releases(cs, newest.value, ad.span);
      ReleasesHaveSpans(cs, newest.value, ad.span);
      if |rs| == 1 then [Pinned(ad.span, Some(rs[0]))]
      else if |rs| == 0 || AnyOverlap(rs) then [Pinned(ad.span, newest)]
      else Pieces(ad.span, rs, |rs|)
  }

  function SplitHolds(ads: seq<Marker>, cs: seq<Confirm>): seq<Pinned> {
    if ads == [] then [] else SplitHolds(ads[..|ads| - 1], cs) + SplitHold(ads[|ads| - 1], cs)
  }

  method SplitMultiReleaseHolds(ads: seq<Marker>, cs: seq<Confirm>) returns (out: seq<Pinned>)
    ensures out == SplitHolds(ads, cs)
  {
    hide MatchingConfirm, Releases, AnyOverlap, PieceStart, PieceEnd;
    out := [];
    for k := 0 to |ads|
      invariant out == SplitHolds(ads[..k], cs)
    {
      assert ads[..k + 1][..k] == ads[..k];
      var ad := ads[k];
      var newest := MatchingConfirm(cs, ad.span);
      if ad.reviewerRejected || ad.keptByTrim || newest.None? {
        out := out + [Pinned(ad.span, None)];
        continue;
      }
      if !newest.value.autoFiled {
        out := out + [Pinned(ad.span, newest)];
        continue;
      }
      var releases := Releases(cs, newest.value, ad.span);
      ReleasesHaveSpans(cs, newest.value, ad.span);
      var pin := if |releases| == 1 then Some(releases[0]) else newest;
      if |releases| < 2 || AnyOverlap(releases) {
        out := out + [Pinned(ad.span, pin)];
        continue;
      }
      ghost var before := out;
      for i := 0 to |releases|
        invariant out == before + Pieces(ad.span, releases, i)
      {
        var piece := Span(PieceStart(ad.span, releases, i), PieceEnd(ad.span, releases, i));
        out := out + [Pinned(piece, Some(releases[i]))];
      }
    }
    assert ads[..|ads|] == ads;
  }

  ghost predicate RealReleases(cs: seq<Confirm>) {
    forall c :: c in cs && IsRelease(c) ==> c.confirmedSpan.value.lo < c.confirmedSpan.value.hi
  }

  lemma {:induction false} GroupMembers(cs: seq<Confirm>, newest: Confirm)
    ensures forall c :: c in SameBounds(cs, newest) + SameHoldOnly(cs, newest) ==> c in cs && IsRelease(c)
  {
    if cs != [] {
      GroupMembers(cs[1..], newest);
      forall c | c in SameBounds(cs, newest) + SameHoldOnly(cs, newest) ensures c in cs && IsRelease(c) {
        if c != cs[0] {
          assert c in SameBounds(cs[1..], newest) + SameHoldOnly(cs[1..], newest);
        }
      }
    }
  }

  /** The pieces of a split hold. */
  ghost predicate Split(ad: Marker, cs: seq<Confirm>) { |SplitHold(ad, cs)| >= 2 }

  lemma SplitMeans(ad: Marker, cs: seq<Confirm>) returns (newest: Confirm, rs: seq<Confirm>)
    requires Split(ad, cs)
    ensures rs == Releases(cs, newest, ad.span) && |rs| >= 2
    ensures forall c :: c in rs ==> c.confirmedSpan.Some?
    ensures !AnyOverlap(rs) && SplitHold(ad, cs) == Pieces(ad.span, rs, |rs|)
  {
    hide MatchingConfirm, Releases, AnyOverlap;
    newest := MatchingConfirm(cs, ad.span).value;
    rs := Releases(cs, newest, ad.span);
    ReleasesHaveSpans(cs, newest, ad.span);
  }

  lemma SplitIsByReleases(ad: Marker, cs: seq<Confirm>) returns (rs: seq<Confirm>)
    requires Split(ad, cs)
    ensures forall c :: c in rs ==> c.confirmedSpan.Some?
    ensures RealReleases(cs) ==> forall c :: c in rs ==> c.confirmedSpan.value.lo < c.confirmedSpan.value.hi
    ensures SplitHold(ad, cs) == Pieces(ad.span, rs, |rs|) && |rs| >= 2
    ensures forall i :: 0 <= i < |rs| ==> ReleaseAt(rs, i, ad.span)
    ensures forall i, j :: 0 <= i < j < |rs| ==> rs[i].confirmedSpan.value.hi <= rs[j].confirmedSpan.value.lo
  {
    hide SplitHold, MatchingConfirm, Releases, SameBounds, SameHoldOnly, AnyOverlap, ReleaseStart, Pieces;
    var newest;
    newest, rs := SplitMeans(ad, cs);
    ReleasesHaveSpans(cs, newest, ad.span);
    GroupMembers(cs, newest);
    forall i | 0 <= i < |rs| ensures ReleaseAt(rs, i, ad.span) {
      assert rs[i] in rs;
    }
    NoOverlapIsOrder(rs);
  }

  lemma NoOverlapIsOrder(rs: seq<Confirm>)
    requires forall c :: c in rs ==> c.confirmedSpan.Some?
    requires !AnyOverlap(rs)
    requires forall i, j :: 0 <= i < j < |rs| ==> ReleaseStart()(rs[i]) <= ReleaseStart()(rs[j])
    ensures forall i, j :: 0 <= i < j < |rs| ==> rs[i].confirmedSpan.value.hi <= rs[j].confirmedSpan.value.lo
  {
    forall i, j | 0 <= i < j < |rs| ensures rs[i].confirmedSpan.value.hi <= rs[j].confirmedSpan.value.lo {
      assert !RunsInto(rs, i);
      assert i + 1 < j ==> ReleaseStart()(rs[i + 1]) <= ReleaseStart()(rs[j]);
    }
  }

  ghost predicate ReleaseAt(rs: seq<Confirm>, i: nat, s: Span)
    requires i < |rs|
  {
    rs[i].confirmedSpan.Some? && Overlap(rs[i].confirmedSpan.value, s)
  }

  ghost predicate Adjoin(ps: seq<Pinned>, i: nat)
    requires i + 1 < |ps|
  {
    ps[i].span.hi == ps[i + 1].span.lo
  }

  /**
   * An inner piece has length exactly when its release ends past the one before; the first and the last always have.
   */
  ghost predicate HasLengthExactly(ps: seq<Pinned>, i: nat)
    requires i < |ps| && forall k :: 0 <= k < |ps| ==> ps[k].release.Some? && ps[k].release.value.confirmedSpan.Some?
  {
    ps[i].span.lo < ps[i].span.hi <==>
      (|| i == 0
       || i == |ps| - 1
       || ps[i - 1].release.value.confirmedSpan.value.hi < ps[i].release.value.confirmedSpan.value.hi)
  }

  /**
   * A split hold's pieces run end to end over it, one for each release, and each
   * release's audio in the hold is in its piece.
   */
  lemma HoldPiecesTile(ad: Marker, cs: seq<Confirm>)
    requires Split(ad, cs)
    ensures var ps := SplitHold(ad, cs);
      && ps[0].span.lo == ad.span.lo && ps[|ps| - 1].span.hi == ad.span.hi
      && (forall i :: 0 <= i < |ps| - 1 ==> Adjoin(ps, i))
      && (forall i :: 0 <= i < |ps| ==> ps[i].release.Some? && ps[i].release.value.confirmedSpan.Some?)
      && (forall i :: 0 <= i < |ps| ==> HasLengthExactly(ps, i))
      && (RealReleases(cs) ==> forall i :: 0 <= i < |ps| ==> ps[i].span.lo < ps[i].span.hi)
      && (forall i, t: real :: 0 <= i < |ps| && ps[i].release.value.confirmedSpan.value.Has(t) && ad.span.Has(t)
            ==> ps[i].span.Has(t))
  {
    hide SplitHold;
    var rs := SplitIsByReleases(ad, cs);
    var ps := SplitHold(ad, cs);
    forall i | 0 <= i < |ps|
      ensures HasLengthExactly(ps, i)
      ensures RealReleases(cs) ==> ps[i].span.lo < ps[i].span.hi
    {
      assert rs[i] in rs && ReleaseAt(rs, i, ad.span);
      assert i > 0 ==> ReleaseAt(rs, i - 1, ad.span);
    }
    forall i: nat | i < |ps| - 1 ensures Adjoin(ps, i) {
    }
  }

  /** Each piece starts no later than its release, exactly when that release does not begin before the hold itself. */
  lemma PieceStartsByRelease(ad: Marker, cs: seq<Confirm>, i: nat)
    requires Split(ad, cs) && i < |SplitHold(ad, cs)|
    ensures SplitHold(ad, cs)[i].release.Some? && SplitHold(ad, cs)[i].release.value.confirmedSpan.Some?
    ensures var p := SplitHold(ad, cs)[i];
      (p.span.lo <= p.release.value.confirmedSpan.value.lo)
      <==> (i > 0 || ad.span.lo <= p.release.value.confirmedSpan.value.lo)
  {
    hide SplitHold;
    var rs := SplitIsByReleases(ad, cs);
  }

  const HOLD := Span(10.0, 30.0)
  const EARLY := Confirm(HOLD, Some(Span(5.0, 15.0)), true, None)
  const LATE := Confirm(HOLD, Some(Span(20.0, 25.0)), true, None)

  lemma EarlyMatches()
    ensures MatchingConfirm([EARLY, LATE], HOLD) == Some(EARLY)
  {
    assert OverlapRatio(HOLD, HOLD) == 1.0;
  }

  lemma BothReach()
    ensures Releases([EARLY, LATE], EARLY, HOLD) == [EARLY, LATE]
  {
    var cs, none: seq<Confirm> := [EARLY, LATE], [];
    assert cs[1..] == [LATE] && [LATE][1..] == none;
    assert SameBounds(none, EARLY) == none && SameHoldOnly(none, EARLY) == none;
    assert SameBounds([LATE], EARLY) == [LATE];
    assert SameHoldOnly([LATE], EARLY) == none;
    assert SameBounds(cs, EARLY) == cs;
    assert SameHoldOnly(cs, EARLY) == none;
    assert cs + none == cs;
    assert Reaching([LATE], HOLD) == [LATE];
    assert Reaching(cs, HOLD) == cs;
    SortByKeepsSorted(cs, ReleaseStart());
  }

  lemma EarlyEndsFirst()
    ensures !AnyOverlap([EARLY, LATE])
  {
    assert !RunsInto([EARLY, LATE], 0);
  }

  /** A hold filed with two releases, the first of which begins before it: its piece starts later. */
  lemma PieceCanStartLate()
    ensures SplitHold(Marker(HOLD, false, false, false), [EARLY, LATE])
         == [Pinned(Span(10.0, 15.0), Some(EARLY)), Pinned(Span(15.0, 30.0), Some(LATE))]
  {
    hide MatchingConfirm, Releases, AnyOverlap;
    EarlyMatches();
    BothReach();
    EarlyEndsFirst();
  }
}
