/** What the applied cuts guarantee: range, kept audio, order, and conservation of seconds. */
module AppliedCutsProofs {
  import opened Basics
  import opened Spans
  import opened AppliedCuts

  ghost predicate SortedPieces(ps: seq<Segment>) {
    forall i, j :: 0 <= i < j < |ps| ==> ps[i].start <= ps[j].start
  }

  ghost predicate AllOk(ps: seq<Segment>, total: real) {
    forall i :: 0 <= i < |ps| ==> PieceOk(ps[i], total)
  }

  /** Whether instant t lies in an unlocked, barrier-free gap under a second that a merge may close. */
  ghost predicate GapBetween(p: Segment, q: Segment, barriers: seq<Span>, t: real) {
    && p.end <= t < q.start && q.start - p.end < MERGE_GAP_SECONDS
    && !Crosses(barriers, p.end, q.start)
    && !p.userConfirmed && !PreciseEnd(p) && !q.userConfirmed && !PreciseStart(q)
    && p.beep == q.beep
  }

  ghost predicate Bridged(ps: seq<Segment>, barriers: seq<Span>, t: real) {
    exists i, j :: 0 <= i < |ps| && 0 <= j < |ps| && GapBetween(ps[i], ps[j], barriers, t)
  }

  /** cur ends where one of the pieces seen so far does, and carries that piece's end flags. */
  ghost predicate EndsLike(cur: Cut, p: Segment) {
    p.end == cur.end && p.userConfirmed == cur.confirmedEnd && PreciseEnd(p) == cur.preciseEnd && p.beep == cur.beep
  }

  ghost predicate EndsWithOne(cur: Cut, seen: seq<Segment>) {
    exists k :: 0 <= k < |seen| && EndsLike(cur, seen[k])
  }

  lemma BridgedLonger(a: seq<Segment>, b: seq<Segment>, barriers: seq<Span>, t: real)
    requires Bridged(a, barriers, t) || Bridged(b, barriers, t)
    ensures Bridged(a + b, barriers, t)
  {
    if Bridged(a, barriers, t) {
      var i, j :| 0 <= i < |a| && 0 <= j < |a| && GapBetween(a[i], a[j], barriers, t);
      assert (a + b)[i] == a[i] && (a + b)[j] == a[j];
    } else {
      var i, j :| 0 <= i < |b| && 0 <= j < |b| && GapBetween(b[i], b[j], barriers, t);
      assert (a + b)[|a| + i] == b[i] && (a + b)[|a| + j] == b[j];
    }
  }

  lemma ExtendEnds(cur: Cut, ad: Segment, barriers: seq<Span>, seen: seq<Segment>)
    requires EndsWithOne(cur, seen) && Joins(cur, ad, barriers)
    ensures EndsWithOne(Extend(cur, ad), seen + [ad])
  {
    if ad.end > cur.end {
      assert (seen + [ad])[|seen|] == ad;
    } else {
      var k :| 0 <= k < |seen| && EndsLike(cur, seen[k]);
      assert (seen + [ad])[k] == seen[k];
    }
  }

  lemma ExtendAdds(cur: Cut, ad: Segment, barriers: seq<Span>, seen: seq<Segment>, t: real)
    requires EndsWithOne(cur, seen) && Joins(cur, ad, barriers)
    requires cur.Has(t) ==> Requested(seen, t) || Bridged(seen, barriers, t)
    ensures Extend(cur, ad).Has(t) ==> Requested(seen + [ad], t) || Bridged(seen + [ad], barriers, t)
  {
    RequestedConcat(seen, [ad], t);
    RequestedOne(ad, t);
    if cur.Has(t) {
      if Bridged(seen, barriers, t) {
        BridgedLonger(seen, [ad], barriers, t);
      }
    } else if Extend(cur, ad).Has(t) && t < ad.start {
      var k :| 0 <= k < |seen| && EndsLike(cur, seen[k]);
      assert GapBetween((seen + [ad])[k], (seen + [ad])[|seen|], barriers, t);
    }
  }

  lemma IsCutHead(c: Cut, rest: seq<Cut>, t: real)
    ensures IsCut([c] + rest, t) <==> c.Has(t) || IsCut(rest, t)
  {
    if c.Has(t) {
      assert ([c] + rest)[0].Has(t);
    }
    if IsCut(rest, t) {
      var i :| 0 <= i < |rest| && rest[i].Has(t);
      assert ([c] + rest)[i + 1].Has(t);
    }
  }

  /** Merging cuts nothing but requested seconds and bridged gaps. */
  lemma {:induction false} MergeAddsOnlyGaps(cur: Cut, rest: seq<Segment>, barriers: seq<Span>, seen: seq<Segment>,
                                             t: real)
    requires EndsWithOne(cur, seen)
    requires cur.Has(t) ==> Requested(seen, t) || Bridged(seen, barriers, t)
    requires IsCut(MergeFrom(cur, rest, barriers), t)
    ensures Requested(seen + rest, t) || Bridged(seen + rest, barriers, t)
    decreases |rest|
  {
    hide Joins, Extend, Open, EndsWithOne, GapBetween;
    if rest == [] {
      assert seen + rest == seen;
      IsCutHead(cur, [], t);
      assert [cur] + [] == [cur];
    } else if Joins(cur, rest[0], barriers) {
      ExtendEnds(cur, rest[0], barriers, seen);
      ExtendAdds(cur, rest[0], barriers, seen, t);
      MergeAddsOnlyGaps(Extend(cur, rest[0]), rest[1..], barriers, seen + [rest[0]], t);
      assert seen + [rest[0]] + rest[1..] == seen + rest;
    } else {
      IsCutHead(cur, MergeFrom(Open(rest[0]), rest[1..], barriers), t);
      if cur.Has(t) {
        RequestedConcat(seen, rest, t);
        if Bridged(seen, barriers, t) {
          BridgedLonger(seen, rest, barriers, t);
        }
      } else {
        OpenEnds(rest[0], t);
        MergeAddsOnlyGaps(Open(rest[0]), rest[1..], barriers, [rest[0]], t);
        assert [rest[0]] + rest[1..] == rest;
        RequestedConcat(seen, rest, t);
        if Bridged(rest, barriers, t) {
          BridgedLonger(seen, rest, barriers, t);
        }
      }
    }
  }

  lemma OpenEnds(ad: Segment, t: real)
    ensures EndsWithOne(Open(ad), [ad]) && (Open(ad).Has(t) ==> Requested([ad], t))
  {
    assert EndsLike(Open(ad), [ad][0]);
    RequestedOne(ad, t);
  }

  /** c took p in: all of its time, its kind, its confidence, a fingerprint stage and a measured split. */
  ghost predicate TookIn(c: Cut, p: Segment) {
    && c.start <= p.start && p.end <= c.end && c.beep == p.beep && p.confidence <= c.confidence
    && (p.stage == Fingerprint ==> c.stage == Fingerprint) && (p.measuredSplit ==> c.measuredSplit)
  }

  ghost predicate TakenIn(cuts: seq<Cut>, p: Segment) {
    exists i :: 0 <= i < |cuts| && TookIn(cuts[i], p)
  }

  lemma TakenInTail(c: Cut, rest: seq<Cut>, p: Segment)
    requires TakenIn(rest, p)
    ensures TakenIn([c] + rest, p)
  {
    var i :| 0 <= i < |rest| && TookIn(rest[i], p);
    assert TookIn(([c] + rest)[i + 1], p);
  }

  ghost predicate Widens(c: Cut, cur: Cut) {
    c.start == cur.start && cur.end <= c.end && c.beep == cur.beep && cur.confidence <= c.confidence
    && (cur.stage == Fingerprint ==> c.stage == Fingerprint) && (cur.stage != OtherStage ==> c.stage != OtherStage)
    && (cur.measuredSplit ==> c.measuredSplit)
  }

  lemma {:induction false} FirstCutWidens(cur: Cut, rest: seq<Segment>, barriers: seq<Span>)
    ensures MergeFrom(cur, rest, barriers) != [] && Widens(MergeFrom(cur, rest, barriers)[0], cur)
    decreases |rest|
  {
    hide Joins;
    if rest != [] && Joins(cur, rest[0], barriers) {
      FirstCutWidens(Extend(cur, rest[0]), rest[1..], barriers);
    }
  }

  lemma OpenStart(ad: Segment)
    ensures Open(ad).start == ad.start
  {
  }

  lemma StartsBySecond(ps: seq<Segment>)
    requires SortedPieces(ps)
    ensures |ps| > 1 ==> ps[0].start <= ps[1].start
  {
  }

  lemma OpenTakesIn(ad: Segment)
    ensures TookIn(Open(ad), ad) && Open(ad).confirmedEnd == ad.userConfirmed
  {
  }

  lemma TailIsSorted(ps: seq<Segment>)
    requires SortedPieces(ps) && ps != []
    ensures SortedPieces(ps[1..])
  {
  }

  /** Merging starts from the earliest piece. */
  lemma MergedOpens(ps: seq<Segment>, barriers: seq<Span>)
    ensures var sorted := SortBy(ps, StartOf());
      sorted != [] ==> Merged(ps, barriers) == MergeFrom(Open(sorted[0]), sorted[1..], barriers)
  {
    hide MergeFrom, Open, SortBy;
  }

  lemma WiderTakesIn(cuts: seq<Cut>, cur: Cut, p: Segment)
    requires cuts != [] && Widens(cuts[0], cur) && TookIn(cur, p)
    ensures TakenIn(cuts, p)
  {
    assert TookIn(cuts[0], p);
  }

  /** Every piece is taken in by one merged cut. */
  lemma {:induction false} MergeTakesAll(cur: Cut, rest: seq<Segment>, barriers: seq<Span>, k: nat)
    requires k < |rest| && SortedPieces(rest) && cur.start <= rest[0].start
    ensures TakenIn(MergeFrom(cur, rest, barriers), rest[k])
    decreases |rest|
  {
    hide Joins;
    if Joins(cur, rest[0], barriers) {
      if k == 0 {
        var next := Extend(cur, rest[0]);
        FirstCutWidens(next, rest[1..], barriers);
        JoinKeepsKind(cur, rest[0], barriers);
        WiderTakesIn(MergeFrom(next, rest[1..], barriers), next, rest[0]);
      } else {
        MergeTakesAll(Extend(cur, rest[0]), rest[1..], barriers, k - 1);
      }
    } else {
      var tail := MergeFrom(Open(rest[0]), rest[1..], barriers);
      if k == 0 {
        FirstCutWidens(Open(rest[0]), rest[1..], barriers);
        WiderTakesIn(tail, Open(rest[0]), rest[0]);
      } else {
        MergeTakesAll(Open(rest[0]), rest[1..], barriers, k - 1);
      }
      TakenInTail(cur, tail, rest[k]);
    }
  }

  // ----- Order -----

  ghost predicate CutsInOrder(cuts: seq<Cut>) {
    forall i, j :: 0 <= i < j < |cuts| ==> cuts[i].end <= cuts[j].start
  }

  ghost predicate KindsApart(ps: seq<Segment>) {
    forall i, j :: 0 <= i < |ps| && 0 <= j < |ps| && ps[i].beep != ps[j].beep ==> !Meet(ps[i], ps[j])
  }

  predicate Meet(p: Segment, q: Segment) { p.start < q.end && q.start < p.end }

  ghost predicate CutOk(c: Cut, total: real) {
    0.0 <= c.start < c.end <= total
  }

  lemma {:induction false} MergeShape(cur: Cut, rest: seq<Segment>, barriers: seq<Span>, total: real)
    requires AllOk(rest, total) && CutOk(cur, total)
    requires SortedPieces(rest) && (rest != [] ==> cur.start <= rest[0].start)
    ensures forall i :: 0 <= i < |MergeFrom(cur, rest, barriers)| ==>
      CutOk(MergeFrom(cur, rest, barriers)[i], total) && cur.start <= MergeFrom(cur, rest, barriers)[i].start
    decreases |rest|
  {
    hide Joins;
    if rest != [] {
      if Joins(cur, rest[0], barriers) {
        MergeShape(Extend(cur, rest[0]), rest[1..], barriers, total);
      } else {
        MergeShape(Open(rest[0]), rest[1..], barriers, total);
      }
    }
  }

  /** The open cut ends where a piece of its own kind does, and that piece starts no later than the rest. */
  ghost predicate EndsWithin(cur: Cut, seen: seq<Segment>, next: real) {
    exists k :: 0 <= k < |seen| && seen[k].end == cur.end && seen[k].beep == cur.beep && seen[k].start <= next
  }

  lemma NotJoinedIsApart(cur: Cut, ad: Segment, barriers: seq<Span>, ps: seq<Segment>, at: nat)
    requires KindsApart(ps) && at < |ps| && ps[at] == ad && ad.start < ad.end
    requires EndsWithin(cur, ps, ad.start) && !Joins(cur, ad, barriers)
    ensures cur.end <= ad.start
  {
    var k :| 0 <= k < |ps| && ps[k].end == cur.end && ps[k].beep == cur.beep && ps[k].start <= ad.start;
    assert Meet(ps[k], ps[at]) ==> ps[k].beep == ps[at].beep;
  }

  lemma ExtendEndsWithin(cur: Cut, ps: seq<Segment>, at: nat, barriers: seq<Span>, next: real)
    requires at < |ps| && EndsWithin(cur, ps, ps[at].start) && Joins(cur, ps[at], barriers) && ps[at].start <= next
    ensures EndsWithin(Extend(cur, ps[at]), ps, next)
  {
    var k :| 0 <= k < |ps| && ps[k].end == cur.end && ps[k].beep == cur.beep && ps[k].start <= ps[at].start;
    var w := if ps[at].end > cur.end then at else k;
    assert ps[w].end == Extend(cur, ps[at]).end;
  }

  lemma OpenEndsWithin(ps: seq<Segment>, at: nat, next: real)
    requires at < |ps| && ps[at].start <= next
    ensures EndsWithin(Open(ps[at]), ps, next)
  {
    assert ps[at].end == Open(ps[at]).end;
  }

  lemma {:induction false} MergeInOrder(cur: Cut, rest: seq<Segment>, barriers: seq<Span>, ps: seq<Segment>, at: nat,
                                        total: real)
    requires at <= |ps| && rest == ps[at..] && KindsApart(ps) && SortedPieces(ps)
    requires AllOk(ps, total) && CutOk(cur, total)
    requires rest != [] ==> EndsWithin(cur, ps, rest[0].start) && cur.start <= rest[0].start
    ensures CutsInOrder(MergeFrom(cur, rest, barriers))
    decreases |rest|
  {
    hide Joins, KindsApart, EndsWithin;
    if rest != [] {
      var ad := rest[0];
      assert ad == ps[at] && rest[1..] == ps[at + 1..];
      if Joins(cur, ad, barriers) {
        var next := Extend(cur, ad);
        if rest[1..] != [] {
          ExtendEndsWithin(cur, ps, at, barriers, ps[at + 1].start);
        }
        MergeInOrder(next, rest[1..], barriers, ps, at + 1, total);
      } else {
        NotJoinedIsApart(cur, ad, barriers, ps, at);
        if rest[1..] != [] {
          OpenEndsWithin(ps, at, ps[at + 1].start);
        }
        MergeInOrder(Open(ad), rest[1..], barriers, ps, at + 1, total);
        MergeShape(Open(ad), rest[1..], barriers, total);
      }
    }
  }

  lemma JoinKeepsKind(cur: Cut, ad: Segment, barriers: seq<Span>)
    requires Joins(cur, ad, barriers)
    ensures ad.beep == cur.beep
  {
  }

  // ----- Lengths -----

  function CutTotal(cuts: seq<Cut>): real {
    if cuts == [] then 0.0 else (cuts[0].end - cuts[0].start) + CutTotal(cuts[1..])
  }

  function RequestedTotal(ps: seq<Segment>): real {
    if ps == [] then 0.0 else (ps[0].end - ps[0].start) + RequestedTotal(ps[1..])
  }

  lemma {:induction false} MergeTotal(cur: Cut, rest: seq<Segment>, barriers: seq<Span>, total: real)
    requires AllOk(rest, total)
    ensures CutTotal(MergeFrom(cur, rest, barriers))
         <= (cur.end - cur.start) + RequestedTotal(rest) + |rest| as real * MERGE_GAP_SECONDS
    decreases |rest|
  {
    if rest != [] {
      if Joins(cur, rest[0], barriers) {
        MergeTotal(Extend(cur, rest[0]), rest[1..], barriers, total);
      } else {
        MergeTotal(Open(rest[0]), rest[1..], barriers, total);
      }
    }
  }

  // ----- The merged list -----

  lemma SortedPiecesOf(ps: seq<Segment>, total: real)
    requires AllOk(ps, total)
    ensures SortedPieces(SortBy(ps, StartOf())) && AllOk(SortBy(ps, StartOf()), total)
    ensures forall p :: p in SortBy(ps, StartOf()) <==> p in ps
  {
    SortByIsSorted(ps, StartOf());
    SortByMembers(ps, StartOf());
    var sorted := SortBy(ps, StartOf());
    forall i, j | 0 <= i < j < |sorted| ensures sorted[i].start <= sorted[j].start {
      assert StartOf()(sorted[i]) <= StartOf()(sorted[j]);
    }
    forall i | 0 <= i < |sorted| ensures PieceOk(sorted[i], total) {
      assert sorted[i] in ps;
    }
  }

  lemma SameMembersRequest(a: seq<Segment>, b: seq<Segment>, barriers: seq<Span>, t: real)
    requires forall p :: p in a ==> p in b
    ensures Requested(a, t) ==> Requested(b, t)
    ensures Bridged(a, barriers, t) ==> Bridged(b, barriers, t)
  {
    hide GapBetween;
    if Requested(a, t) {
      var i :| 0 <= i < |a| && a[i].Has(t);
      assert a[i] in b;
    }
    if Bridged(a, barriers, t) {
      var i, j :| 0 <= i < |a| && 0 <= j < |a| && GapBetween(a[i], a[j], barriers, t);
      assert a[i] in b && a[j] in b;
    }
  }

  lemma {:induction false} TotalOfInsert(p: Segment, ps: seq<Segment>)
    ensures RequestedTotal(InsertBy(p, ps, StartOf())) == (p.end - p.start) + RequestedTotal(ps)
  {
    if ps != [] && !(StartOf()(p) <= StartOf()(ps[0])) {
      TotalOfInsert(p, ps[1..]);
    }
  }

  lemma {:induction false} TotalOfSort(ps: seq<Segment>)
    ensures RequestedTotal(SortBy(ps, StartOf())) == RequestedTotal(ps)
  {
    if ps != [] {
      TotalOfSort(ps[1..]);
      TotalOfInsert(ps[0], SortBy(ps[1..], StartOf()));
    }
  }

  lemma MergedForward(ps: seq<Segment>, barriers: seq<Span>, t: real)
    requires IsCut(Merged(ps, barriers), t)
    ensures Requested(ps, t) || Bridged(ps, barriers, t)
  {
    hide MergeFrom, EndsWithOne, Open;
    var sorted := SortBy(ps, StartOf());
    SortByMembers(ps, StartOf());
    if sorted != [] {
      OpenEnds(sorted[0], t);
      MergeAddsOnlyGaps(Open(sorted[0]), sorted[1..], barriers, [sorted[0]], t);
      assert [sorted[0]] + sorted[1..] == sorted;
      SameMembersRequest(sorted, ps, barriers, t);
    }
  }

  /** Each requested piece ends up whole inside one merged cut that takes it in. */
  lemma MergedTakesIn(ps: seq<Segment>, barriers: seq<Span>, total: real, p: Segment)
    requires AllOk(ps, total) && p in ps
    ensures TakenIn(Merged(ps, barriers), p)
  {
    hide *;
    var sorted := SortBy(ps, StartOf());
    SortedPiecesOf(ps, total);
    assert p in sorted;
    var k :| 0 <= k < |sorted| && sorted[k] == p;
    MergedOpens(ps, barriers);
    OpenTakesIn(p);
    if k == 0 {
      FirstCutWidens(Open(p), sorted[1..], barriers);
      WiderTakesIn(Merged(ps, barriers), Open(p), p);
    } else {
      OpenStart(sorted[0]);
      StartsBySecond(sorted);
      TailIsSorted(sorted);
      MergeTakesAll(Open(sorted[0]), sorted[1..], barriers, k - 1);
    }
  }

  lemma MergedShape(ps: seq<Segment>, barriers: seq<Span>, total: real)
    requires AllOk(ps, total)
    ensures forall i :: 0 <= i < |Merged(ps, barriers)| ==> CutOk(Merged(ps, barriers)[i], total)
    ensures CutTotal(Merged(ps, barriers)) <= RequestedTotal(ps) + MaxReal(0.0, (|ps| - 1) as real * MERGE_GAP_SECONDS)
  {
    hide MergeFrom;
    var sorted := SortBy(ps, StartOf());
    SortedPiecesOf(ps, total);
    TotalOfSort(ps);
    if sorted != [] {
      MergeShape(Open(sorted[0]), sorted[1..], barriers, total);
      MergeTotal(Open(sorted[0]), sorted[1..], barriers, total);
      assert RequestedTotal(sorted) == (sorted[0].end - sorted[0].start) + RequestedTotal(sorted[1..]);
    }
  }

  lemma KindsApartOfMembers(a: seq<Segment>, b: seq<Segment>)
    requires KindsApart(a) && forall p :: p in b ==> p in a
    ensures KindsApart(b)
  {
    forall i, j | 0 <= i < |b| && 0 <= j < |b| && b[i].beep != b[j].beep ensures !Meet(b[i], b[j]) {
      assert b[i] in a && b[j] in a;
    }
  }

  /** Merged cuts are in order and disjoint exactly when no beep piece overlaps a remove piece. */
  lemma MergedInOrderExactly(ps: seq<Segment>, barriers: seq<Span>, total: real)
    requires AllOk(ps, total)
    ensures CutsInOrder(Merged(ps, barriers)) <==> KindsApart(ps)
  {
    var sorted := SortBy(ps, StartOf());
    var cuts := Merged(ps, barriers);
    SortedPiecesOf(ps, total);
    if KindsApart(ps) && sorted != [] {
      KindsApartOfMembers(ps, sorted);
      assert sorted[0].end == Open(sorted[0]).end;
      MergeInOrder(Open(sorted[0]), sorted[1..], barriers, sorted, 1, total);
    }
    if CutsInOrder(cuts) {
      forall i, j | 0 <= i < |ps| && 0 <= j < |ps| && ps[i].beep != ps[j].beep ensures !Meet(ps[i], ps[j]) {
        MergedTakesIn(ps, barriers, total, ps[i]);
        MergedTakesIn(ps, barriers, total, ps[j]);
        var a :| 0 <= a < |cuts| && TookIn(cuts[a], ps[i]);
        var b :| 0 <= b < |cuts| && TookIn(cuts[b], ps[j]);
        assert PieceOk(ps[i], total) && PieceOk(ps[j], total);
        assert a < b ==> cuts[a].end <= cuts[b].start;
        assert b < a ==> cuts[b].end <= cuts[a].start;
      }
    }
  }

  // ----- Dropping and extending -----

  /** A beep laid over a cut to remove: the merged cuts overlap. */
  lemma MixedKindsOverlap()
    ensures var none := Pins(None, None, None);
      var cut := Segment(0.0, 20.0, false, none, none, false, 0.5, OtherStage, false);
      var beep := Segment(10.0, 30.0, false, none, none, true, 0.5, OtherStage, false);
      !CutsInOrder(Merged([cut, beep], []))
  {
    var none := Pins(None, None, None);
    var cut := Segment(0.0, 20.0, false, none, none, false, 0.5, OtherStage, false);
    var beep := Segment(10.0, 30.0, false, none, none, true, 0.5, OtherStage, false);
    var ps := [cut, beep];
    assert ps[0].beep != ps[1].beep && Meet(ps[0], ps[1]);
    MergedInOrderExactly(ps, [], 30.0);
  }

  lemma {:induction false} KeptMembers(cuts: seq<Cut>)
    ensures |LongOrTrusted(cuts)| <= |cuts|
    ensures forall c :: c in LongOrTrusted(cuts) <==> c in cuts && Keeps(c)
  {
    hide Keeps;
    if cuts != [] {
      var init, last := cuts[..|cuts| - 1], cuts[|cuts| - 1];
      KeptMembers(init);
      assert cuts == init + [last];
    }
  }

  lemma InOrderWithLast(init: seq<Cut>, last: Cut)
    requires CutsInOrder(init) && forall c :: c in init ==> c.end <= last.start
    ensures CutsInOrder(init + [last])
  {
  }

  lemma LastComesLater(cuts: seq<Cut>)
    requires CutsInOrder(cuts) && cuts != []
    ensures CutsInOrder(cuts[..|cuts| - 1]) && forall c :: c in cuts[..|cuts| - 1] ==> c.end <= cuts[|cuts| - 1].start
  {
  }

  lemma {:induction false} KeptInOrder(cuts: seq<Cut>)
    requires CutsInOrder(cuts)
    ensures CutsInOrder(LongOrTrusted(cuts))
  {
    hide Keeps, CutsInOrder;
    if cuts == [] {
      assert CutsInOrder(LongOrTrusted(cuts));
    } else {
      var init, last := cuts[..|cuts| - 1], cuts[|cuts| - 1];
      LastComesLater(cuts);
      KeptInOrder(init);
      KeptMembers(init);
      InOrderWithLast(LongOrTrusted(init), last);
      assert LongOrTrusted(init) + [] == LongOrTrusted(init);
    }
  }

  lemma KeptCuts(cuts: seq<Cut>)
    ensures |LongOrTrusted(cuts)| <= |cuts|
    ensures forall c :: c in LongOrTrusted(cuts) <==> c in cuts && Keeps(c)
    ensures CutsInOrder(cuts) ==> CutsInOrder(LongOrTrusted(cuts))
  {
    hide LongOrTrusted, CutsInOrder, Keeps;
    KeptMembers(cuts);
    if CutsInOrder(cuts) {
      KeptInOrder(cuts);
    }
  }

  lemma {:induction false} CutTotalConcat(a: seq<Cut>, b: seq<Cut>)
    ensures CutTotal(a + b) == CutTotal(a) + CutTotal(b)
  {
    if a == [] {
      assert a + b == b;
    } else {
      CutTotalConcat(a[1..], b);
      assert (a + b)[1..] == a[1..] + b;
    }
  }

  lemma {:induction false} KeptTotal(cuts: seq<Cut>, total: real)
    requires forall i :: 0 <= i < |cuts| ==> CutOk(cuts[i], total)
    ensures CutTotal(LongOrTrusted(cuts)) <= CutTotal(cuts)
  {
    hide Keeps;
    if cuts != [] {
      var init, last := cuts[..|cuts| - 1], cuts[|cuts| - 1];
      KeptTotal(init, total);
      assert CutOk(last, total) && [last][1..] == [];
      assert LongOrTrusted(init) + [] == LongOrTrusted(init);
      assert cuts == init + [last];
      CutTotalConcat(init, [last]);
      CutTotalConcat(LongOrTrusted(init), [last]);
    }
  }

  /** t lies in the last stretch of the file that an unlocked final cut runs over. */
  ghost predicate InTail(cuts: seq<Cut>, total: real, barriers: seq<Span>, t: real) {
    && cuts != [] && cuts[|cuts| - 1].end <= t < total && total - cuts[|cuts| - 1].end < POST_ROLL_TRIM_THRESHOLD
    && !cuts[|cuts| - 1].confirmedEnd && !cuts[|cuts| - 1].preciseEnd
    && forall i :: 0 <= i < |barriers| ==> barriers[i].hi <= cuts[|cuts| - 1].end || total <= barriers[i].lo
  }

  lemma ExtendCovers(cuts: seq<Cut>, total: real, barriers: seq<Span>, t: real)
    requires forall i :: 0 <= i < |cuts| ==> CutOk(cuts[i], total)
    ensures IsCut(ExtendToEnd(cuts, total, barriers), t) <==> IsCut(cuts, t) || InTail(cuts, total, barriers, t)
  {
    var out := ExtendToEnd(cuts, total, barriers);
    if IsCut(cuts, t) {
      var i :| 0 <= i < |cuts| && cuts[i].Has(t);
      assert out[i].Has(t);
    }
    if InTail(cuts, total, barriers, t) {
      assert out[|cuts| - 1].Has(t);
    }
    if IsCut(out, t) {
      var i :| 0 <= i < |out| && out[i].Has(t);
      if !cuts[i].Has(t) {
        assert InTail(cuts, total, barriers, t);
      }
    }
  }

  lemma ExtendShape(cuts: seq<Cut>, total: real, barriers: seq<Span>)
    requires forall i :: 0 <= i < |cuts| ==> CutOk(cuts[i], total)
    ensures forall i :: 0 <= i < |ExtendToEnd(cuts, total, barriers)| ==>
              CutOk(ExtendToEnd(cuts, total, barriers)[i], total)
    ensures CutsInOrder(cuts) ==> CutsInOrder(ExtendToEnd(cuts, total, barriers))
    ensures CutTotal(ExtendToEnd(cuts, total, barriers)) <= CutTotal(cuts) + POST_ROLL_TRIM_THRESHOLD
  {
    hide Crosses;
    if cuts != [] && RunsToEnd(cuts[|cuts| - 1], total, barriers) {
      var init, last := cuts[..|cuts| - 1], cuts[|cuts| - 1];
      CutTotalConcat(init, [last]);
      CutTotalConcat(init, [last.(end := total, lockedEnd := false)]);
      assert cuts == init + [last];
      assert ExtendToEnd(cuts, total, barriers) == init + [last.(end := total, lockedEnd := false)];
    }
  }

  // ----- The guarantees -----

  lemma BarrierCrosses(barriers: seq<Span>, lo: real, hi: real, t: real)
    requires Covers(barriers, t) && lo <= t < hi
    ensures Crosses(barriers, lo, hi)
  {
    var i :| 0 <= i < |barriers| && barriers[i].Has(t);
    assert barriers[i].lo < hi && barriers[i].hi > lo;
  }

  lemma ClampedOk(ads: seq<Segment>, total: real, hard: seq<Span>)
    ensures AllOk(Clamp(ads, total, hard), total)
  {
    ClampShape(ads, total, hard);
  }

  /** Every applied second was requested, or fills a small unlocked gap, or is the short tail of the file. */
  lemma AppliedSeconds(ads: seq<Segment>, total: real, soft: seq<Span>, hard: seq<Span>, t: real)
    requires IsCut(Applied(ads, total, soft, hard), t)
    ensures var pieces := Clamp(ads, total, hard);
      || (Requested(ads, t) && !Covers(hard, t))
      || Bridged(pieces, soft + hard, t)
      || InTail(LongOrTrusted(Merged(pieces, soft + hard)), total, soft + hard, t)
  {
    hide Merged, LongOrTrusted, ExtendToEnd, Bridged, InTail, Clamp;
    var pieces, barriers := Clamp(ads, total, hard), soft + hard;
    var merged := Merged(pieces, barriers);
    var kept := LongOrTrusted(merged);
    ClampedOk(ads, total, hard);
    MergedShape(pieces, barriers, total);
    KeptCuts(merged);
    assert forall i :: 0 <= i < |kept| ==> kept[i] in merged;
    ExtendCovers(kept, total, barriers, t);
    if IsCut(kept, t) {
      var i :| 0 <= i < |kept| && kept[i].Has(t);
      assert kept[i] in merged;
      MergedForward(pieces, barriers, t);
      ClampIsExact(ads, total, hard, t);
    }
  }

  /** No applied cut touches kept audio. */
  lemma AppliedAvoidsKeptAudio(ads: seq<Segment>, total: real, soft: seq<Span>, hard: seq<Span>, t: real)
    requires IsCut(Applied(ads, total, soft, hard), t)
    ensures !Covers(hard, t)
  {
    hide Applied, Merged, LongOrTrusted, Crosses, Clamp;
    AppliedSeconds(ads, total, soft, hard, t);
    var pieces, barriers := Clamp(ads, total, hard), soft + hard;
    if Covers(hard, t) {
      CoversConcat(soft, hard, t);
      if Bridged(pieces, barriers, t) {
        var i, j :| 0 <= i < |pieces| && 0 <= j < |pieces| && GapBetween(pieces[i], pieces[j], barriers, t);
        BarrierCrosses(barriers, pieces[i].end, pieces[j].start, t);
        assert false;
      } else {
        var cuts := LongOrTrusted(Merged(pieces, barriers));
        BarrierCrosses(barriers, cuts[|cuts| - 1].end, total, t);
        assert false;
      }
    }
  }

  /** Applied cuts stay inside the file and never add more than a second per piece and the tail. */
  lemma AppliedInRange(ads: seq<Segment>, total: real, soft: seq<Span>, hard: seq<Span>)
    ensures var cuts := Applied(ads, total, soft, hard);
      forall i :: 0 <= i < |cuts| ==> 0.0 <= cuts[i].start < cuts[i].end <= total
    ensures var pieces := Clamp(ads, total, hard);
      CutTotal(Applied(ads, total, soft, hard))
        <= RequestedTotal(pieces) + MaxReal(0.0, (|pieces| - 1) as real * MERGE_GAP_SECONDS) + POST_ROLL_TRIM_THRESHOLD
  {
    hide Merged, LongOrTrusted, ExtendToEnd, Clamp;
    var pieces, barriers := Clamp(ads, total, hard), soft + hard;
    var merged := Merged(pieces, barriers);
    ClampedOk(ads, total, hard);
    MergedShape(pieces, barriers, total);
    KeptCuts(merged);
    KeptTotal(merged, total);
    var kept := LongOrTrusted(merged);
    forall i | 0 <= i < |kept| ensures CutOk(kept[i], total) {
      assert kept[i] in merged;
    }
    ExtendShape(kept, total, barriers);
    RequestedTotalNonNegative(pieces, total);
  }

  lemma {:induction false} RequestedTotalNonNegative(ps: seq<Segment>, total: real)
    requires AllOk(ps, total)
    ensures RequestedTotal(ps) >= 0.0
  {
    if ps != [] {
      RequestedTotalNonNegative(ps[1..], total);
    }
  }

  /** When beep and remove requests do not overlap, the applied cuts are in order and disjoint. */
  lemma AppliedInOrder(ads: seq<Segment>, total: real, soft: seq<Span>, hard: seq<Span>)
    requires KindsApart(ads)
    ensures CutsInOrder(Applied(ads, total, soft, hard))
  {
    hide Merged, LongOrTrusted, ExtendToEnd, Clamp;
    var pieces, barriers := Clamp(ads, total, hard), soft + hard;
    var merged := Merged(pieces, barriers);
    ClampedOk(ads, total, hard);
    ClampShape(ads, total, hard);
    forall i, j | 0 <= i < |pieces| && 0 <= j < |pieces| && pieces[i].beep != pieces[j].beep
      ensures !Meet(pieces[i], pieces[j])
    {
      assert CameFrom(pieces[i], ads) && CameFrom(pieces[j], ads);
      var a :| 0 <= a < |ads| && ads[a].start <= pieces[i].start && pieces[i].end <= ads[a].end
               && pieces[i].beep == ads[a].beep;
      var b :| 0 <= b < |ads| && ads[b].start <= pieces[j].start && pieces[j].end <= ads[b].end
               && pieces[j].beep == ads[b].beep;
      assert !Meet(ads[a], ads[b]);
    }
    MergedInOrderExactly(pieces, barriers, total);
    MergedShape(pieces, barriers, total);
    KeptCuts(merged);
    var kept := LongOrTrusted(merged);
    forall i | 0 <= i < |kept| ensures CutOk(kept[i], total) {
      assert kept[i] in merged;
    }
    ExtendShape(kept, total, barriers);
  }

  /** t belongs to a merged span dropped as short and untrusted. */
  ghost predicate Dropped(merged: seq<Cut>, t: real) {
    exists i :: 0 <= i < |merged| && merged[i].Has(t) && !Keeps(merged[i])
  }

  /** Every requested second outside kept audio is applied, or sits in a dropped short untrusted span. */
  lemma RequestedSecondsAreApplied(ads: seq<Segment>, total: real, soft: seq<Span>, hard: seq<Span>, t: real)
    requires Requested(ads, t) && 0.0 <= t < total && !Covers(hard, t)
    ensures IsCut(Applied(ads, total, soft, hard), t) || Dropped(Merged(Clamp(ads, total, hard), soft + hard), t)
  {
    hide Merged, LongOrTrusted, ExtendToEnd, Clamp, Keeps;
    var pieces, barriers := Clamp(ads, total, hard), soft + hard;
    ClampIsExact(ads, total, hard, t);
    var k :| 0 <= k < |pieces| && pieces[k].Has(t);
    ClampedOk(ads, total, hard);
    MergedTakesIn(pieces, barriers, total, pieces[k]);
    var merged := Merged(pieces, barriers);
    var i :| 0 <= i < |merged| && TookIn(merged[i], pieces[k]);
    assert merged[i].Has(t);
    if Keeps(merged[i]) {
      CutIsApplied(ads, total, soft, hard, merged[i], t);
    }
  }

  lemma CutIsApplied(ads: seq<Segment>, total: real, soft: seq<Span>, hard: seq<Span>, c: Cut, t: real)
    requires c in Merged(Clamp(ads, total, hard), soft + hard) && Keeps(c) && c.Has(t) && 0.0 <= t < total
    ensures IsCut(Applied(ads, total, soft, hard), t)
  {
    hide LongOrTrusted, ExtendToEnd, Clamp, Keeps, MergeFrom;
    var pieces, barriers := Clamp(ads, total, hard), soft + hard;
    var merged := Merged(pieces, barriers);
    KeptCuts(merged);
    var kept := LongOrTrusted(merged);
    var i :| 0 <= i < |kept| && kept[i] == c;
    assert kept[i].Has(t);
    ClampedOk(ads, total, hard);
    MergedShape(pieces, barriers, total);
    assert forall j :: 0 <= j < |kept| ==> kept[j] in merged;
    ExtendCovers(kept, total, barriers, t);
  }

  /** t belongs to a merged span the short-cut filter keeps. */
  ghost predicate KeptBySome(merged: seq<Cut>, t: real) {
    exists i :: 0 <= i < |merged| && merged[i].Has(t) && Keeps(merged[i])
  }

  lemma {:induction false} EmptyFile(ads: seq<Segment>, hard: seq<Span>)
    ensures Clamp(ads, 0.0, hard) == []
  {
    if ads != [] {
      EmptyFile(ads[..|ads| - 1], hard);
    }
  }

  /** An instant is applied exactly when its merged span is kept, or the last kept one runs to the end over it. */
  lemma AppliedExactly(ads: seq<Segment>, total: real, soft: seq<Span>, hard: seq<Span>, t: real)
    ensures var merged := Merged(Clamp(ads, total, hard), soft + hard);
      IsCut(Applied(ads, total, soft, hard), t)
      <==> KeptBySome(merged, t) || InTail(LongOrTrusted(merged), total, soft + hard, t)
  {
    hide LongOrTrusted, ExtendToEnd, Clamp, Keeps, MergeFrom, RunsToEnd;
    var pieces, barriers := Clamp(ads, total, hard), soft + hard;
    var merged := Merged(pieces, barriers);
    var kept := LongOrTrusted(merged);
    ClampedOk(ads, total, hard);
    if total == 0.0 {
      EmptyFile(ads, hard);
    }
    MergedShape(pieces, barriers, total);
    KeptCuts(merged);
    forall j | 0 <= j < |kept| ensures CutOk(kept[j], total) {
      assert kept[j] in merged;
    }
    ExtendCovers(kept, total, barriers, t);
    if IsCut(kept, t) {
      var i :| 0 <= i < |kept| && kept[i].Has(t);
      assert kept[i] in kept;
      var k :| 0 <= k < |merged| && merged[k] == kept[i];
      assert KeptBySome(merged, t);
    }
    if KeptBySome(merged, t) {
      var i :| 0 <= i < |merged| && merged[i].Has(t) && Keeps(merged[i]);
      var k :| 0 <= k < |kept| && kept[k] == merged[i];
      assert kept[k].Has(t);
    }
  }
}
