/** The merged markers told from the markers alone: which join, and what each chain of them becomes. */
module MergeChains {
  import opened Basics
  import opened Spans
  import opened MergeCloseAds

  /** What the feed does with a marker: its category's action, removal when there is none or a pattern says so. */
  ghost predicate ActsAs(actions: map<string, Action>, ad: Ad, a: Action) {
    if ad.category !in actions || (actions[ad.category] in {Keep, Mark} && ad.patternDefined) then a == Remove
    else a == actions[ad.category]
  }

  ghost predicate SameAction(feed: Feed, p: Ad, q: Ad) {
    feed.actions.Some? ==> exists a :: ActsAs(feed.actions.value, p, a) && ActsAs(feed.actions.value, q, a)
  }

  /** There is a transcript, and none of its spoken segments reaches between lo and hi. */
  ghost predicate NoSpeech(feed: Feed, lo: real, hi: real) {
    feed.segments != [] && forall s :: s in feed.segments && s.spoken ==> s.span.hi <= lo || hi <= s.span.lo
  }

  /** A gap that may be bridged: under five seconds, or under thirty without speech. */
  ghost predicate Bridgeable(feed: Feed, lo: real, hi: real) {
    hi < lo + MERGE_GAP_THRESHOLD || (hi < lo + MAX_SILENT_GAP && NoSpeech(feed, lo, hi))
  }

  /** Someone decided on exactly this span. */
  ghost predicate Decided(ad: Ad) {
    ad.decision.userKept || ad.decision.held || ad.decision.vadGapReview || ad.decision.confirmedRestore
  }

  ghost predicate Joinable(feed: Feed, ms: seq<Ad>, cur: Ad)
    requires ms != []
  {
    var first, end := ms[0], ms[|ms| - 1].end;
    && !Decided(first) && !Decided(cur) && first.stamps == cur.stamps && SameAction(feed, Grouped(ms), cur)
    && AdjacencyTotal(ms) + cur.adjacency <= MAX_ADJACENT_AUTO_EXTENSION_SECONDS
    && end <= cur.start && Bridgeable(feed, end, cur.start)
    && (end < cur.start ==>
          && (first.endLock.Some? ==> first.endLock.value + EDGE_TOLERANCE < end)
          && (cur.startLock.Some? ==> cur.start < cur.startLock.value - EDGE_TOLERANCE))
  }

  ghost predicate SomePattern(ms: seq<Ad>) { exists k :: 0 <= k < |ms| && ms[k].patternDefined }

  /**
   * The marker a chain becomes: the first one, grown to the last one's end, with the locks that still cover its
   * edges.
   */
  ghost function Grouped(ms: seq<Ad>): Ad
    requires ms != []
  {
    var first, end := ms[0], ms[|ms| - 1].end;
    if |ms| == 1 then first
    else
      first.(end := end, patternDefined := SomePattern(ms), adjacency := AdjacencyTotal(ms),
             startLock := if first.startLock.Some? && first.start >= first.startLock.value - EDGE_TOLERANCE
                          then first.startLock else None,
             endLock := if first.endLock.Some? && end <= first.endLock.value + EDGE_TOLERANCE
                        then first.endLock else None)
  }

  ghost predicate Chain(feed: Feed, ms: seq<Ad>) {
    && ms != [] && (forall k :: 0 <= k < |ms| ==> ms[k].start < ms[k].end && ms[k].adjacency >= 0.0)
    && forall k :: 0 < k < |ms| ==> Joinable(feed, ms[..k], ms[k])
  }

  lemma SpeechIs(feed: Feed, lo: real, hi: real)
    ensures NoSpeech(feed, lo, hi) <==> !HasSpeech(feed, lo, hi)
  {
    assert forall i :: 0 <= i < |feed.segments| ==> feed.segments[i] in feed.segments;
  }

  lemma ActionsAgree(feed: Feed, p: Ad, q: Ad)
    ensures SameAction(feed, p, q) <==> ResolvedAction(feed, p) == ResolvedAction(feed, q)
  {
    if feed.actions.Some? {
      assert ActsAs(feed.actions.value, p, ResolvedAction(feed, p).value);
      assert ActsAs(feed.actions.value, q, ResolvedAction(feed, q).value);
    }
  }

  lemma {:induction false} TotalIsNonNegative(ms: seq<Ad>)
    requires forall k :: 0 <= k < |ms| ==> ms[k].adjacency >= 0.0
    ensures AdjacencyTotal(ms) >= 0.0
  {
    if ms != [] {
      TotalIsNonNegative(ms[..|ms| - 1]);
    }
  }

  lemma TotalOfOne(ad: Ad)
    ensures AdjacencyTotal([ad]) == ad.adjacency
  {
    assert [ad][..0] == [];
    assert AdjacencyTotal([ad]) == AdjacencyTotal([ad][..0]) + ad.adjacency;
  }

  lemma TotalOfNext(ms: seq<Ad>, cur: Ad)
    ensures AdjacencyTotal(ms + [cur]) == AdjacencyTotal(ms) + cur.adjacency
  {
    assert (ms + [cur])[..|ms|] == ms;
  }

  /** The merge takes a marker in exactly when the chain so far and the marker are joinable. */
  lemma FoldsIsJoinable(feed: Feed, ms: seq<Ad>, cur: Ad)
    requires Chain(feed, ms)
    ensures Folds(feed, Grouped(ms), cur) <==> Joinable(feed, ms, cur)
  {
    hide Joinable, AdjacencyTotal, SomePattern, NoSpeech, HasSpeech, ResolvedAction, SameAction;
    var g := Grouped(ms);
    TotalOfOne(ms[0]);
    assert |ms| == 1 ==> ms == [ms[0]];
    ActionsAgree(feed, g, cur);
    SpeechIs(feed, g.end, cur.start);
    JoinableIs(feed, ms, cur);
  }

  lemma JoinableIs(feed: Feed, ms: seq<Ad>, cur: Ad)
    requires ms != []
    ensures var first, end := ms[0], ms[|ms| - 1].end;
      Joinable(feed, ms, cur) <==>
        && !Decided(first) && !Decided(cur) && first.stamps == cur.stamps && SameAction(feed, Grouped(ms), cur)
        && AdjacencyTotal(ms) + cur.adjacency <= MAX_ADJACENT_AUTO_EXTENSION_SECONDS
        && end <= cur.start && Bridgeable(feed, end, cur.start)
        && (end < cur.start ==>
              && (first.endLock.Some? ==> first.endLock.value + EDGE_TOLERANCE < end)
              && (cur.startLock.Some? ==> cur.start < cur.startLock.value - EDGE_TOLERANCE))
  {
  }

  /** Folding a joinable marker in makes the marker of the longer chain. */
  lemma FoldIsGrouped(feed: Feed, ms: seq<Ad>, cur: Ad)
    requires Chain(feed, ms) && cur.start < cur.end && cur.adjacency >= 0.0 && Joinable(feed, ms, cur)
    ensures Fold(Grouped(ms), cur) == Grouped(ms + [cur]) && Chain(feed, ms + [cur])
  {
    var all := ms + [cur];
    TotalOfNext(ms, cur);
    TotalOfOne(ms[0]);
    assert |ms| == 1 ==> ms == [ms[0]];
    TotalIsNonNegative(ms);
    PatternOfNext(ms, cur);
    ChainOfNext(feed, ms, cur);
    hide Chain, AdjacencyTotal, SomePattern, Bridgeable, SameAction;
  }

  lemma PatternOfNext(ms: seq<Ad>, cur: Ad)
    requires ms != []
    ensures SomePattern(ms + [cur]) <==> SomePattern(ms) || cur.patternDefined
    ensures |ms| == 1 ==> (SomePattern(ms) <==> ms[0].patternDefined)
  {
    var all := ms + [cur];
    assert all[|ms|] == cur && forall k :: 0 <= k < |ms| ==> all[k] == ms[k];
    if SomePattern(ms) {
      var k :| 0 <= k < |ms| && ms[k].patternDefined;
      assert all[k].patternDefined;
    }
  }

  lemma ChainOfNext(feed: Feed, ms: seq<Ad>, cur: Ad)
    requires Chain(feed, ms) && cur.start < cur.end && cur.adjacency >= 0.0 && Joinable(feed, ms, cur)
    ensures Chain(feed, ms + [cur])
  {
    hide Joinable;
    var all := ms + [cur];
    forall k | 0 < k < |all| ensures Joinable(feed, all[..k], all[k]) {
      if k < |ms| {
        assert all[..k] == ms[..k] && all[k] == ms[k];
      } else {
        assert all[..k] == ms && all[k] == cur;
      }
    }
  }

  lemma ChainOfOne(feed: Feed, ad: Ad)
    requires ad.start < ad.end && ad.adjacency >= 0.0
    ensures Chain(feed, [ad]) && Grouped([ad]) == ad
  {
  }

  /** A chain and the marker made of it. */
  ghost predicate ChainGroup(feed: Feed, g: Group) { Chain(feed, g.members) && g.merged == Grouped(g.members) }

  /** The next group's first marker does not join this one's chain. */
  ghost predicate Apart(feed: Feed, gs: seq<Group>, i: nat)
    requires i + 1 < |gs|
  {
    gs[i].members != [] && gs[i + 1].members != [] && !Joinable(feed, gs[i].members, gs[i + 1].members[0])
  }

  ghost predicate Chains(feed: Feed, gs: seq<Group>) {
    && (forall i :: 0 <= i < |gs| ==> ChainGroup(feed, gs[i]))
    && (forall i: nat :: i + 1 < |gs| ==> Apart(feed, gs, i))
  }

  lemma {:induction false} GroupsFromAreChains(feed: Feed, g: Group, rest: seq<Ad>)
    requires ChainGroup(feed, g)
    requires forall k :: 0 <= k < |rest| ==> rest[k].start < rest[k].end && rest[k].adjacency >= 0.0
    ensures var gs := GroupsFrom(feed, g, rest);
      Chains(feed, gs) && gs != [] && gs[0].members != [] && g.members != [] && gs[0].members[0] == g.members[0]
    decreases |rest|
  {
    hide Folds, Fold, Joinable, Grouped;
    assert g.members != [];
    if rest != [] {
      FoldsIsJoinable(feed, g.members, rest[0]);
      if Folds(feed, g.merged, rest[0]) {
        FoldIsGrouped(feed, g.members, rest[0]);
        GroupsFromAreChains(feed, Group(Fold(g.merged, rest[0]), g.members + [rest[0]]), rest[1..]);
      } else {
        ChainOfOne(feed, rest[0]);
        var later := GroupsFrom(feed, Group(rest[0], [rest[0]]), rest[1..]);
        GroupsFromAreChains(feed, Group(rest[0], [rest[0]]), rest[1..]);
        ChainsBefore(feed, g, later);
      }
    }
  }

  lemma ChainsBefore(feed: Feed, g: Group, later: seq<Group>)
    requires ChainGroup(feed, g) && Chains(feed, later) && later != [] && later[0].members != [] && g.members != []
    requires !Joinable(feed, g.members, later[0].members[0])
    ensures Chains(feed, [g] + later)
  {
    hide ChainGroup, Joinable;
    var gs := [g] + later;
    forall i: nat | i + 1 < |gs| ensures Apart(feed, gs, i) {
      assert i > 0 ==> Apart(feed, later, i - 1);
    }
  }

  /**
   * The groups are the longest joinable chains of the sorted markers, and each merged marker is told from its chain.
   */
  lemma GroupsAreChains(feed: Feed, ads: seq<Ad>)
    requires RealAds(ads) && forall i :: 0 <= i < |ads| ==> ads[i].adjacency >= 0.0
    ensures var ms := AllMembers(Groups(feed, ads));
      && multiset(ms) == multiset(ads) && (forall i, j :: 0 <= i < j < |ms| ==> ms[i].start <= ms[j].start)
      && Chains(feed, Groups(feed, ads))
  {
    hide GroupsFrom, ChainGroup, Apart, AllMembers, GroupOk, SortBy;
    GroupsAreSound(feed, ads);
    SortByIsSorted(ads, StartOf());
    var sorted := SortBy(ads, StartOf());
    SortByMembers(ads, StartOf());
    forall i | 0 <= i < |sorted| ensures sorted[i].start < sorted[i].end && sorted[i].adjacency >= 0.0 {
      assert sorted[i] in ads;
    }
    if sorted != [] {
      ChainGroupOfOne(feed, sorted[0]);
      GroupsFromAreChains(feed, Group(sorted[0], [sorted[0]]), sorted[1..]);
    }
  }

  lemma ChainGroupOfOne(feed: Feed, ad: Ad)
    requires ad.start < ad.end && ad.adjacency >= 0.0
    ensures ChainGroup(feed, Group(ad, [ad]))
  {
    ChainOfOne(feed, ad);
  }
}
