/** Folding markers across small or speech-free gaps, and everything that blocks a fold. */
module MergeCloseAds {
  import opened Basics
  import opened Spans

  const MERGE_GAP_THRESHOLD := 5.0
  const MAX_SILENT_GAP := 30.0
  const MAX_ADJACENT_AUTO_EXTENSION_SECONDS := 60.0

  datatype Action = Remove | Beep | Keep | Mark

  /** Marks of one human decision about one span. */
  datatype Decision = Decision(userKept: bool, held: bool, vadGapReview: bool, confirmedRestore: bool)

  /** Stamps both sides of a fold must share. */
  datatype Stamps = Stamps(differentialAlone: bool, transcriptAlone: bool, falsePositive: bool, savedWasCut: bool,
                           reviewerRejected: bool)

  /** The marker fields a fold reads or writes; category is already normalised. */
  datatype Ad = Ad(start: real, end: real, decision: Decision, stamps: Stamps, category: string, patternDefined: bool,
                   adjacency: real, startLock: Option<real>, endLock: Option<real>) {
    ghost predicate Has(t: real) { start <= t < end }
  }

  datatype Speech = Speech(span: Span, spoken: bool)

  /** The feed: its category actions, if the caller resolved them, and the transcript. */
  datatype Feed = Feed(actions: Option<map<string, Action>>, segments: seq<Speech>)

  predicate KeepLike(a: Action) { a == Keep || a == Mark }

  /** The resolved action, with a pattern-defined detection overriding a keep. */
  function ResolvedAction(feed: Feed, ad: Ad): Option<Action> {
    if feed.actions.None? then None
    else
      var m := feed.actions.value;
      var a := if ad.category in m then m[ad.category] else Remove;
      Some(if KeepLike(a) && ad.patternDefined then Remove else a)
  }

  predicate HasSpeech(feed: Feed, start: real, end: real) {
    feed.segments == []
    || exists i :: 0 <= i < |feed.segments| && feed.segments[i].spoken
                   && Overlap(feed.segments[i].span, Span(start, end))
  }

  predicate GapMerges(feed: Feed, leftEnd: real, rightStart: real) {
    var gap := rightStart - leftEnd;
    gap < MERGE_GAP_THRESHOLD || (gap < MAX_SILENT_GAP && !HasSpeech(feed, leftEnd, rightStart))
  }

  predicate StartLocked(ad: Ad) { ad.startLock.Some? && ad.start >= ad.startLock.value - EDGE_TOLERANCE }

  predicate EndLocked(ad: Ad) { ad.endLock.Some? && ad.end <= ad.endLock.value + EDGE_TOLERANCE }

  /** A marker that stands for one human decision, so nothing may join it. */
  predicate StandsAlone(ad: Ad) {
    var d := ad.decision;
    d.userKept || d.held || d.vadGapReview || d.confirmedRestore
  }

  predicate SameStamps(feed: Feed, a: Ad, b: Ad) {
    a.stamps == b.stamps && ResolvedAction(feed, a) == ResolvedAction(feed, b)
  }

  /** Whether the marker being built takes the next one in. */
  predicate Folds(feed: Feed, last: Ad, cur: Ad) {
    var gap := cur.start - last.end;
    && !StandsAlone(last) && !StandsAlone(cur) && SameStamps(feed, last, cur)
    && last.adjacency + cur.adjacency <= MAX_ADJACENT_AUTO_EXTENSION_SECONDS
    && !(gap > 0.0 && (EndLocked(last) || StartLocked(cur)))
    && 0.0 <= gap && GapMerges(feed, last.end, cur.start)
  }

  /**
   * last with cur folded in; an end lock the wider end has outgrown is dropped, and cur's own lock is not taken over.
   */
  function Fold(last: Ad, cur: Ad): Ad {
    var reach := if cur.end <= last.end then last
                 else
                   var grown := last.(end := cur.end);
                   grown.(startLock := if StartLocked(grown) then grown.startLock else None,
                          endLock := if EndLocked(grown) then grown.endLock else None);
    var sum := last.adjacency + cur.adjacency;
    reach.(adjacency := if sum != 0.0 then sum else last.adjacency,
           patternDefined := last.patternDefined || cur.patternDefined)
  }

  /** A merged marker with the inputs it was built from. */
  datatype Group = Group(merged: Ad, members: seq<Ad>)

  function GroupsFrom(feed: Feed, g: Group, rest: seq<Ad>): seq<Group>
    decreases |rest|
  {
    if rest == [] then [g]
    else if Folds(feed, g.merged, rest[0]) then
      GroupsFrom(feed, Group(Fold(g.merged, rest[0]), g.members + [rest[0]]), rest[1..])
    else [g] + GroupsFrom(feed, Group(rest[0], [rest[0]]), rest[1..])
  }

  function StartOf(): Ad -> real { (ad: Ad) => ad.start }

  function Groups(feed: Feed, ads: seq<Ad>): seq<Group> {
    var sorted := SortBy(ads, StartOf());
    if sorted == [] then [] else GroupsFrom(feed, Group(sorted[0], [sorted[0]]), sorted[1..])
  }

  function MergedOf(gs: seq<Group>): seq<Ad> {
    if gs == [] then [] else MergedOf(gs[..|gs| - 1]) + [gs[|gs| - 1].merged]
  }

  lemma NoneMerged()
    ensures MergedOf([]) == []
  {
  }

  lemma MergedOfNext(gs: seq<Group>, g: Group)
    ensures MergedOf(gs + [g]) == MergedOf(gs) + [g.merged]
  {
    assert (gs + [g])[..|gs + [g]| - 1] == gs;
  }

  method FoldInto(last: Ad, cur: Ad) returns (folded: Ad)
    ensures folded == Fold(last, cur)
  {
    hide StartLocked, EndLocked;
    folded := last;
    if cur.end > last.end {
      folded := folded.(end := cur.end);
      folded := folded.(startLock := if StartLocked(folded) then folded.startLock else None,
                        endLock := if EndLocked(folded) then folded.endLock else None);
    }
    var adjacency := last.adjacency + cur.adjacency;
    if adjacency != 0.0 {
      folded := folded.(adjacency := adjacency);
    }
    if cur.patternDefined {
      folded := folded.(patternDefined := true);
    }
  }

  method MergeClose(feed: Feed, ads: seq<Ad>) returns (merged: seq<Ad>)
    ensures merged == if |ads| < 2 then ads else MergedOf(Groups(feed, ads))
  {
    hide Folds, Fold, MergedOf;
    if |ads| < 2 {
      return ads;
    }
    hide SortBy;
    var sorted := SortBy(ads, StartOf());
    merged := [sorted[0]];
    ghost var done: seq<Group> := [];
    ghost var open := Group(sorted[0], [sorted[0]]);
    NoneMerged();
    for i := 1 to |sorted|
      invariant merged == MergedOf(done) + [open.merged]
      invariant done + GroupsFrom(feed, open, sorted[i..]) == Groups(feed, ads)
    {
      var cur := sorted[i];
      assert sorted[i..][1..] == sorted[i + 1..];
      var last := merged[|merged| - 1];
      if Folds(feed, last, cur) {
        var folded := FoldInto(last, cur);
        open := Group(folded, open.members + [cur]);
        merged := merged[|merged| - 1 := folded];
      } else {
        assert done + ([open] + GroupsFrom(feed, Group(cur, [cur]), sorted[i + 1..]))
            == (done + [open]) + GroupsFrom(feed, Group(cur, [cur]), sorted[i + 1..]);
        MergedOfNext(done, open);
        done := done + [open];
        open := Group(cur, [cur]);
        merged := merged + [cur];
      }
    }
    MergedOfNext(done, open);
  }

  // ----- What a group is -----

  ghost predicate RealAds(ads: seq<Ad>) {
    forall i :: 0 <= i < |ads| ==> ads[i].start < ads[i].end
  }

  /** The end lies past the lock the marker carries, if it carries one. */
  predicate PastLock(ad: Ad, end: real) { ad.endLock.Some? ==> ad.endLock.value + EDGE_TOLERANCE < end }

  /** Member k and its successor were folded across the gap between them, and neither the gap nor a lock forbade it. */
  ghost predicate FoldedAt(feed: Feed, ms: seq<Ad>, k: nat)
    requires k + 1 < |ms|
  {
    && 0.0 <= ms[k + 1].start - ms[k].end && GapMerges(feed, ms[k].end, ms[k + 1].start)
    && (ms[k + 1].start > ms[k].end ==> !StartLocked(ms[k + 1]) && PastLock(ms[0], ms[k].end))
  }

  ghost predicate GroupOk(feed: Feed, g: Group) {
    && g.members != [] && RealAds(g.members)
    && g.merged.start == g.members[0].start && g.merged.end == g.members[|g.members| - 1].end
    && (|g.members| == 1 ==> g.merged == g.members[0])
    && (|g.members| > 1 ==> !StandsAlone(g.merged))
    && (EndLocked(g.merged) <==> !PastLock(g.members[0], g.merged.end))
    && (g.merged.endLock.Some? ==> g.merged.endLock == g.members[0].endLock)
    && (forall k :: 0 <= k < |g.members| ==> (|g.members| > 1 ==> !StandsAlone(g.members[k])))
    && (forall k :: 0 <= k < |g.members| ==> SameStamps(feed, g.merged, g.members[k]))
    && (forall k :: 0 <= k < |g.members| - 1 ==> FoldedAt(feed, g.members, k))
  }

  lemma SingleOk(feed: Feed, ad: Ad)
    requires ad.start < ad.end
    ensures GroupOk(feed, Group(ad, [ad]))
  {
  }

  /** A fold keeps the action both sides resolved to, though it may spread the pattern flag. */
  lemma FoldKeepsAction(feed: Feed, last: Ad, cur: Ad)
    requires ResolvedAction(feed, last) == ResolvedAction(feed, cur)
    ensures ResolvedAction(feed, Fold(last, cur)) == ResolvedAction(feed, last)
  {
    hide StartLocked, EndLocked;
    assert Fold(last, cur).category == last.category;
    assert Fold(last, cur).patternDefined == (last.patternDefined || cur.patternDefined);
    hide Fold;
  }

  lemma FoldKeepsStamps(feed: Feed, last: Ad, cur: Ad)
    requires SameStamps(feed, last, cur)
    ensures SameStamps(feed, Fold(last, cur), last) && SameStamps(feed, Fold(last, cur), cur)
    ensures StandsAlone(Fold(last, cur)) == StandsAlone(last)
    ensures Fold(last, cur).start == last.start
  {
    hide ResolvedAction, StartLocked, EndLocked;
    FoldKeepsAction(feed, last, cur);
  }

  lemma FoldExtends(feed: Feed, g: Group, cur: Ad)
    requires GroupOk(feed, g) && cur.start < cur.end && Folds(feed, g.merged, cur)
    ensures GroupOk(feed, Group(Fold(g.merged, cur), g.members + [cur]))
  {
    hide ResolvedAction, GapMerges;
    FoldKeepsStamps(feed, g.merged, cur);
    var ms := g.members + [cur];
    forall k | 0 <= k < |ms| ensures SameStamps(feed, Fold(g.merged, cur), ms[k]) && !StandsAlone(ms[k]) {
      if k < |g.members| {
        assert SameStamps(feed, g.merged, g.members[k]);
        assert |g.members| == 1 ==> g.members[k] == g.merged;
      }
    }
    forall k: nat | k < |ms| - 1 ensures FoldedAt(feed, ms, k) {
      if k < |g.members| - 1 {
        assert FoldedAt(feed, g.members, k);
      }
    }
  }

  /** All members of all groups, in order. */
  function AllMembers(gs: seq<Group>): seq<Ad> {
    if gs == [] then [] else gs[0].members + AllMembers(gs[1..])
  }

  lemma {:induction false} GroupsFromOk(feed: Feed, g: Group, rest: seq<Ad>)
    requires GroupOk(feed, g) && RealAds(rest)
    ensures forall i :: 0 <= i < |GroupsFrom(feed, g, rest)| ==> GroupOk(feed, GroupsFrom(feed, g, rest)[i])
    ensures AllMembers(GroupsFrom(feed, g, rest)) == g.members + rest
    decreases |rest|
  {
    hide GroupOk, Folds, Fold;
    if rest == [] {
      assert [g][1..] == [];
    } else {
      assert RealAds(rest[1..]);
      if Folds(feed, g.merged, rest[0]) {
        FoldExtends(feed, g, rest[0]);
        GroupsFromOk(feed, Group(Fold(g.merged, rest[0]), g.members + [rest[0]]), rest[1..]);
        assert g.members + [rest[0]] + rest[1..] == g.members + rest;
      } else {
        SingleOk(feed, rest[0]);
        GroupsFromOk(feed, Group(rest[0], [rest[0]]), rest[1..]);
        assert [rest[0]] + rest[1..] == rest;
      }
    }
  }

  /** Every marker is in exactly one group, groups are runs of the sorted list, and every group is sound. */
  lemma GroupsAreSound(feed: Feed, ads: seq<Ad>)
    requires RealAds(ads)
    ensures AllMembers(Groups(feed, ads)) == SortBy(ads, StartOf())
    ensures forall i :: 0 <= i < |Groups(feed, ads)| ==> GroupOk(feed, Groups(feed, ads)[i])
  {
    hide GroupsFrom, AllMembers, GroupOk;
    var sorted := SortBy(ads, StartOf());
    SortByMembers(ads, StartOf());
    forall i | 0 <= i < |sorted| ensures sorted[i].start < sorted[i].end {
      assert sorted[i] in ads;
    }
    if sorted == [] {
      NoMembers();
    } else {
      SingleOk(feed, sorted[0]);
      GroupsFromOk(feed, Group(sorted[0], [sorted[0]]), sorted[1..]);
      assert [sorted[0]] + sorted[1..] == sorted;
    }
  }

  lemma NoMembers()
    ensures AllMembers([]) == []
  {
  }

  lemma {:induction false} MembersOfGroups(gs: seq<Group>, x: Ad)
    ensures x in AllMembers(gs) <==> exists i :: 0 <= i < |gs| && x in gs[i].members
  {
    if gs != [] {
      MembersOfGroups(gs[1..], x);
      if x in AllMembers(gs[1..]) {
        var i :| 0 <= i < |gs[1..]| && x in gs[1..][i].members;
        assert x in gs[i + 1].members;
      }
      if exists i :: 0 <= i < |gs| && x in gs[i].members {
        var i :| 0 <= i < |gs| && x in gs[i].members;
        assert i > 0 ==> gs[1..][i - 1] == gs[i];
      }
    }
  }

  /** Every marker is a member of some group, and groups have no other members. */
  lemma GroupedExactly(feed: Feed, ads: seq<Ad>, x: Ad)
    requires RealAds(ads)
    ensures x in ads <==> exists i :: 0 <= i < |Groups(feed, ads)| && x in Groups(feed, ads)[i].members
  {
    hide Groups, GroupOk, AllMembers;
    GroupsAreSound(feed, ads);
    MembersOfGroups(Groups(feed, ads), x);
    SortByMembers(ads, StartOf());
  }

  /** A held, user-kept, large-VAD-gap or confirmed marker comes out on its own, unchanged. */
  lemma DecisionsAreUntouched(feed: Feed, ads: seq<Ad>, x: Ad)
    requires RealAds(ads) && x in ads && StandsAlone(x)
    ensures exists i :: 0 <= i < |Groups(feed, ads)| && Groups(feed, ads)[i].merged == x
                        && |Groups(feed, ads)[i].members| == 1
  {
    hide Groups, StandsAlone, SameStamps, FoldedAt;
    GroupsAreSound(feed, ads);
    GroupedExactly(feed, ads, x);
    var i :| 0 <= i < |Groups(feed, ads)| && x in Groups(feed, ads)[i].members;
    var g := Groups(feed, ads)[i];
    assert GroupOk(feed, g);
    var k :| 0 <= k < |g.members| && g.members[k] == x;
  }

  /** The next group starts where a fold was refused: nothing that may merge is left apart. */
  ghost predicate RefusedAt(feed: Feed, gs: seq<Group>, i: nat)
    requires i + 1 < |gs|
  {
    gs[i + 1].members != [] && !Folds(feed, gs[i].merged, gs[i + 1].members[0])
  }

  lemma {:induction false} GroupsFromMaximal(feed: Feed, g: Group, rest: seq<Ad>)
    requires g.members != []
    ensures var gs := GroupsFrom(feed, g, rest);
      && gs != [] && gs[0].members != [] && gs[0].members[0] == g.members[0]
      && forall i: nat :: i + 1 < |gs| ==> RefusedAt(feed, gs, i)
    decreases |rest|
  {
    hide Folds, Fold;
    if rest != [] {
      if Folds(feed, g.merged, rest[0]) {
        GroupsFromMaximal(feed, Group(Fold(g.merged, rest[0]), g.members + [rest[0]]), rest[1..]);
      } else {
        var tail := GroupsFrom(feed, Group(rest[0], [rest[0]]), rest[1..]);
        GroupsFromMaximal(feed, Group(rest[0], [rest[0]]), rest[1..]);
        var gs := [g] + tail;
        forall i: nat | i + 1 < |gs| ensures RefusedAt(feed, gs, i) {
          assert i > 0 ==> RefusedAt(feed, tail, i - 1);
        }
      }
    }
  }

  lemma GroupsAreMaximal(feed: Feed, ads: seq<Ad>)
    ensures forall i: nat :: i + 1 < |Groups(feed, ads)| ==> RefusedAt(feed, Groups(feed, ads), i)
  {
    hide GroupsFrom, RefusedAt;
    var sorted := SortBy(ads, StartOf());
    if sorted != [] {
      GroupsFromMaximal(feed, Group(sorted[0], [sorted[0]]), sorted[1..]);
    }
  }

  /** t lies in a gap the fold bridged: under five seconds, or under thirty with no speech in it. */
  ghost predicate InBridgedGap(feed: Feed, ms: seq<Ad>, t: real) {
    exists k :: 0 <= k < |ms| - 1 && ms[k].end <= t < ms[k + 1].start && GapMerges(feed, ms[k].end, ms[k + 1].start)
  }

  ghost predicate InMember(ms: seq<Ad>, t: real) {
    exists k :: 0 <= k < |ms| && ms[k].Has(t)
  }

  lemma InMemberWithLast(ms: seq<Ad>, t: real)
    requires ms != []
    ensures InMember(ms, t) <==> InMember(ms[..|ms| - 1], t) || ms[|ms| - 1].Has(t)
  {
    var init := ms[..|ms| - 1];
    if InMember(init, t) {
      var k :| 0 <= k < |init| && init[k].Has(t);
      assert ms[k].Has(t);
    }
    if InMember(ms, t) {
      var k :| 0 <= k < |ms| && ms[k].Has(t);
      assert k < |init| ==> init[k].Has(t);
    }
  }

  lemma InGapWithLast(feed: Feed, ms: seq<Ad>, t: real)
    requires |ms| > 1
    ensures var n := |ms| - 1;
      InBridgedGap(feed, ms, t)
      <==> (|| InBridgedGap(feed, ms[..n], t)
            || (ms[n - 1].end <= t < ms[n].start && GapMerges(feed, ms[n - 1].end, ms[n].start)))
  {
    hide GapMerges;
    var n := |ms| - 1;
    var init := ms[..n];
    if InBridgedGap(feed, init, t) {
      var k :| 0 <= k < |init| - 1 && init[k].end <= t < init[k + 1].start
               && GapMerges(feed, init[k].end, init[k + 1].start);
      assert ms[k] == init[k] && ms[k + 1] == init[k + 1];
    }
    if InBridgedGap(feed, ms, t) {
      var k :| 0 <= k < n && ms[k].end <= t < ms[k + 1].start && GapMerges(feed, ms[k].end, ms[k + 1].start);
      assert k < n - 1 ==> init[k] == ms[k] && init[k + 1] == ms[k + 1];
    }
  }

  lemma {:induction false} RunCovers(feed: Feed, ms: seq<Ad>, t: real)
    requires ms != [] && RealAds(ms) && forall k :: 0 <= k < |ms| - 1 ==> FoldedAt(feed, ms, k)
    ensures ms[0].start < ms[|ms| - 1].end
    ensures ms[0].start <= t < ms[|ms| - 1].end <==> InMember(ms, t) || InBridgedGap(feed, ms, t)
  {
    hide GapMerges, InMember, InBridgedGap;
    var n := |ms| - 1;
    InMemberWithLast(ms, t);
    if n == 0 {
      NothingCovers(feed, ms, t);
    } else {
      forall k: nat | k < n - 1 ensures FoldedAt(feed, ms[..n], k) {
        assert FoldedAt(feed, ms, k);
      }
      RunCovers(feed, ms[..n], t);
      InGapWithLast(feed, ms, t);
      assert FoldedAt(feed, ms, n - 1);
    }
  }

  lemma NothingCovers(feed: Feed, ms: seq<Ad>, t: real)
    requires |ms| == 1
    ensures !InMember(ms[..0], t) && !InBridgedGap(feed, ms, t)
  {
  }

  /** A merged marker covers its members and the bridged gaps between them, and nothing else. */
  lemma GroupCoversMembersAndGaps(feed: Feed, g: Group, t: real)
    requires GroupOk(feed, g)
    ensures g.merged.Has(t) <==> InMember(g.members, t) || InBridgedGap(feed, g.members, t)
  {
    RunCovers(feed, g.members, t);
  }

  /** The merged markers cover every marker and the bridged gaps, and not an instant more. */
  lemma MergingCoversExactly(feed: Feed, ads: seq<Ad>, t: real)
    requires RealAds(ads)
    ensures var gs := Groups(feed, ads);
      (exists i :: 0 <= i < |gs| && gs[i].merged.Has(t))
      <==> InMember(ads, t) || exists i :: 0 <= i < |gs| && InBridgedGap(feed, gs[i].members, t)
  {
    hide Groups, GroupOk, InBridgedGap;
    var gs := Groups(feed, ads);
    GroupsAreSound(feed, ads);
    forall i | 0 <= i < |gs|
      ensures gs[i].merged.Has(t) <==> InMember(gs[i].members, t) || InBridgedGap(feed, gs[i].members, t)
    {
      GroupCoversMembersAndGaps(feed, gs[i], t);
    }
    if InMember(ads, t) {
      var k :| 0 <= k < |ads| && ads[k].Has(t);
      GroupedExactly(feed, ads, ads[k]);
      var i :| 0 <= i < |gs| && ads[k] in gs[i].members;
      assert InMember(gs[i].members, t);
    }
    if i :| 0 <= i < |gs| && InMember(gs[i].members, t) {
      var k :| 0 <= k < |gs[i].members| && gs[i].members[k].Has(t);
      GroupedExactly(feed, ads, gs[i].members[k]);
    }
  }

  // ----- The adjacency cap and reviewer locks -----

  function AdjacencyTotal(ms: seq<Ad>): real {
    if ms == [] then 0.0 else AdjacencyTotal(ms[..|ms| - 1]) + ms[|ms| - 1].adjacency
  }

  ghost predicate AdjacencyOk(g: Group) {
    && g.members != [] && g.merged.adjacency == AdjacencyTotal(g.members)
    && (|g.members| > 1 ==> g.merged.adjacency <= MAX_ADJACENT_AUTO_EXTENSION_SECONDS)
  }

  lemma OneAdjacency(ad: Ad)
    ensures AdjacencyOk(Group(ad, [ad]))
  {
    assert [ad][..0] == [];
    assert AdjacencyTotal([ad]) == AdjacencyTotal([ad][..0]) + ad.adjacency;
  }

  /** A group's adjacency extension is its members' total, and any real fold stays under the cap. */
  lemma {:induction false} AdjacencyIsConserved(feed: Feed, g: Group, rest: seq<Ad>)
    requires AdjacencyOk(g) && g.merged.adjacency >= 0.0
    requires forall i :: 0 <= i < |rest| ==> rest[i].adjacency >= 0.0
    ensures forall i :: 0 <= i < |GroupsFrom(feed, g, rest)| ==> AdjacencyOk(GroupsFrom(feed, g, rest)[i])
    decreases |rest|
  {
    hide GapMerges, ResolvedAction;
    if rest != [] {
      if Folds(feed, g.merged, rest[0]) {
        var ms := g.members + [rest[0]];
        assert ms[..|ms| - 1] == g.members;
        AdjacencyIsConserved(feed, Group(Fold(g.merged, rest[0]), ms), rest[1..]);
      } else {
        OneAdjacency(rest[0]);
        AdjacencyIsConserved(feed, Group(rest[0], [rest[0]]), rest[1..]);
      }
    }
  }

  lemma MergedAdjacencyCapped(feed: Feed, ads: seq<Ad>)
    requires forall i :: 0 <= i < |ads| ==> 0.0 <= ads[i].adjacency <= MAX_ADJACENT_AUTO_EXTENSION_SECONDS
    ensures forall i :: 0 <= i < |Groups(feed, ads)| ==>
      Groups(feed, ads)[i].merged.adjacency <= MAX_ADJACENT_AUTO_EXTENSION_SECONDS
      && Groups(feed, ads)[i].merged.adjacency == AdjacencyTotal(Groups(feed, ads)[i].members)
  {
    hide GroupsFrom;
    var sorted := SortBy(ads, StartOf());
    SortByMembers(ads, StartOf());
    forall i | 0 <= i < |sorted| ensures 0.0 <= sorted[i].adjacency <= MAX_ADJACENT_AUTO_EXTENSION_SECONDS {
      assert sorted[i] in ads;
    }
    if sorted != [] {
      OneAdjacency(sorted[0]);
      AdjacencyIsConserved(feed, Group(sorted[0], [sorted[0]]), sorted[1..]);
      SinglesKeepOwn(feed, Group(sorted[0], [sorted[0]]), sorted[1..]);
    }
  }

  /** A group of one carries its marker's own extension. */
  lemma {:induction false} SinglesKeepOwn(feed: Feed, g: Group, rest: seq<Ad>)
    requires g.members != [] && (|g.members| == 1 ==> g.merged == g.members[0])
    requires g.members[0].adjacency <= MAX_ADJACENT_AUTO_EXTENSION_SECONDS
    requires forall i :: 0 <= i < |rest| ==> rest[i].adjacency <= MAX_ADJACENT_AUTO_EXTENSION_SECONDS
    ensures forall i :: 0 <= i < |GroupsFrom(feed, g, rest)| ==> var h := GroupsFrom(feed, g, rest)[i];
      h.members != [] && (|h.members| == 1 ==> h.merged.adjacency <= MAX_ADJACENT_AUTO_EXTENSION_SECONDS)
    decreases |rest|
  {
    hide Folds, Fold;
    if rest != [] {
      if Folds(feed, g.merged, rest[0]) {
        SinglesKeepOwn(feed, Group(Fold(g.merged, rest[0]), g.members + [rest[0]]), rest[1..]);
      } else {
        SinglesKeepOwn(feed, Group(rest[0], [rest[0]]), rest[1..]);
      }
    }
  }

  function Plain(start: real, end: real, endLock: Option<real>): Ad {
    Ad(start, end, Decision(false, false, false, false), Stamps(false, false, false, false, false), "sponsor", false,
       0.0, None, endLock)
  }

  /** A group bridges a stretch of audio only past the end lock of its first member and short of no start lock. */
  lemma BridgedGapsLiePastTheLock(feed: Feed, ads: seq<Ad>, i: nat, k: nat)
    requires RealAds(ads) && i < |Groups(feed, ads)| && k + 1 < |Groups(feed, ads)[i].members|
    requires var ms := Groups(feed, ads)[i].members; ms[k].end < ms[k + 1].start
    ensures var ms := Groups(feed, ads)[i].members; PastLock(ms[0], ms[k].end) && !StartLocked(ms[k + 1])
    ensures var g := Groups(feed, ads)[i]; EndLocked(g.merged) <==> !PastLock(g.members[0], g.merged.end)
  {
    hide Groups, StartLocked, EndLocked, GapMerges;
    GroupsAreSound(feed, ads);
    assert GroupOk(feed, Groups(feed, ads)[i]);
    assert FoldedAt(feed, Groups(feed, ads)[i].members, k);
  }

  /** A marker that may grow refuses every marker past its end exactly when that end is locked. */
  lemma LockedEndRefusesExactly(feed: Feed, m: Ad)
    requires !StandsAlone(m) && m.adjacency <= MAX_ADJACENT_AUTO_EXTENSION_SECONDS
    ensures (forall cur: Ad :: cur.start > m.end ==> !Folds(feed, m, cur)) <==> EndLocked(m)
  {
    hide ResolvedAction;
    if !EndLocked(m) {
      var cur := m.(start := m.end + 1.0, end := m.end + 2.0, adjacency := 0.0, startLock := None, endLock := None);
      SameActionAs(feed, m, cur);
      assert Folds(feed, m, cur);
    }
  }

  lemma SameActionAs(feed: Feed, a: Ad, b: Ad)
    requires a.category == b.category && a.patternDefined == b.patternDefined
    ensures ResolvedAction(feed, a) == ResolvedAction(feed, b)
  {
  }

  /**
   * A merged marker that may grow refuses every marker past its end exactly while
   * the first member's lock covers that end.
   */
  lemma FirstLockRefusesExactly(feed: Feed, ads: seq<Ad>, i: nat)
    requires RealAds(ads) && i < |Groups(feed, ads)|
    requires var m := Groups(feed, ads)[i].merged;
      !StandsAlone(m) && m.adjacency <= MAX_ADJACENT_AUTO_EXTENSION_SECONDS
    ensures var g := Groups(feed, ads)[i];
      g.members != []
      && ((forall cur: Ad :: cur.start > g.merged.end ==> !Folds(feed, g.merged, cur))
          <==> !PastLock(g.members[0], g.merged.end))
  {
    hide Groups, Folds, EndLocked, StandsAlone;
    GroupsAreSound(feed, ads);
    assert GroupOk(feed, Groups(feed, ads)[i]);
    LockedEndRefusesExactly(feed, Groups(feed, ads)[i].merged);
  }

  const ANY_FEED := Feed(None, [])
  const FIRST := Plain(0.0, 10.0, None)
  const LOCKED := Plain(12.0, 20.0, Some(20.0))
  const NEXT := Plain(23.0, 30.0, None)

  lemma WhoFolds()
    ensures Folds(ANY_FEED, FIRST, LOCKED) && Folds(ANY_FEED, Fold(FIRST, LOCKED), NEXT)
    ensures !Folds(ANY_FEED, LOCKED, NEXT)
  {
  }

  lemma FoldsOn(feed: Feed, g: Group, cur: Ad, rest: seq<Ad>)
    requires Folds(feed, g.merged, cur)
    ensures GroupsFrom(feed, g, [cur] + rest) == GroupsFrom(feed, Group(Fold(g.merged, cur), g.members + [cur]), rest)
  {
    hide Folds, Fold;
    assert ([cur] + rest)[1..] == rest;
  }

  lemma GroupsOfSorted(feed: Feed, ads: seq<Ad>)
    requires SortedBy(ads, StartOf()) && ads != []
    ensures Groups(feed, ads) == GroupsFrom(feed, Group(ads[0], [ads[0]]), ads[1..])
  {
    hide GroupsFrom, SortBy;
    SortByKeepsSorted(ads, StartOf());
  }

  lemma ThreeAreSorted()
    ensures SortedBy([FIRST, LOCKED, NEXT], StartOf()) && SortedBy([LOCKED, NEXT], StartOf())
  {
  }

  lemma AllThreeFold()
    ensures Groups(ANY_FEED, [FIRST, LOCKED, NEXT]) == [Group(Fold(Fold(FIRST, LOCKED), NEXT), [FIRST, LOCKED, NEXT])]
  {
    hide *;
    WhoFolds();
    ThreeAreSorted();
    var ads := [FIRST, LOCKED, NEXT];
    GroupsOfSorted(ANY_FEED, ads);
    var two := Fold(FIRST, LOCKED);
    FoldsOn(ANY_FEED, Group(FIRST, [FIRST]), LOCKED, [NEXT]);
    FoldsOn(ANY_FEED, Group(two, [FIRST] + [LOCKED]), NEXT, []);
    assert ads[1..] == [LOCKED] + [NEXT] && [NEXT] + [] == [NEXT];
    assert [FIRST] + [LOCKED] + [NEXT] == ads;
    NothingLeft(ANY_FEED, Group(Fold(two, NEXT), ads));
  }

  lemma NothingLeft(feed: Feed, g: Group)
    ensures GroupsFrom(feed, g, []) == [g]
  {
  }

  lemma LockedFirstStaysApart()
    ensures Groups(ANY_FEED, [LOCKED, NEXT]) == [Group(LOCKED, [LOCKED]), Group(NEXT, [NEXT])]
  {
    hide *;
    WhoFolds();
    ThreeAreSorted();
    GroupsOfSorted(ANY_FEED, [LOCKED, NEXT]);
    assert [LOCKED, NEXT][1..] == [NEXT] + [];
    StaysApart(ANY_FEED, Group(LOCKED, [LOCKED]), NEXT);
  }

  lemma StaysApart(feed: Feed, g: Group, cur: Ad)
    requires !Folds(feed, g.merged, cur)
    ensures GroupsFrom(feed, g, [cur] + []) == [g, Group(cur, [cur])]
  {
    hide Folds, Fold;
    assert ([cur] + [])[1..] == [];
    NothingLeft(feed, Group(cur, [cur]));
  }

  /**
   * A later member's end lock is not carried: the gap after it is bridged, though
   * the same gap stands when it comes first.
   */
  lemma LaterEndLockIsLost()
    ensures MergedOf(Groups(ANY_FEED, [FIRST, LOCKED, NEXT])) == [Fold(Fold(FIRST, LOCKED), NEXT)]
    ensures MergedOf(Groups(ANY_FEED, [LOCKED, NEXT])) == [LOCKED, NEXT]
  {
    hide Groups, Fold, MergedOf;
    AllThreeFold();
    LockedFirstStaysApart();
    var all := Group(Fold(Fold(FIRST, LOCKED), NEXT), [FIRST, LOCKED, NEXT]);
    var first, last := Group(LOCKED, [LOCKED]), Group(NEXT, [NEXT]);
    NoneMerged();
    MergedOfNext([], all);
    MergedOfNext([], first);
    MergedOfNext([first], last);
    assert [] + [all] == [all] && [] + [first] == [first] && [first] + [last] == [first, last];
  }
}
