/** The lists a review run hands back, and its fallback when a batch fails. */
module ReviewLists {
  import opened Basics
  import opened ReviewerClamp
  import opened ReviewVerdicts
  import opened ReviewRouting

  datatype ReviewResult = ReviewResult(accepted: seq<Marker>, rejected: seq<Marker>, resurrected: seq<Marker>,
                                       contradiction: seq<Marker>, conflict: seq<Marker>, evidence: seq<Marker>,
                                       inconclusive: seq<Marker>, verdicts: seq<Verdict>)

  datatype Outcome = Finished(result: ReviewResult) | RateLimited

  const EMPTY := ReviewResult([], [], [], [], [], [], [], [])

  // ----- Lists from destinations -----

  function Collect(routed: seq<Routed>, d: Dest): seq<Marker> {
    if routed == [] then []
    else
      var last := routed[|routed| - 1];
      Collect(routed[..|routed| - 1], d) + (if last.To? && last.dest == d then [last.marker] else [])
  }

  function Verdicts(routed: seq<Routed>): seq<Verdict> {
    if routed == [] then []
    else
      var last := routed[|routed| - 1];
      Verdicts(routed[..|routed| - 1]) + (if last.To? && last.verdict.Some? then [last.verdict.value] else [])
  }

  function Lists(routed: seq<Routed>): ReviewResult {
    ReviewResult(Collect(routed, Accepted), Collect(routed, Rejected), [], Collect(routed, HeldContradiction),
                 Collect(routed, HeldConflict), Collect(routed, HeldEvidence), Collect(routed, HeldInconclusive),
                 Verdicts(routed))
  }

  /** Where in the input the ads on list d come from. */
  function Positions(routed: seq<Routed>, d: Dest): seq<nat> {
    if routed == [] then []
    else
      var n := |routed| - 1;
      Positions(routed[..n], d) + (if routed[n].To? && routed[n].dest == d then [n] else [])
  }

  /** ms are exactly the markers of the ads on list d, and ps their increasing places in the input. */
  ghost predicate ListIs(routed: seq<Routed>, d: Dest, ps: seq<nat>, ms: seq<Marker>) {
    && |ps| == |ms|
    && (forall j, k :: 0 <= j < k < |ps| ==> ps[j] < ps[k])
    && (forall k :: 0 <= k < |ps| ==>
          ps[k] < |routed| && routed[ps[k]].To? && routed[ps[k]].dest == d && routed[ps[k]].marker == ms[k])
    && (forall i :: 0 <= i < |routed| && routed[i].To? && routed[i].dest == d ==> i in ps)
  }

  lemma ListGoesOn(routed: seq<Routed>, x: Routed, d: Dest, ps: seq<nat>, ms: seq<Marker>)
    requires ListIs(routed, d, ps, ms)
    ensures if x.To? && x.dest == d then ListIs(routed + [x], d, ps + [|routed|], ms + [x.marker])
            else ListIs(routed + [x], d, ps, ms)
  {
    var more := routed + [x];
    assert forall i :: 0 <= i < |routed| ==> more[i] == routed[i];
    if x.To? && x.dest == d {
      var qs := ps + [|routed|];
      forall i | 0 <= i < |more| && more[i].To? && more[i].dest == d ensures i in qs {
        assert i < |routed| ==> i in ps;
        assert qs[|ps|] == |routed|;
      }
    }
  }

  lemma EmptyListIs(routed: seq<Routed>, d: Dest)
    requires routed == []
    ensures ListIs(routed, d, [], [])
  {
  }

  /** Each list holds exactly its ads, in input order. */
  lemma {:induction false} ListsKeepInputOrder(routed: seq<Routed>, d: Dest)
    ensures ListIs(routed, d, Positions(routed, d), Collect(routed, d))
  {
    hide ListIs;
    if routed == [] {
      EmptyListIs(routed, d);
    } else {
      var n := |routed| - 1;
      ListsKeepInputOrder(routed[..n], d);
      ListGoesOn(routed[..n], routed[n], d, Positions(routed[..n], d), Collect(routed[..n], d));
      assert routed == routed[..n] + [routed[n]];
      assert Positions(routed[..n], d) + [] == Positions(routed[..n], d);
      assert Collect(routed[..n], d) + [] == Collect(routed[..n], d);
    }
  }

  /** No ad is lost or listed twice. */
  lemma {:induction false} EveryAdOnce(routed: seq<Routed>)
    requires forall i :: 0 <= i < |routed| ==> routed[i].To?
    ensures var r := Lists(routed);
            |r.accepted| + |r.rejected| + |r.contradiction| + |r.conflict| + |r.evidence| + |r.inconclusive| == |routed|
  {
    if routed != [] {
      EveryAdOnce(routed[..|routed| - 1]);
    }
  }

  // ----- The accepted pool -----

  function RouteItem(it: Item, env: Env): Routed {
    if it.verdict.None? then To(Accepted, None, it.marker) else Route(it.verdict.value, it.marker, env)
  }

  function RouteItems(items: seq<Item>, env: Env): (r: seq<Routed>)
    ensures |r| == |items|
    ensures forall i :: 0 <= i < |r| ==> r[i] == RouteItem(items[i], env)
  {
    seq(|items|, i requires 0 <= i < |items| => RouteItem(items[i], env))
  }

  function Append(r: ReviewResult, x: Routed): ReviewResult
    requires x.To?
  {
    var s := if x.verdict.Some? then r.(verdicts := r.verdicts + [x.verdict.value]) else r;
    match x.dest
    case Accepted => s.(accepted := s.accepted + [x.marker])
    case Rejected => s.(rejected := s.rejected + [x.marker])
    case HeldContradiction => s.(contradiction := s.contradiction + [x.marker])
    case HeldConflict => s.(conflict := s.conflict + [x.marker])
    case HeldEvidence => s.(evidence := s.evidence + [x.marker])
    case HeldInconclusive => s.(inconclusive := s.inconclusive + [x.marker])
  }

  lemma AppendExtendsLists(routed: seq<Routed>, n: nat)
    requires n < |routed| && routed[n].To?
    ensures Lists(routed[..n + 1]) == Append(Lists(routed[..n]), routed[n])
  {
    assert routed[..n + 1][..n] == routed[..n];
  }

  /** The loop over the batch's results; the flag is the exception that left it, if one did. */
  method RouteAccepted(items: seq<Item>, env: Env) returns (result: ReviewResult, abort: Option<bool>)
    ensures var routed := RouteItems(items, env);
            && (abort.None? ==> result == Lists(routed) && forall i :: 0 <= i < |items| ==> routed[i].To?)
            && (abort.Some? ==> exists i :: 0 <= i < |items| && routed[i] == Aborts(abort.value))
  {
    hide Route, Lists, Append;
    ghost var routed := RouteItems(items, env);
    result, abort := EMPTY, None;
    assert Lists(routed[..0]) == EMPTY by { EmptyLists(); }
    for i := 0 to |items|
      invariant result == Lists(routed[..i]) && abort.None?
      invariant forall j :: 0 <= j < i ==> routed[j].To?
    {
      var x := RouteItem(items[i], env);
      if x.Aborts? {
        return result, Some(x.rateLimited);
      }
      AppendExtendsLists(routed, i);
      result := Append(result, x);
    }
    assert routed[..|items|] == routed;
  }

  lemma EmptyLists()
    ensures Lists([]) == EMPTY
  {
  }

  // ----- The resurrection pool -----

  function WithResurrections(r: ReviewResult, items: seq<Item>): (s: ReviewResult)
    requires forall i :: 0 <= i < |items| ==> items[i].verdict.Some?
  {
    if items == [] then r
    else
      var n := |items| - 1;
      var s := WithResurrections(r, items[..n]);
      var v, m := items[n].verdict.value, items[n].marker;
      var t := s.(verdicts := s.verdicts + [v]);
      if v.flags.conflict then t.(conflict := t.conflict + [ConflictHold(m, v)])
      else if v.kind == Resurrect then
        var marked := m.(status := ResurrectedMark);
        t.(resurrected := t.resurrected + [marked], accepted := t.accepted + [marked])
      else t
  }

  method AddResurrections(r: ReviewResult, items: seq<Item>) returns (s: ReviewResult)
    requires forall i :: 0 <= i < |items| ==> items[i].verdict.Some?
    ensures s == WithResurrections(r, items)
  {
    s := r;
    for i := 0 to |items|
      invariant s == WithResurrections(r, items[..i])
    {
      assert items[..i + 1][..i] == items[..i];
      var v, m := items[i].verdict.value, items[i].marker;
      s := s.(verdicts := s.verdicts + [v]);
      if v.flags.conflict {
        s := s.(conflict := s.conflict + [ConflictHold(m, v)]);
      } else if v.kind == Resurrect {
        var marked := m.(status := ResurrectedMark);
        s := s.(resurrected := s.resurrected + [marked]);
        s := s.(accepted := s.accepted + [marked]);
      }
    }
    assert items[..|items|] == items;
  }

  /** The resurrection pool only adds to the accepted and conflict lists, and never moves a bound. */
  lemma {:induction false} ResurrectionsOnlyAdd(r: ReviewResult, items: seq<Item>)
    requires forall i :: 0 <= i < |items| ==> items[i].verdict.Some?
    ensures var s := WithResurrections(r, items);
            && r.resurrected <= s.resurrected && s.accepted == r.accepted + s.resurrected[|r.resurrected|..]
            && r.conflict <= s.conflict && r.verdicts <= s.verdicts
            && s.rejected == r.rejected && s.contradiction == r.contradiction
            && s.evidence == r.evidence && s.inconclusive == r.inconclusive
            && forall k :: |r.resurrected| <= k < |s.resurrected| ==>
                 exists i :: 0 <= i < |items| && items[i].verdict.value.kind == Resurrect
                             && s.resurrected[k] == items[i].marker.(status := ResurrectedMark)
  {
    if items != [] {
      var n := |items| - 1;
      ResurrectionsOnlyAdd(r, items[..n]);
      var before := WithResurrections(r, items[..n]);
      var s := WithResurrections(r, items);
      forall k | |r.resurrected| <= k < |s.resurrected|
        ensures exists i :: 0 <= i < |items| && items[i].verdict.value.kind == Resurrect
                            && s.resurrected[k] == items[i].marker.(status := ResurrectedMark)
      {
        if k < |before.resurrected| {
          var i :| 0 <= i < n && items[..n][i].verdict.value.kind == Resurrect
                   && before.resurrected[k] == items[..n][i].marker.(status := ResurrectedMark);
          assert items[i] == items[..n][i];
        }
      }
    }
  }

  // ----- Batch failure -----

  function FailAds(cs: seq<Candidate>, checkSupport: bool): (r: seq<Routed>)
    ensures |r| == |cs|
    ensures forall i :: 0 <= i < |r| ==> r[i] == FailAd(cs[i], checkSupport)
  {
    seq(|cs|, i requires 0 <= i < |cs| => FailAd(cs[i], checkSupport))
  }

  predicate AllSettle(routed: seq<Routed>) { forall i :: 0 <= i < |routed| ==> routed[i].To? }

  /** The failure rule with the support check, or without it when the check itself fails. */
  function FailRouting(cs: seq<Candidate>): (r: seq<Routed>)
    ensures |r| == |cs| && AllSettle(r)
  {
    if AllSettle(FailAds(cs, true)) then FailAds(cs, true) else FailAds(cs, false)
  }

  /** x is what a failed batch makes of an ad; with no support check nothing counts as backed. */
  ghost predicate FailsTo(c: Candidate, checked: bool, x: Routed) {
    if c.userConfirmed || c.cueMatch then x == To(Accepted, None, Marker(c, c.span, Untouched, None, None))
    else
      && x.To? && x.verdict.Some? && x.verdict.value.kind == Failure && x.verdict.value.original == c.span
      && x.verdict.value.adjusted.None?
      && if checked && c.support.Backed? then
           x.dest == Accepted && x.marker == Marker(c, c.span, Untouched, None, None)
         else
           x.dest == HeldInconclusive && x.marker == Marker(c, c.span, HeldFor(ReviewerFailed), None, None)
  }

  /** After a failure each ad is accepted as it was if backed and else held, none backed when some check raises. */
  lemma FailuresExactly(cs: seq<Candidate>)
    ensures var checked := forall c :: c in cs && !c.userConfirmed && !c.cueMatch ==> !c.support.CheckRaises?;
      forall i :: 0 <= i < |cs| ==> FailsTo(cs[i], checked, FailRouting(cs)[i])
  {
    var checked := forall c :: c in cs && !c.userConfirmed && !c.cueMatch ==> !c.support.CheckRaises?;
    if checked {
      forall i | 0 <= i < |cs| ensures FailAd(cs[i], true).To? {
        assert cs[i] in cs;
      }
    } else {
      var c :| c in cs && !c.userConfirmed && !c.cueMatch && c.support.CheckRaises?;
      var i :| 0 <= i < |cs| && cs[i] == c;
      assert FailAds(cs, true)[i] == FailAd(c, true) == Aborts(false);
    }
  }

  method FailAll(cs: seq<Candidate>, checkSupport: bool) returns (result: Option<ReviewResult>)
    ensures result == if AllSettle(FailAds(cs, checkSupport)) then Some(Lists(FailAds(cs, checkSupport))) else None
  {
    hide FailAd, Lists, Append;
    var r := EMPTY;
    ghost var routed := FailAds(cs, checkSupport);
    assert Lists(routed[..0]) == EMPTY by { EmptyLists(); }
    for i := 0 to |cs|
      invariant r == Lists(routed[..i])
      invariant forall j :: 0 <= j < i ==> routed[j].To?
    {
      var x := FailAd(cs[i], checkSupport);
      if x.Aborts? {
        assert routed[i] == x;
        return None;
      }
      AppendExtendsLists(routed, i);
      r := Append(r, x);
    }
    assert routed[..|cs|] == routed;
    result := Some(r);
  }

  // ----- The whole run -----

  function RouteAds(cs: seq<Candidate>, rs: seq<Reply>, env: Env): (r: seq<Routed>)
    requires |cs| == |rs|
    ensures |r| == |cs|
    ensures forall i :: 0 <= i < |r| ==> r[i] == RouteAd(cs[i], rs[i], env)
  {
    seq(|cs|, i requires 0 <= i < |cs| => RouteAd(cs[i], rs[i], env))
  }

  predicate NoneRaise(rs: seq<Reply>) { forall i :: 0 <= i < |rs| ==> !rs[i].Raised? }

  function ReviewedItems(cs: seq<Candidate>, rs: seq<Reply>, env: Env): (r: seq<Item>)
    requires |cs| == |rs| && NoneRaise(rs)
    ensures |r| == |cs|
    ensures forall i :: 0 <= i < |r| ==> r[i] == RunOne(cs[i], rs[i], true, env) && r[i].verdict.Some?
  {
    seq(|cs|, i requires 0 <= i < |cs| => RunOne(cs[i], rs[i], true, env))
  }

  /** No exception: the setup went through, or was skipped because both pools are empty, and so did every review. */
  predicate Undisturbed(cs: seq<Candidate>, rs: seq<Reply>, zrs: seq<Reply>, env: Env)
    requires |cs| == |rs|
  {
    (env.setup.None? || (cs == [] && zrs == [])) && AllSettle(RouteAds(cs, rs, env)) && NoneRaise(zrs)
  }

  /** An exception of this kind left the setup, some worker or the routing loop. */
  ghost predicate SomeAbort(cs: seq<Candidate>, rs: seq<Reply>, zrs: seq<Reply>, env: Env, rateLimited: bool)
    requires |cs| == |rs|
  {
    || env.setup == Some(rateLimited)
    || (exists i :: 0 <= i < |cs| && RouteAds(cs, rs, env)[i] == Aborts(rateLimited))
    || Raised(rateLimited) in zrs
  }

  /**
   * What a run comes to. Without an exception the lists are the routed ads followed by the resurrections; with one,
   * the rate limit defers the episode and anything else falls back to the failure rule.
   */
  ghost predicate ReviewIs(cs: seq<Candidate>, rs: seq<Reply>, zs: seq<Candidate>, zrs: seq<Reply>, env: Env,
                           out: Outcome)
    requires |cs| == |rs| && |zs| == |zrs|
  {
    if Undisturbed(cs, rs, zrs, env) then
      out == Finished(WithResurrections(Lists(RouteAds(cs, rs, env)), ReviewedItems(zs, zrs, env)))
    else
      || (out == RateLimited && SomeAbort(cs, rs, zrs, env, true))
      || (out == Finished(Lists(FailRouting(cs))) && SomeAbort(cs, rs, zrs, env, false))
  }

  method FailureRule(cs: seq<Candidate>) returns (result: ReviewResult)
    ensures result == Lists(FailRouting(cs))
  {
    hide FailAds, Lists, AllSettle;
    var first := FailAll(cs, true);
    if first.Some? {
      return first.value;
    }
    var second := FailAll(cs, false);
    assert AllSettle(FailRouting(cs));
    result := second.value;
  }

  lemma RoutedAsBatched(c: Candidate, r: Reply, env: Env)
    ensures Raises(c, r, false) ==> RouteAd(c, r, env) == Aborts(r.rateLimited)
    ensures !Raises(c, r, false) ==> RouteItem(RunOne(c, r, false, env), env) == RouteAd(c, r, env)
  {
    hide Route, ReviewSingle;
  }

  lemma EmptyPools(cs: seq<Candidate>, rs: seq<Reply>, zs: seq<Candidate>, zrs: seq<Reply>, env: Env)
    requires |cs| == |rs| && |zs| == |zrs| && cs == [] && zs == []
    ensures ReviewIs(cs, rs, zs, zrs, env, Finished(EMPTY))
  {
    EmptyLists();
    assert RouteAds(cs, rs, env) == [] && ReviewedItems(zs, zrs, env) == [];
  }

  /** The two batches and their loops; failed is the exception that left one of them, if one did. */
  method ReviewPools(cs: seq<Candidate>, rs: seq<Reply>, zs: seq<Candidate>, zrs: seq<Reply>, env: Env, maxWorkers: int,
                     order: seq<nat>, zorder: seq<nat>) returns (result: ReviewResult, failed: Option<bool>)
    requires |cs| == |rs| && |zs| == |zrs|
    requires IsOrder(order, |cs|) && IsOrder(zorder, |zs|)
    ensures failed.None? <==> AllSettle(RouteAds(cs, rs, env)) && NoneRaise(zrs)
    ensures failed.None? ==>
      result == WithResurrections(Lists(RouteAds(cs, rs, env)), ReviewedItems(zs, zrs, env))
    ensures failed.Some? ==> SomeAbort(cs, rs, zrs, env, failed.value)
  {
    hide RouteAd, RouteItem, RunOne, Lists, WithResurrections, IsOrder;
    result, failed := EMPTY, None;
    var batch := RunReviewBatch(cs, rs, false, env, maxWorkers, order);
    forall i | 0 <= i < |cs|
      ensures Raises(cs[i], rs[i], false) ==> RouteAds(cs, rs, env)[i] == Aborts(rs[i].rateLimited)
      ensures !Raises(cs[i], rs[i], false) ==>
                RouteItem(RunOne(cs[i], rs[i], false, env), env) == RouteAds(cs, rs, env)[i]
    {
      RoutedAsBatched(cs[i], rs[i], env);
    }
    if batch.Failed? {
      BatchFailureAborts(cs, rs, env, if maxWorkers <= 1 || |cs| == 1 then InputOrder(|cs|) else order, batch);
      return EMPTY, Some(batch.rateLimited);
    }
    result, failed := RouteAccepted(batch.items, env);
    assert RouteItems(batch.items, env) == RouteAds(cs, rs, env);
    if failed.Some? {
      return;
    }
    var late := RunReviewBatch(zs, zrs, true, env, maxWorkers, zorder);
    if late.Failed? {
      LateFailureRaises(zs, zrs, env, if maxWorkers <= 1 || |zs| == 1 then InputOrder(|zs|) else zorder, late);
      return result, Some(late.rateLimited);
    }
    assert late.items == ReviewedItems(zs, zrs, env);
    result := AddResurrections(result, late.items);
  }

  /** Both pools, whatever the replies and whatever order the workers finish in. */
  method Review(cs: seq<Candidate>, rs: seq<Reply>, zs: seq<Candidate>, zrs: seq<Reply>, env: Env, maxWorkers: int,
                order: seq<nat>, zorder: seq<nat>) returns (out: Outcome)
    requires |cs| == |rs| && |zs| == |zrs|
    requires IsOrder(order, |cs|) && IsOrder(zorder, |zs|)
    ensures ReviewIs(cs, rs, zs, zrs, env, out)
  {
    hide RouteAd, RouteItem, RunOne, Lists, FailRouting, WithResurrections, IsOrder, BatchIs;
    var failed := env.setup;
    if cs == [] && zs == [] {
      EmptyPools(cs, rs, zs, zrs, env);
      return Finished(EMPTY);
    }
    if failed.None? {
      var result;
      result, failed := ReviewPools(cs, rs, zs, zrs, env, maxWorkers, order, zorder);
      if failed.None? {
        return Finished(result);
      }
    }
    assert SomeAbort(cs, rs, zrs, env, failed.value);
    assert !(Undisturbed(cs, rs, zrs, env));
    if failed.value {
      return RateLimited;
    }
    var fallback := FailureRule(cs);
    out := Finished(fallback);
  }

  lemma BatchFailureAborts(cs: seq<Candidate>, rs: seq<Reply>, env: Env, order: seq<nat>, b: Batch)
    requires |cs| == |rs| && IsOrder(order, |cs|) && BatchIs(cs, rs, false, env, order, b) && b.Failed?
    ensures exists i :: 0 <= i < |cs| && RouteAds(cs, rs, env)[i] == Aborts(b.rateLimited)
  {
    hide RunOne, RouteAd;
    var k: nat :| FirstRaise(cs, rs, false, order, k) && rs[order[k]] == Raised(b.rateLimited);
    RoutedAsBatched(cs[order[k]], rs[order[k]], env);
    assert RouteAds(cs, rs, env)[order[k]] == Aborts(b.rateLimited);
  }

  lemma LateFailureRaises(zs: seq<Candidate>, zrs: seq<Reply>, env: Env, order: seq<nat>, b: Batch)
    requires |zs| == |zrs| && IsOrder(order, |zs|) && BatchIs(zs, zrs, true, env, order, b) && b.Failed?
    ensures Raised(b.rateLimited) in zrs
  {
    hide RunOne;
    var k: nat :| FirstRaise(zs, zrs, true, order, k) && zrs[order[k]] == Raised(b.rateLimited);
    assert zrs[order[k]] in zrs;
  }

  // ----- What every run keeps -----

  ghost predicate Placed(r: ReviewResult, routed: seq<Routed>) {
    var l := Lists(routed);
    && r.accepted == l.accepted + r.resurrected && l.conflict <= r.conflict && l.verdicts <= r.verdicts
    && r.rejected == l.rejected && r.contradiction == l.contradiction
    && r.evidence == l.evidence && r.inconclusive == l.inconclusive
  }

  /** Each ad is placed, and an ad the reviewer skips stays accepted, unchanged and without a verdict. */
  ghost predicate PlacesAll(cs: seq<Candidate>, routed: seq<Routed>) {
    && |routed| == |cs|
    && forall i :: 0 <= i < |cs| ==>
         && routed[i].To? && routed[i].marker.c == cs[i]
         && (cs[i].userConfirmed || cs[i].cueMatch ==>
               routed[i] == To(Accepted, None, Marker(cs[i], cs[i].span, Untouched, None, None)))
  }

  /** The routing behind a run's lists. */
  function Routing(cs: seq<Candidate>, rs: seq<Reply>, zrs: seq<Reply>, env: Env): seq<Routed>
    requires |cs| == |rs|
  {
    if Undisturbed(cs, rs, zrs, env) then RouteAds(cs, rs, env) else FailRouting(cs)
  }

  lemma RoutedMarkerIsTheAds(c: Candidate, r: Reply, env: Env)
    requires RouteAd(c, r, env).To?
    ensures RouteAd(c, r, env).marker.c == c
  {
    hide Clamp, Conflicts, RecoverTrim, HoldLimits;
  }

  /**
   * Every finished run, also one that fell back to the failure rule, places every ad
   * on exactly one list, in input order.
   */
  lemma EveryRunPlacesEveryAd(cs: seq<Candidate>, rs: seq<Reply>, zs: seq<Candidate>, zrs: seq<Reply>, env: Env,
                              out: Outcome)
    requires |cs| == |rs| && |zs| == |zrs| && ReviewIs(cs, rs, zs, zrs, env, out) && out.Finished?
    ensures PlacesAll(cs, Routing(cs, rs, zrs, env))
    ensures Placed(out.result, Routing(cs, rs, zrs, env))
  {
    hide WithResurrections, Collect, Verdicts;
    var routed := Routing(cs, rs, zrs, env);
    if Undisturbed(cs, rs, zrs, env) {
      hide RouteAd;
      forall i | 0 <= i < |cs| ensures routed[i].marker.c == cs[i] {
        RoutedMarkerIsTheAds(cs[i], rs[i], env);
      }
      ResurrectionsOnlyAdd(Lists(routed), ReviewedItems(zs, zrs, env));
      SkippedRoute(cs, rs, env);
    }
  }

  lemma SkippedRoute(cs: seq<Candidate>, rs: seq<Reply>, env: Env)
    requires |cs| == |rs|
    ensures forall i :: 0 <= i < |cs| && Skips(cs[i]) ==> RouteAds(cs, rs, env)[i] == To(Accepted, None, Plain(cs[i]))
  {
  }

  /** In every finished run, for all replies and orders, whatever is cut is a safe cut. */
  lemma EveryFinalCutIsSafe(cs: seq<Candidate>, rs: seq<Reply>, zs: seq<Candidate>, zrs: seq<Reply>, env: Env,
                            out: Outcome)
    requires |cs| == |rs| && |zs| == |zrs| && ReviewIs(cs, rs, zs, zrs, env, out) && out.Finished?
    requires env.cap >= 0.0
    requires forall c :: c in cs || c in zs ==> c.span.lo < c.span.hi
    ensures forall m :: m in out.result.accepted ==> SafeCut(m, env)
  {
    hide SafeCut, RouteAd, FailAd, WithResurrections, Lists, Collect;
    var routed := Routing(cs, rs, zrs, env);
    EveryRunPlacesEveryAd(cs, rs, zs, zrs, env, out);
    ListsKeepInputOrder(routed, Accepted);
    var l := Lists(routed);
    AcceptedAreCollected(routed);
    forall k | 0 <= k < |l.accepted| ensures SafeCut(l.accepted[k], env) {
      var i := Positions(routed, Accepted)[k];
      assert cs[i] in cs;
      if Undisturbed(cs, rs, zrs, env) {
        AcceptedCutsAreSafe(cs[i], rs[i], env);
      } else {
        FailedCutIsPlain(cs, i);
        PlainCutIsSafe(cs[i], env);
      }
    }
    forall k | 0 <= k < |out.result.resurrected| ensures SafeCut(out.result.resurrected[k], env) {
      ResurrectedAreCandidates(cs, rs, zs, zrs, env, out, k);
      var c :| c in zs && out.result.resurrected[k] == Plain(c).(status := ResurrectedMark);
      PlainCutIsSafe(c, env);
      StatusIsNoMatter(Plain(c), ResurrectedMark, env);
    }
  }

  lemma AcceptedAreCollected(routed: seq<Routed>)
    ensures Lists(routed).accepted == Collect(routed, Accepted)
  {
  }

  lemma StatusIsNoMatter(m: Marker, status: Status, env: Env)
    ensures SafeCut(m.(status := status), env) == SafeCut(m, env)
  {
  }

  lemma FailedCutIsPlain(cs: seq<Candidate>, i: nat)
    requires i < |cs| && FailRouting(cs)[i].dest == Accepted
    ensures FailRouting(cs)[i].marker == Plain(cs[i])
  {
  }

  lemma PlainCutIsSafe(c: Candidate, env: Env)
    requires c.span.lo < c.span.hi
    ensures SafeCut(Plain(c), env)
  {
    hide MemberConflict;
    if MembersInside(c) {
      forall i | 0 <= i < |c.ad.members| ensures !MemberConflict(c.ad.members[i], c.span) {
        OriginalKeepsMembers(c.ad.members[i], c.span);
      }
    }
  }

  lemma ResurrectedAreCandidates(cs: seq<Candidate>, rs: seq<Reply>, zs: seq<Candidate>, zrs: seq<Reply>, env: Env,
                                 out: Outcome, k: nat)
    requires |cs| == |rs| && |zs| == |zrs| && ReviewIs(cs, rs, zs, zrs, env, out) && out.Finished?
    requires k < |out.result.resurrected|
    ensures exists c :: c in zs && out.result.resurrected[k] == Plain(c).(status := ResurrectedMark)
  {
    hide RouteAd, FailAd, WithResurrections, Collect, Verdicts;
    if Undisturbed(cs, rs, zrs, env) {
      var items := ReviewedItems(zs, zrs, env);
      var l := Lists(RouteAds(cs, rs, env));
      ResurrectionsOnlyAdd(l, items);
      var s := WithResurrections(l, items);
      assert out.result == s && |l.resurrected| == 0 <= k;
      assert s.resurrected[k] == out.result.resurrected[k];
      var i :| 0 <= i < |items| && items[i].verdict.value.kind == Resurrect
               && out.result.resurrected[k] == items[i].marker.(status := ResurrectedMark);
      ResurrectedIsPlain(zs[i], zrs[i], env);
      assert zs[i] in zs;
    }
  }

  lemma ResurrectedIsPlain(c: Candidate, r: Reply, env: Env)
    requires !r.Raised? && RunOne(c, r, true, env).verdict.value.kind == Resurrect
    ensures RunOne(c, r, true, env).marker == Plain(c)
  {
    hide Clamp, Conflicts;
  }
}
