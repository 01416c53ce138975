/** A whole review run: concurrent batches merged back in input order, then one list per ad. */
module ReviewRouting {
  import opened Basics
  import opened ReviewVerdicts

  // ----- Batches -----

  datatype Item = Item(verdict: Option<Verdict>, marker: Marker)

  datatype Batch = Done(items: seq<Item>) | Failed(rateLimited: bool)

  predicate Raises(c: Candidate, r: Reply, resurrection: bool) { r.Raised? && (resurrection || !Skips(c)) }

  function RunOne(c: Candidate, r: Reply, resurrection: bool, env: Env): Item
    requires !Raises(c, r, resurrection)
  {
    if !resurrection && Skips(c) then Item(None, Plain(c))
    else
      var (v, m) := ReviewSingle(c, r, resurrection, env);
      Item(Some(v), m)
  }

  ghost predicate Finishes(order: seq<nat>, i: int) { exists k :: 0 <= k < |order| && order[k] == i }

  /** The order in which n workers finish. */
  ghost predicate IsOrder(order: seq<nat>, n: nat) {
    && |order| == n
    && (forall k :: 0 <= k < n ==> order[k] < n)
    && (forall i :: 0 <= i < n ==> Finishes(order, i))
  }

  /** The first raised reply in completion order is the one that surfaces. */
  ghost predicate FirstRaise(cs: seq<Candidate>, rs: seq<Reply>, resurrection: bool, order: seq<nat>, k: nat)
    requires |cs| == |rs| && IsOrder(order, |cs|)
  {
    && k < |order| && Raises(cs[order[k]], rs[order[k]], resurrection)
    && forall j :: 0 <= j < k ==> !Raises(cs[order[j]], rs[order[j]], resurrection)
  }

  ghost predicate BatchIs(cs: seq<Candidate>, rs: seq<Reply>, resurrection: bool, env: Env, order: seq<nat>, b: Batch)
    requires |cs| == |rs| && IsOrder(order, |cs|)
  {
    match b
    case Done(items) =>
      && |items| == |cs|
      && forall i :: 0 <= i < |cs| ==>
           !Raises(cs[i], rs[i], resurrection) && items[i] == RunOne(cs[i], rs[i], resurrection, env)
    case Failed(rateLimited) =>
      exists k: nat :: FirstRaise(cs, rs, resurrection, order, k) && rs[order[k]] == Raised(rateLimited)
  }

  function InputOrder(n: nat): seq<nat> { seq(n, i => i) }

  lemma InputOrderIsOrder(n: nat)
    ensures IsOrder(InputOrder(n), n)
  {
    forall i | 0 <= i < n ensures Finishes(InputOrder(n), i) {
      assert InputOrder(n)[i] == i;
    }
  }

  /** The order in which worker i finishes first. */
  function StartingWith(n: nat, i: nat): seq<nat>
    requires i < n
  {
    InputOrder(n)[0 := i][i := 0]
  }

  /** Results land at their ad's position, whatever order they finish in. */
  method RunReviewBatch(cs: seq<Candidate>, rs: seq<Reply>, resurrection: bool, env: Env, maxWorkers: int,
                        order: seq<nat>)
    returns (b: Batch)
    requires |cs| == |rs| && IsOrder(order, |cs|)
    ensures IsOrder(InputOrder(|cs|), |cs|)
    ensures BatchIs(cs, rs, resurrection, env, if maxWorkers <= 1 || |cs| == 1 then InputOrder(|cs|) else order, b)
  {
    hide ReviewSingle;
    var n := |cs|;
    InputOrderIsOrder(n);
    if maxWorkers <= 1 || n == 1 {
      var items := [];
      for i := 0 to n
        invariant |items| == i
        invariant forall j :: 0 <= j < i ==>
          !Raises(cs[j], rs[j], resurrection) && items[j] == RunOne(cs[j], rs[j], resurrection, env)
      {
        if Raises(cs[i], rs[i], resurrection) {
          assert FirstRaise(cs, rs, resurrection, InputOrder(n), i);
          return Failed(rs[i].rateLimited);
        }
        items := items + [RunOne(cs[i], rs[i], resurrection, env)];
      }
      return Done(items);
    }
    var ordered := new Option<Item>[n](_ => None);
    for k := 0 to n
      invariant forall j :: 0 <= j < k ==>
        !Raises(cs[order[j]], rs[order[j]], resurrection)
        && ordered[order[j]] == Some(RunOne(cs[order[j]], rs[order[j]], resurrection, env))
    {
      var i := order[k];
      if Raises(cs[i], rs[i], resurrection) {
        assert FirstRaise(cs, rs, resurrection, order, k);
        return Failed(rs[i].rateLimited);
      }
      ordered[i] := Some(RunOne(cs[i], rs[i], resurrection, env));
    }
    forall i | 0 <= i < n
      ensures !Raises(cs[i], rs[i], resurrection) && ordered[i] == Some(RunOne(cs[i], rs[i], resurrection, env))
    {
      assert Finishes(order, i);
      var k :| 0 <= k < n && order[k] == i;
    }
    var items := [];
    for i := 0 to n
      invariant |items| == i
      invariant forall j :: 0 <= j < i ==> items[j] == RunOne(cs[j], rs[j], resurrection, env)
    {
      items := items + [ordered[i].value];
    }
    b := Done(items);
  }

  /**
   * Completion order shows only in which exception surfaces: alike failures, or none, give one outcome for all orders.
   */
  lemma OrderMattersOnlyForMixedFailures(cs: seq<Candidate>, rs: seq<Reply>, resurrection: bool, env: Env,
                                         o1: seq<nat>, o2: seq<nat>, b1: Batch, b2: Batch)
    requires |cs| == |rs| && IsOrder(o1, |cs|) && IsOrder(o2, |cs|)
    requires BatchIs(cs, rs, resurrection, env, o1, b1) && BatchIs(cs, rs, resurrection, env, o2, b2)
    requires AlikeFailures(cs, rs, resurrection)
    ensures b1 == b2
  {
    hide RunOne;
    if b1.Done? {
      assert b2.Done?;
      assert b1.items == b2.items;
    } else {
      var k: nat :| FirstRaise(cs, rs, resurrection, o1, k) && rs[o1[k]] == Raised(b1.rateLimited);
      assert Raises(cs[o1[k]], rs[o1[k]], resurrection);
      assert b2.Failed?;
    }
  }

  ghost predicate AlikeFailures(cs: seq<Candidate>, rs: seq<Reply>, resurrection: bool)
    requires |cs| == |rs|
  {
    forall i, j :: 0 <= i < j < |cs| && Raises(cs[i], rs[i], resurrection) && Raises(cs[j], rs[j], resurrection)
      ==> rs[i] == rs[j]
  }

  /** Any raised reply can be the one that surfaces, so failures of both kinds leave the outcome to the workers. */
  lemma AnyFailureCanSurface(cs: seq<Candidate>, rs: seq<Reply>, resurrection: bool, env: Env, i: nat)
    requires |cs| == |rs| && i < |cs| && Raises(cs[i], rs[i], resurrection)
    ensures IsOrder(StartingWith(|cs|, i), |cs|)
    ensures BatchIs(cs, rs, resurrection, env, StartingWith(|cs|, i), Failed(rs[i].rateLimited))
  {
    var n := |cs|;
    var order := StartingWith(n, i);
    forall j | 0 <= j < n ensures Finishes(order, j) {
      var k := if j == i then 0 else if j == 0 then i else j;
      assert order[k] == j;
    }
    assert FirstRaise(cs, rs, resurrection, order, 0);
  }

  ghost predicate MayEndIn(cs: seq<Candidate>, rs: seq<Reply>, resurrection: bool, env: Env, order: seq<nat>, b: Batch)
    requires |cs| == |rs|
  {
    IsOrder(order, |cs|) && BatchIs(cs, rs, resurrection, env, order, b)
  }

  /** The batch comes out the same for every completion order exactly when no two reviews fail differently. */
  lemma OrderMattersExactly(cs: seq<Candidate>, rs: seq<Reply>, resurrection: bool, env: Env)
    requires |cs| == |rs|
    ensures AlikeFailures(cs, rs, resurrection)
      <==> forall o1, o2, b1, b2 ::
             MayEndIn(cs, rs, resurrection, env, o1, b1) && MayEndIn(cs, rs, resurrection, env, o2, b2) ==> b1 == b2
  {
    hide BatchIs, IsOrder, StartingWith;
    if AlikeFailures(cs, rs, resurrection) {
      forall o1, o2, b1, b2 | MayEndIn(cs, rs, resurrection, env, o1, b1) && MayEndIn(cs, rs, resurrection, env, o2, b2)
        ensures b1 == b2
      {
        OrderMattersOnlyForMixedFailures(cs, rs, resurrection, env, o1, o2, b1, b2);
      }
    } else {
      var i, j :| 0 <= i < j < |cs| && Raises(cs[i], rs[i], resurrection) && Raises(cs[j], rs[j], resurrection)
                  && rs[i] != rs[j];
      AnyFailureCanSurface(cs, rs, resurrection, env, i);
      AnyFailureCanSurface(cs, rs, resurrection, env, j);
      assert MayEndIn(cs, rs, resurrection, env, StartingWith(|cs|, i), Failed(rs[i].rateLimited));
      assert MayEndIn(cs, rs, resurrection, env, StartingWith(|cs|, j), Failed(rs[j].rateLimited));
    }
  }
}
