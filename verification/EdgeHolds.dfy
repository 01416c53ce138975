/** Keeping an edge from moving inward past its limits, and clipping a widened edge at kept audio. */
module EdgeHolds {
  import opened Basics
  import opened Spans
  import opened EdgeIndex

  /** The edge triggers and filters barriers; the held edge lands on the floor. */
  datatype Limit = Limit(edge: real, floor: real)

  /** Largest of floor and the barrier ends, capped at start, that lie between the limit and start. */
  function StartStop(start: real, edge: real, floor: real, barriers: seq<Span>): real {
    if barriers == [] then floor
    else
      var b := barriers[|barriers| - 1];
      var rest := StartStop(start, edge, floor, barriers[..|barriers| - 1]);
      if b.lo < start && b.hi > edge then MaxReal(rest, MinReal(b.hi, start)) else rest
  }

  function EndStop(end: real, edge: real, floor: real, barriers: seq<Span>): real {
    if barriers == [] then floor
    else
      var b := barriers[|barriers| - 1];
      var rest := EndStop(end, edge, floor, barriers[..|barriers| - 1]);
      if b.hi > end && b.lo < edge then MinReal(rest, MaxReal(b.lo, end)) else rest
  }

  function HoldStart(start: real, l: Limit, barriers: seq<Span>): real {
    if start > l.edge then StartStop(start, l.edge, l.floor, barriers) else start
  }

  function HoldEnd(end: real, l: Limit, barriers: seq<Span>): real {
    if end < l.edge then EndStop(end, l.edge, l.floor, barriers) else end
  }

  function HoldStarts(start: real, limits: seq<Limit>, barriers: seq<Span>): real {
    if limits == [] then start
    else HoldStart(HoldStarts(start, limits[..|limits| - 1], barriers), limits[|limits| - 1], barriers)
  }

  function HoldEnds(end: real, limits: seq<Limit>, barriers: seq<Span>): real {
    if limits == [] then end
    else HoldEnd(HoldEnds(end, limits[..|limits| - 1], barriers), limits[|limits| - 1], barriers)
  }

  method HoldInwardEdges(start: real, end: real, startLimits: seq<Limit>, endLimits: seq<Limit>, barriers: seq<Span>)
    returns (s: real, e: real)
    ensures s == HoldStarts(start, startLimits, barriers)
    ensures e == HoldEnds(end, endLimits, barriers)
  {
    s, e := start, end;
    for i := 0 to |startLimits|
      invariant s == HoldStarts(start, startLimits[..i], barriers)
    {
      assert startLimits[..i + 1][..i] == startLimits[..i];
      var l := startLimits[i];
      if s > l.edge {
        s := StartStop(s, l.edge, l.floor, barriers);
      }
    }
    assert startLimits[..|startLimits|] == startLimits;
    for i := 0 to |endLimits|
      invariant e == HoldEnds(end, endLimits[..i], barriers)
    {
      assert endLimits[..i + 1][..i] == endLimits[..i];
      var l := endLimits[i];
      if e < l.edge {
        e := EndStop(e, l.edge, l.floor, barriers);
      }
    }
    assert endLimits[..|endLimits|] == endLimits;
  }

  // ----- One hold -----

  ghost predicate InTheWay(b: Span, start: real, edge: real) {
    b.lo < start && b.hi > edge
  }

  /** What a stop is: no less than the floor and than every barrier end in the way, and one of them. */
  lemma {:induction false} StartStopIs(start: real, edge: real, floor: real, barriers: seq<Span>)
    ensures var r := StartStop(start, edge, floor, barriers);
      && floor <= r
      && (forall i :: 0 <= i < |barriers| && InTheWay(barriers[i], start, edge) ==> MinReal(barriers[i].hi, start) <= r)
      && (r == floor || exists i :: 0 <= i < |barriers| && InTheWay(barriers[i], start, edge)
                                    && r == MinReal(barriers[i].hi, start))
  {
    if barriers != [] {
      var init := barriers[..|barriers| - 1];
      StartStopIs(start, edge, floor, init);
      var r, q := StartStop(start, edge, floor, barriers), StartStop(start, edge, floor, init);
      if r == q && q != floor {
        var i :| 0 <= i < |init| && InTheWay(init[i], start, edge) && q == MinReal(init[i].hi, start);
        assert InTheWay(barriers[i], start, edge);
      } else if r != q {
        assert InTheWay(barriers[|barriers| - 1], start, edge);
      }
    }
  }

  /** A stop is fixed by that description. */
  lemma StopUnique(start: real, edge: real, floor: real, barriers: seq<Span>, r: real)
    requires floor <= r
    requires forall i :: 0 <= i < |barriers| && InTheWay(barriers[i], start, edge) ==>
               MinReal(barriers[i].hi, start) <= r
    requires r == floor || exists i :: 0 <= i < |barriers| && InTheWay(barriers[i], start, edge)
                                       && r == MinReal(barriers[i].hi, start)
    ensures StartStop(start, edge, floor, barriers) == r
  {
    StartStopIs(start, edge, floor, barriers);
    var q := StartStop(start, edge, floor, barriers);
    if r != floor {
      var i :| 0 <= i < |barriers| && InTheWay(barriers[i], start, edge) && r == MinReal(barriers[i].hi, start);
      assert r <= q;
    }
    if q != floor {
      var i :| 0 <= i < |barriers| && InTheWay(barriers[i], start, edge) && q == MinReal(barriers[i].hi, start);
      assert q <= r;
    }
  }

  /** An untranscribed-gap limit: the edge lands where it triggers. */
  function At(edge: real): Limit { Limit(edge, edge) }

  lemma HoldAtBounds(start: real, edge: real, barriers: seq<Span>)
    ensures var r := HoldStart(start, At(edge), barriers);
      r <= start && (start > edge ==> edge <= r)
  {
    StartStopIs(start, edge, edge, barriers);
  }

  /**
   * A barrier without length stops nothing by itself: where it would stop an edge, another barrier goes on over it, or
   * one that reaches back before it stops the edge there for good.
   */
  ghost predicate Backed(barriers: seq<Span>, i: nat)
    requires i < |barriers|
  {
    || (exists j :: 0 <= j < |barriers| && barriers[j].lo <= barriers[i].lo && barriers[i].hi < barriers[j].hi)
    || (exists c :: 0 <= c < |barriers| && barriers[c].lo < barriers[i].hi <= barriers[c].hi)
  }

  /** Every barrier without length is backed; true of any list of barriers that all have length. */
  ghost predicate AllBacked(barriers: seq<Span>) {
    forall i :: 0 <= i < |barriers| && barriers[i].hi <= barriers[i].lo ==> Backed(barriers, i)
  }

  /** Barrier i stops the edge from start, and no barrier in the way stops it earlier. */
  ghost predicate Stops(start: real, edge: real, barriers: seq<Span>, i: nat)
    requires i < |barriers|
  {
    && InTheWay(barriers[i], start, edge)
    && forall j :: 0 <= j < |barriers| && InTheWay(barriers[j], start, edge) ==>
         MinReal(barriers[j].hi, start) <= MinReal(barriers[i].hi, start)
  }

  /** Where a barrier stops an edge short of start, some barrier that reaches back before the stop covers it. */
  lemma StopIsBacked(start: real, edge: real, barriers: seq<Span>, i: nat)
    requires AllBacked(barriers) && i < |barriers| && Stops(start, edge, barriers, i)
    ensures exists c :: 0 <= c < |barriers| && barriers[c].lo < MinReal(barriers[i].hi, start) <= barriers[c].hi
  {
    if barriers[i].hi <= barriers[i].lo {
      assert Backed(barriers, i);
      if j :| 0 <= j < |barriers| && barriers[j].lo <= barriers[i].lo && barriers[i].hi < barriers[j].hi {
        assert InTheWay(barriers[j], start, edge);
        assert false;
      }
    } else {
      assert barriers[i].lo < MinReal(barriers[i].hi, start) <= barriers[i].hi;
    }
  }

  /** A hold stopped at a barrier stays there for every limit behind it. */
  lemma StopIsFixed(start: real, edge: real, second: real, barriers: seq<Span>, i: nat)
    requires AllBacked(barriers) && i < |barriers| && Stops(start, edge, barriers, i)
    requires second < MinReal(barriers[i].hi, start)
    ensures var r := MinReal(barriers[i].hi, start); HoldStart(r, At(second), barriers) == r
  {
    var r := MinReal(barriers[i].hi, start);
    StopIsBacked(start, edge, barriers, i);
    var c :| 0 <= c < |barriers| && barriers[c].lo < r <= barriers[c].hi;
    assert InTheWay(barriers[c], r, second) && r == MinReal(barriers[c].hi, r);
    StopUnique(r, second, second, barriers, r);
  }

  /** A hold from beyond the limit lands on the limit, or on the barrier that stops it. */
  lemma HoldLands(start: real, edge: real, barriers: seq<Span>)
    requires edge < start
    ensures var r := HoldStart(start, At(edge), barriers);
      || (r == edge && forall j :: 0 <= j < |barriers| ==> !InTheWay(barriers[j], start, edge))
      || exists i :: 0 <= i < |barriers| && Stops(start, edge, barriers, i) && r == MinReal(barriers[i].hi, start)
  {
    StartStopIs(start, edge, edge, barriers);
    var r := HoldStart(start, At(edge), barriers);
    if j :| 0 <= j < |barriers| && InTheWay(barriers[j], start, edge) {
      assert MinReal(barriers[j].hi, start) <= r;
      var i :| 0 <= i < |barriers| && InTheWay(barriers[i], start, edge) && r == MinReal(barriers[i].hi, start);
      assert Stops(start, edge, barriers, i);
    }
  }

  /** A barrier that stops the edge before the nearer limit stops it at the same place on the way to a further one. */
  lemma StopsOnTheWay(start: real, first: real, second: real, barriers: seq<Span>, i: nat)
    requires second < first < start && i < |barriers| && Stops(start, first, barriers, i)
    ensures HoldStart(start, At(second), barriers) == MinReal(barriers[i].hi, start)
  {
    var r := MinReal(barriers[i].hi, start);
    forall j | 0 <= j < |barriers| && InTheWay(barriers[j], start, second) ensures MinReal(barriers[j].hi, start) <= r {
      if barriers[j].hi > first {
        assert InTheWay(barriers[j], start, first);
      }
    }
    assert InTheWay(barriers[i], start, second);
    StopUnique(start, second, second, barriers, r);
  }

  /** Two holds in a row are one hold at the lesser limit, in either order. */
  lemma TwoHoldsAreOne(start: real, first: real, second: real, barriers: seq<Span>)
    requires AllBacked(barriers)
    ensures HoldStart(HoldStart(start, At(first), barriers), At(second), barriers)
         == HoldStart(start, At(MinReal(first, second)), barriers)
  {
    hide Backed, HoldStart, Stops;
    if start > first {
      var r := HoldStart(start, At(first), barriers);
      HoldLands(start, first, barriers);
      if i :| 0 <= i < |barriers| && Stops(start, first, barriers, i) && r == MinReal(barriers[i].hi, start) {
        StopsPast(start, first, barriers, i);
        if second < r {
          StopIsFixed(start, first, second, barriers, i);
        } else {
          HoldBehind(r, second, barriers);
        }
        if second < first {
          StopsOnTheWay(start, first, second, barriers, i);
        }
      } else if second < first {
        NothingBeyond(start, first, second, barriers);
      } else {
        HoldBehind(r, second, barriers);
      }
    } else {
      HoldBehind(start, first, barriers);
      if second > first {
        HoldBehind(start, second, barriers);
      }
    }
  }

  lemma HoldBehind(start: real, edge: real, barriers: seq<Span>)
    requires start <= edge
    ensures HoldStart(start, At(edge), barriers) == start
  {
  }

  lemma StopsPast(start: real, edge: real, barriers: seq<Span>, i: nat)
    requires i < |barriers| && edge < start && Stops(start, edge, barriers, i)
    ensures edge < MinReal(barriers[i].hi, start)
  {
  }

  /** When nothing stops the edge before the first limit, going on to a further one is the same from either place. */
  lemma NothingBeyond(start: real, first: real, second: real, barriers: seq<Span>)
    requires AllBacked(barriers) && second < first < start
    requires forall i :: 0 <= i < |barriers| ==> !InTheWay(barriers[i], start, first)
    ensures HoldStart(first, At(second), barriers) == HoldStart(start, At(second), barriers)
  {
    hide Backed;
    HoldLands(start, second, barriers);
    var r := HoldStart(start, At(second), barriers);
    forall j | 0 <= j < |barriers| && InTheWay(barriers[j], first, second)
      ensures InTheWay(barriers[j], start, second) && MinReal(barriers[j].hi, first) == MinReal(barriers[j].hi, start)
    {
      assert !InTheWay(barriers[j], start, first);
    }
    if i :| 0 <= i < |barriers| && Stops(start, second, barriers, i) && r == MinReal(barriers[i].hi, start) {
      assert !InTheWay(barriers[i], start, first);
      StopIsBacked(start, second, barriers, i);
      var c :| 0 <= c < |barriers| && barriers[c].lo < r <= barriers[c].hi;
      assert InTheWay(barriers[c], start, second);
      assert InTheWay(barriers[c], first, second) && r == MinReal(barriers[c].hi, first);
    }
    StopUnique(first, second, second, barriers, r);
  }

  // ----- All holds of an untranscribed transcript -----

  function AtAll(edges: seq<real>): (r: seq<Limit>)
    ensures |r| == |edges|
    ensures forall i :: 0 <= i < |r| ==> r[i] == At(edges[i])
  {
    seq(|edges|, i requires 0 <= i < |edges| => At(edges[i]))
  }

  function Least(xs: seq<real>): (r: real)
    requires xs != []
    ensures r in xs
    ensures forall x :: x in xs ==> r <= x
  {
    if |xs| == 1 then xs[0]
    else
      var m := Least(xs[..|xs| - 1]);
      assert xs == xs[..|xs| - 1] + [xs[|xs| - 1]];
      if m <= xs[|xs| - 1] then m else xs[|xs| - 1]
  }

  /** Any list of untranscribed limits acts as the least of them alone. */
  lemma {:induction false} HoldsAreLeastHold(start: real, edges: seq<real>, barriers: seq<Span>)
    requires AllBacked(barriers) && edges != []
    ensures HoldStarts(start, AtAll(edges), barriers) == HoldStart(start, At(Least(edges)), barriers)
  {
    var n := |edges| - 1;
    var init, last := edges[..n], edges[n];
    assert AtAll(edges)[..n] == AtAll(init);
    if n == 0 {
      assert HoldStarts(start, AtAll(edges)[..0], barriers) == start;
    } else {
      HoldsAreLeastHold(start, init, barriers);
      TwoHoldsAreOne(start, Least(init), last, barriers);
    }
  }

  /** The order and repetition of limits do not matter. */
  lemma HoldsIgnoreOrder(start: real, edges: seq<real>, other: seq<real>, barriers: seq<Span>)
    requires AllBacked(barriers) && forall e :: e in edges <==> e in other
    ensures HoldStarts(start, AtAll(edges), barriers) == HoldStarts(start, AtAll(other), barriers)
  {
    assert other != [] ==> Least(other) in edges;
    if edges != [] {
      assert Least(edges) in other;
      HoldsAreLeastHold(start, edges, barriers);
      HoldsAreLeastHold(start, other, barriers);
    }
  }

  /** Holding twice is holding once. */
  lemma HoldsAreIdempotent(start: real, edges: seq<real>, barriers: seq<Span>)
    requires AllBacked(barriers)
    ensures var r := HoldStarts(start, AtAll(edges), barriers);
      HoldStarts(r, AtAll(edges), barriers) == r
  {
    if edges != [] {
      var r := HoldStarts(start, AtAll(edges), barriers);
      HoldsAreLeastHold(start, edges, barriers);
      HoldsAreLeastHold(r, edges, barriers);
      TwoHoldsAreOne(start, Least(edges), Least(edges), barriers);
    }
  }

  // ----- When the order of the limits matters -----

  ghost predicate SameEdges(edges: seq<real>, other: seq<real>) { forall e :: e in edges <==> e in other }

  /** Lists of limits with the same members hold every start alike. */
  ghost predicate StartOrderNeverMatters(barriers: seq<Span>) {
    forall start, edges, other :: SameEdges(edges, other) ==>
      HoldStarts(start, AtAll(edges), barriers) == HoldStarts(start, AtAll(other), barriers)
  }

  ghost predicate StartHoldsSettle(barriers: seq<Span>) {
    forall start, edges :: HoldsOnce(start, edges, barriers)
  }

  ghost predicate HoldsOnce(start: real, edges: seq<real>, barriers: seq<Span>) {
    var r := HoldStarts(start, AtAll(edges), barriers);
    HoldStarts(r, AtAll(edges), barriers) == r
  }

  lemma {:induction false} RoomBelow(barriers: seq<Span>, x: real) returns (m: real)
    ensures m < x && forall j :: 0 <= j < |barriers| && barriers[j].hi < x ==> barriers[j].hi <= m
  {
    if barriers == [] {
      m := x - 1.0;
    } else {
      m := RoomBelow(barriers[..|barriers| - 1], x);
      var hi := barriers[|barriers| - 1].hi;
      m := if m < hi < x then hi else m;
    }
  }

  lemma {:induction false} RoomAbove(barriers: seq<Span>, x: real) returns (s: real)
    ensures x < s && forall j :: 0 <= j < |barriers| && barriers[j].lo < s ==> barriers[j].lo <= x
  {
    if barriers == [] {
      s := x + 1.0;
    } else {
      s := RoomAbove(barriers[..|barriers| - 1], x);
      var lo := barriers[|barriers| - 1].lo;
      s := if x < lo < s then lo else s;
    }
  }

  /** A barrier without length and without backing stops an edge once, and lets it pass when it comes again. */
  lemma UnbackedStopsOnce(barriers: seq<Span>, i: nat) returns (start: real, near: real, far: real)
    requires i < |barriers| && barriers[i].hi <= barriers[i].lo && !Backed(barriers, i)
    ensures far < near < barriers[i].hi < start
    ensures HoldStart(start, At(near), barriers) == HoldStart(start, At(far), barriers) == barriers[i].hi
    ensures HoldStart(barriers[i].hi, At(near), barriers) == near && HoldStart(barriers[i].hi, At(far), barriers) == far
  {
    var hi := barriers[i].hi;
    far := RoomBelow(barriers, hi);
    near := (far + hi) / 2.0;
    start := RoomAbove(barriers, barriers[i].lo);
    assert InTheWay(barriers[i], start, near) && InTheWay(barriers[i], start, far);
    StopUnique(start, near, near, barriers, hi);
    StopUnique(start, far, far, barriers, hi);
    assert forall j :: 0 <= j < |barriers| ==> !InTheWay(barriers[j], hi, far) && !InTheWay(barriers[j], hi, near);
    StopUnique(hi, near, near, barriers, near);
    StopUnique(hi, far, far, barriers, far);
  }

  lemma OneHold(start: real, edge: real, barriers: seq<Span>)
    ensures HoldStarts(start, AtAll([edge]), barriers) == HoldStart(start, At(edge), barriers)
  {
    assert AtAll([edge])[..0] == [];
  }

  lemma TwoHolds(start: real, first: real, second: real, barriers: seq<Span>)
    ensures HoldStarts(start, AtAll([first, second]), barriers)
         == HoldStart(HoldStart(start, At(first), barriers), At(second), barriers)
  {
    assert AtAll([first, second])[..1] == AtAll([first]);
    OneHold(start, first, barriers);
  }

  /** The order of the limits never matters, and holding twice is holding once, exactly when every barrier is backed. */
  lemma OrderMattersExactly(barriers: seq<Span>)
    ensures StartOrderNeverMatters(barriers) <==> AllBacked(barriers)
    ensures StartHoldsSettle(barriers) <==> AllBacked(barriers)
  {
    hide HoldStarts, HoldStart, AtAll, Backed;
    if AllBacked(barriers) {
      forall start, edges, other | SameEdges(edges, other)
        ensures HoldStarts(start, AtAll(edges), barriers) == HoldStarts(start, AtAll(other), barriers)
      {
        HoldsIgnoreOrder(start, edges, other, barriers);
      }
      forall start, edges ensures HoldsOnce(start, edges, barriers) {
        HoldsAreIdempotent(start, edges, barriers);
      }
    } else {
      var i :| 0 <= i < |barriers| && barriers[i].hi <= barriers[i].lo && !Backed(barriers, i);
      var start, near, far := UnbackedStopsOnce(barriers, i);
      TwoHolds(start, near, far, barriers);
      TwoHolds(start, far, near, barriers);
      assert SameEdges([near, far], [far, near]);
      OneHold(start, near, barriers);
      OneHold(barriers[i].hi, near, barriers);
      assert !HoldsOnce(start, [near], barriers);
    }
  }

  /** Barriers that all have length, as the pipeline builds them, are backed. */
  lemma PositiveIsBacked(barriers: seq<Span>)
    requires Positive(barriers)
    ensures AllBacked(barriers) && AllBacked(Negated(barriers))
  {
  }

  /** Among barriers that are not inverted: each one without length lies in, or on the edge of, one with length. */
  ghost predicate EmptiesTouchReal(barriers: seq<Span>) {
    forall i :: 0 <= i < |barriers| && barriers[i].lo == barriers[i].hi ==> TouchesReal(barriers, barriers[i].lo)
  }

  ghost predicate TouchesReal(barriers: seq<Span>, t: real) {
    exists c :: 0 <= c < |barriers| && barriers[c].lo < barriers[c].hi && barriers[c].lo <= t <= barriers[c].hi
  }

  lemma BackedMeansTouching(barriers: seq<Span>)
    requires forall i :: 0 <= i < |barriers| ==> barriers[i].lo <= barriers[i].hi
    ensures AllBacked(barriers) <==> EmptiesTouchReal(barriers)
    ensures AllBacked(Negated(barriers)) <==> EmptiesTouchReal(barriers)
  {
    forall i | 0 <= i < |barriers| && barriers[i].lo == barriers[i].hi
      ensures Backed(barriers, i) <==> TouchesReal(barriers, barriers[i].lo)
      ensures Backed(Negated(barriers), i) <==> TouchesReal(barriers, barriers[i].lo)
    {
      BackedTouches(barriers, i);
    }
  }

  lemma BackedTouches(barriers: seq<Span>, i: nat)
    requires forall k :: 0 <= k < |barriers| ==> barriers[k].lo <= barriers[k].hi
    requires i < |barriers| && barriers[i].lo == barriers[i].hi
    ensures Backed(barriers, i) <==> TouchesReal(barriers, barriers[i].lo)
    ensures Backed(Negated(barriers), i) <==> TouchesReal(barriers, barriers[i].lo)
  {
    var neg := Negated(barriers);
    assert forall k :: 0 <= k < |barriers| ==> neg[k].lo == -barriers[k].hi && neg[k].hi == -barriers[k].lo;
    if TouchesReal(barriers, barriers[i].lo) {
      var c :| 0 <= c < |barriers| && barriers[c].lo < barriers[c].hi
               && barriers[c].lo <= barriers[i].lo <= barriers[c].hi;
      assert neg[c].lo == -barriers[c].hi;
    }
  }

  /** One barrier of no length is enough for two orders to disagree. */
  lemma EmptyBarrierBreaksOrder(at: real)
    ensures !StartOrderNeverMatters([Span(at, at)])
  {
    assert !Backed([Span(at, at)], 0);
    OrderMattersExactly([Span(at, at)]);
  }

  // ----- End edges mirror start edges -----

  function NegateLimit(l: Limit): Limit { Limit(-l.edge, -l.floor) }

  function NegateLimits(ls: seq<Limit>): (r: seq<Limit>)
    ensures |r| == |ls|
    ensures forall i :: 0 <= i < |r| ==> r[i] == NegateLimit(ls[i])
  {
    seq(|ls|, i requires 0 <= i < |ls| => NegateLimit(ls[i]))
  }

  lemma {:induction false} EndStopMirrors(end: real, edge: real, floor: real, barriers: seq<Span>)
    ensures EndStop(end, edge, floor, barriers) == -StartStop(-end, -edge, -floor, Negated(barriers))
  {
    if barriers != [] {
      EndStopMirrors(end, edge, floor, barriers[..|barriers| - 1]);
      assert Negated(barriers)[..|barriers| - 1] == Negated(barriers[..|barriers| - 1]);
    }
  }

  /** Holding an end edge is holding a start edge on the negated timeline. */
  lemma {:induction false} HoldEndsMirror(end: real, limits: seq<Limit>, barriers: seq<Span>)
    ensures HoldEnds(end, limits, barriers) == -HoldStarts(-end, NegateLimits(limits), Negated(barriers))
  {
    if limits != [] {
      var n := |limits| - 1;
      HoldEndsMirror(end, limits[..n], barriers);
      assert NegateLimits(limits)[..n] == NegateLimits(limits[..n]);
      EndStopMirrors(HoldEnds(end, limits[..n], barriers), limits[n].edge, limits[n].floor, barriers);
    }
  }

  // ----- Holds with any floor no further inward than the limit or the original edge -----

  /** The hold may move the edge outward, or inward no further than the original edge. */
  lemma {:induction false} HoldsKeepInside(start: real, limits: seq<Limit>, barriers: seq<Span>, original: real)
    requires forall i :: 0 <= i < |limits| ==> limits[i].floor <= MaxReal(limits[i].edge, original)
    ensures MaxReal(HoldStarts(start, limits, barriers), original) <= MaxReal(start, original)
  {
    if limits != [] {
      var n := |limits| - 1;
      HoldsKeepInside(start, limits[..n], barriers, original);
      var s := HoldStarts(start, limits[..n], barriers);
      StartStopIs(s, limits[n].edge, limits[n].floor, barriers);
    }
  }

  lemma EndHoldsKeepInside(end: real, limits: seq<Limit>, barriers: seq<Span>, original: real)
    requires forall i :: 0 <= i < |limits| ==> limits[i].floor >= MinReal(limits[i].edge, original)
    ensures MinReal(HoldEnds(end, limits, barriers), original) >= MinReal(end, original)
  {
    HoldEndsMirror(end, limits, barriers);
    HoldsKeepInside(-end, NegateLimits(limits), Negated(barriers), -original);
  }

  // ----- Clipping a widened edge at kept audio -----

  function ClipStart(start: real, original: real, barriers: seq<Span>): real {
    if barriers == [] then start
    else
      var b := barriers[|barriers| - 1];
      var s := ClipStart(start, original, barriers[..|barriers| - 1]);
      if b.lo < original && b.hi > s then MaxReal(s, MinReal(b.hi, original)) else s
  }

  function ClipEnd(end: real, original: real, barriers: seq<Span>): real {
    if barriers == [] then end
    else
      var b := barriers[|barriers| - 1];
      var e := ClipEnd(end, original, barriers[..|barriers| - 1]);
      if b.hi > original && b.lo < e then MinReal(e, MaxReal(b.lo, original)) else e
  }

  method ClipAtBarriers(start: real, end: real, originalStart: real, originalEnd: real, barriers: seq<Span>)
    returns (s: real, e: real)
    ensures s == ClipStart(start, originalStart, barriers) && e == ClipEnd(end, originalEnd, barriers)
  {
    s, e := start, end;
    for i := 0 to |barriers|
      invariant s == ClipStart(start, originalStart, barriers[..i])
      invariant e == ClipEnd(end, originalEnd, barriers[..i])
    {
      assert barriers[..i + 1][..i] == barriers[..i];
      var b := barriers[i];
      if b.lo < originalStart && b.hi > s {
        s := MaxReal(s, MinReal(b.hi, originalStart));
      }
      if b.hi > originalEnd && b.lo < e {
        e := MinReal(e, MaxReal(b.lo, originalEnd));
      }
    }
    assert barriers[..|barriers|] == barriers;
  }

  /** No barrier, unless it is empty, reaches the part of the span outside the original edge. */
  ghost predicate FreeBefore(start: real, original: real, barriers: seq<Span>) {
    forall i :: 0 <= i < |barriers| && barriers[i].lo < barriers[i].hi && start < original ==>
      !Overlap(barriers[i], Span(start, original))
  }

  ghost predicate FreeAfter(end: real, original: real, barriers: seq<Span>) {
    forall i :: 0 <= i < |barriers| && barriers[i].lo < barriers[i].hi && original < end ==>
      !Overlap(barriers[i], Span(original, end))
  }

  lemma {:induction false} ClipStartFrees(start: real, original: real, barriers: seq<Span>)
    ensures FreeBefore(ClipStart(start, original, barriers), original, barriers)
    ensures start <= ClipStart(start, original, barriers) <= MaxReal(start, original)
  {
    if barriers != [] {
      ClipStartFrees(start, original, barriers[..|barriers| - 1]);
    }
  }

  lemma {:induction false} ClipEndMirrors(end: real, original: real, barriers: seq<Span>)
    ensures ClipEnd(end, original, barriers) == -ClipStart(-end, -original, Negated(barriers))
  {
    if barriers != [] {
      ClipEndMirrors(end, original, barriers[..|barriers| - 1]);
      assert Negated(barriers)[..|barriers| - 1] == Negated(barriers[..|barriers| - 1]);
    }
  }

  lemma FreeMirrors(end: real, original: real, barriers: seq<Span>)
    ensures FreeAfter(end, original, barriers) <==> FreeBefore(-end, -original, Negated(barriers))
  {
    if FreeBefore(-end, -original, Negated(barriers)) {
      forall i | 0 <= i < |barriers| && barriers[i].lo < barriers[i].hi && original < end
        ensures !Overlap(barriers[i], Span(original, end))
      {
        assert Negated(barriers)[i] == Negate(barriers[i]);
      }
    }
  }

  lemma ClipEndFrees(end: real, original: real, barriers: seq<Span>)
    ensures FreeAfter(ClipEnd(end, original, barriers), original, barriers)
    ensures MinReal(end, original) <= ClipEnd(end, original, barriers) <= end
  {
    ClipEndMirrors(end, original, barriers);
    ClipStartFrees(-end, -original, Negated(barriers));
    FreeMirrors(ClipEnd(end, original, barriers), original, barriers);
  }

  /** Silence limits land where they trigger, but never inside the original edge. */
  ghost predicate SilenceLike(l: Limit, original: real) { l.floor == MinReal(l.edge, original) }

  /** Holding at silence keeps the part outside the original edge free of kept audio. */
  lemma {:induction false} SilenceHoldsStayFree(start: real, limits: seq<Limit>, barriers: seq<Span>, original: real)
    requires FreeBefore(start, original, barriers)
    requires forall i :: 0 <= i < |limits| ==> SilenceLike(limits[i], original)
    ensures FreeBefore(HoldStarts(start, limits, barriers), original, barriers)
  {
    if limits != [] {
      var n := |limits| - 1;
      SilenceHoldsStayFree(start, limits[..n], barriers, original);
      var s, l := HoldStarts(start, limits[..n], barriers), limits[n];
      StartStopIs(s, l.edge, l.floor, barriers);
      var r := HoldStarts(start, limits, barriers);
      forall i | 0 <= i < |barriers| && barriers[i].lo < barriers[i].hi && r < original
        ensures !Overlap(barriers[i], Span(r, original))
      {
        assert s < original ==> !Overlap(barriers[i], Span(s, original));
        assert s > l.edge && !InTheWay(barriers[i], s, l.edge) ==> !Overlap(barriers[i], Span(r, original));
      }
    }
  }

  lemma SilenceEndHoldsStayFree(end: real, limits: seq<Limit>, barriers: seq<Span>, original: real)
    requires FreeAfter(end, original, barriers)
    requires forall i :: 0 <= i < |limits| ==> limits[i].floor == MaxReal(limits[i].edge, original)
    ensures FreeAfter(HoldEnds(end, limits, barriers), original, barriers)
  {
    HoldEndsMirror(end, limits, barriers);
    FreeMirrors(end, original, barriers);
    FreeMirrors(HoldEnds(end, limits, barriers), original, barriers);
    SilenceHoldsStayFree(-end, NegateLimits(limits), Negated(barriers), -original);
  }

  lemma FreeMeansUncovered(start: real, end: real, originalStart: real, originalEnd: real, barriers: seq<Span>, t: real)
    requires FreeBefore(start, originalStart, barriers) && FreeAfter(end, originalEnd, barriers)
    requires start <= t < originalStart || originalEnd <= t < end
    ensures !Covers(barriers, t)
  {
  }

  // ----- Untranscribed holds, on both edges -----

  lemma HoldAtReaddsNoBarrier(start: real, edge: real, barriers: seq<Span>)
    ensures FreeBefore(HoldStart(start, At(edge), barriers), start, barriers)
  {
    StartStopIs(start, edge, edge, barriers);
    var r := HoldStart(start, At(edge), barriers);
    forall i | 0 <= i < |barriers| && barriers[i].lo < barriers[i].hi && r < start
      ensures !Overlap(barriers[i], Span(r, start))
    {
      assert !InTheWay(barriers[i], start, edge) ==> !Overlap(barriers[i], Span(r, start));
    }
  }

  lemma FreeOnward(from: real, mid: real, start: real, barriers: seq<Span>)
    requires from <= mid <= start && FreeBefore(from, mid, barriers) && FreeBefore(mid, start, barriers)
    ensures FreeBefore(from, start, barriers)
  {
    forall i | 0 <= i < |barriers| && barriers[i].lo < barriers[i].hi && from < start
      ensures !Overlap(barriers[i], Span(from, start))
    {
      assert from < mid ==> !Overlap(barriers[i], Span(from, mid));
      assert mid < start ==> !Overlap(barriers[i], Span(mid, start));
    }
  }

  /** Untranscribed holds only move a start outward, over audio no barrier touches, whatever the barriers. */
  lemma {:induction false} HoldsWidenOverFreeAudio(start: real, edges: seq<real>, barriers: seq<Span>)
    ensures HoldStarts(start, AtAll(edges), barriers) <= start
    ensures FreeBefore(HoldStarts(start, AtAll(edges), barriers), start, barriers)
  {
    if edges != [] {
      var n := |edges| - 1;
      assert AtAll(edges)[..n] == AtAll(edges[..n]);
      HoldsWidenOverFreeAudio(start, edges[..n], barriers);
      var mid := HoldStarts(start, AtAll(edges[..n]), barriers);
      HoldAtBounds(mid, edges[n], barriers);
      HoldAtReaddsNoBarrier(mid, edges[n], barriers);
      FreeOnward(HoldStart(mid, At(edges[n]), barriers), mid, start, barriers);
    }
  }

  function Negatives(xs: seq<real>): (r: seq<real>)
    ensures |r| == |xs| && forall i :: 0 <= i < |r| ==> r[i] == -xs[i]
  {
    seq(|xs|, i requires 0 <= i < |xs| => -xs[i])
  }

  lemma EndHoldsAsStartHolds(end: real, edges: seq<real>, barriers: seq<Span>)
    ensures HoldEnds(end, AtAll(edges), barriers) == -HoldStarts(-end, AtAll(Negatives(edges)), Negated(barriers))
  {
    HoldEndsMirror(end, AtAll(edges), barriers);
    assert NegateLimits(AtAll(edges)) == AtAll(Negatives(edges));
  }

  lemma NegativesMembers(xs: seq<real>, ys: seq<real>)
    requires forall e :: e in xs <==> e in ys
    ensures forall e :: e in Negatives(xs) <==> e in Negatives(ys)
  {
    forall e ensures e in Negatives(xs) <==> e in Negatives(ys) {
      InNegatives(xs, e);
      InNegatives(ys, e);
    }
  }

  lemma InNegatives(xs: seq<real>, e: real)
    ensures e in Negatives(xs) <==> -e in xs
  {
    if -e in xs {
      var i :| 0 <= i < |xs| && xs[i] == -e;
      assert Negatives(xs)[i] == e;
    }
  }

  /** The end edge: same result for every order of the limits, idempotent, and only outward over free audio. */
  lemma EndHoldsBehave(end: real, edges: seq<real>, other: seq<real>, barriers: seq<Span>)
    requires AllBacked(Negated(barriers)) && SameEdges(edges, other)
    ensures var r := HoldEnds(end, AtAll(edges), barriers);
      && HoldEnds(end, AtAll(other), barriers) == r
      && HoldEnds(r, AtAll(edges), barriers) == r
      && end <= r && FreeAfter(r, end, barriers)
  {
    hide HoldEnds, HoldStarts, AtAll, Negatives, Negated, FreeAfter, FreeBefore;
    var r := HoldEnds(end, AtAll(edges), barriers);
    var neg := Negatives(edges);
    EndHoldsAsStartHolds(end, edges, barriers);
    EndHoldsAsStartHolds(end, other, barriers);
    EndHoldsAsStartHolds(r, edges, barriers);
    NegativesMembers(edges, other);
    HoldsIgnoreOrder(-end, neg, Negatives(other), Negated(barriers));
    HoldsAreIdempotent(-end, neg, Negated(barriers));
    HoldsWidenOverFreeAudio(-end, neg, Negated(barriers));
    FreeMirrors(r, end, barriers);
  }

  ghost predicate EndOrderNeverMatters(barriers: seq<Span>) {
    forall end, edges, other :: SameEdges(edges, other) ==>
      HoldEnds(end, AtAll(edges), barriers) == HoldEnds(end, AtAll(other), barriers)
  }

  /** For end edges the same condition, on the negated timeline. */
  lemma EndOrderMattersExactly(barriers: seq<Span>)
    ensures EndOrderNeverMatters(barriers) <==> AllBacked(Negated(barriers))
  {
    hide HoldStarts, HoldEnds, AtAll, Negatives, Negated, Backed;
    if AllBacked(Negated(barriers)) {
      forall end, edges, other | SameEdges(edges, other)
        ensures HoldEnds(end, AtAll(edges), barriers) == HoldEnds(end, AtAll(other), barriers)
      {
        EndHoldsBehave(end, edges, other, barriers);
      }
    }
    if EndOrderNeverMatters(barriers) {
      forall start, edges, other | SameEdges(edges, other)
        ensures HoldStarts(start, AtAll(edges), Negated(barriers)) == HoldStarts(start, AtAll(other), Negated(barriers))
      {
        NegativesMembers(edges, other);
        NegativesTwice(edges);
        NegativesTwice(other);
        EndHoldsAsStartHolds(-start, Negatives(edges), barriers);
        EndHoldsAsStartHolds(-start, Negatives(other), barriers);
        assert SameEdges(Negatives(edges), Negatives(other));
      }
      OrderMattersExactly(Negated(barriers));
    }
  }

  lemma NegativesTwice(xs: seq<real>)
    ensures Negatives(Negatives(xs)) == xs
  {
  }
}
