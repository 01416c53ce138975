/**
 * Runs of fingerprint integers an episode shares with its siblings: how one is
 * probed, grown and refined, and what it is.
 */
module SharedRuns {
  import opened Basics
  import opened WindowHits

  datatype ShareScan = ShareScan(target: seq<bv32>, sibs: seq<seq<bv32>>, win: nat, similarity: real,
                                 minMatches: nat, minLen: nat, maxLen: nat, step: nat)

  /** A sibling and the index in it that lines up with the probe's start. */
  datatype Alignment = Alignment(sib: nat, offset: int)

  datatype Run = Run(alive: seq<Alignment>, lo: nat, hi: nat)

  datatype Found = Found(lo: nat, hi: nat, count: nat)

  ghost predicate ValidShare(c: ShareScan) {
    && 0 < c.win <= |c.target| && 0 < c.step
    && forall k :: 0 <= k < |c.sibs| ==> c.win <= |c.sibs[k]|
  }

  /** The window of length at p agrees with the sibling shifted by shift. */
  predicate Agrees(c: ShareScan, sib: nat, shift: int, p: int, length: int)
    requires sib < |c.sibs|
  {
    && 0 <= p && 0 < length && p + length <= |c.target|
    && 0 <= p + shift && p + shift + length <= |c.sibs[sib]|
    && CrossPairSimilarity(c.target, p, c.sibs[sib], p + shift, length) >= c.similarity
  }

  /** Members of alive, probed at a, whose slice for [p, p + length) agrees: the scan's _slice_ok. */
  function Survivors(c: ShareScan, alive: seq<Alignment>, a: nat, p: int, length: int): (r: seq<Alignment>)
    requires forall k :: 0 <= k < |alive| ==> alive[k].sib < |c.sibs|
    ensures |r| <= |alive|
    ensures |r| == |alive| ==> r == alive
  {
    if alive == [] then []
    else
      var x := alive[|alive| - 1];
      var init := Survivors(c, alive[..|alive| - 1], a, p, length);
      if Agrees(c, x.sib, x.offset - a, p, length) then init + [x] else init
  }

  lemma {:induction false} SurvivorsAgree(c: ShareScan, alive: seq<Alignment>, a: nat, p: int, length: int)
    requires forall k :: 0 <= k < |alive| ==> alive[k].sib < |c.sibs|
    ensures forall x :: x in Survivors(c, alive, a, p, length) ==>
      x in alive && Agrees(c, x.sib, x.offset - a, p, length)
  {
    hide Agrees;
    if alive != [] {
      SurvivorsAgree(c, alive[..|alive| - 1], a, p, length);
    }
  }

  ghost predicate BySibling(c: ShareScan, alive: seq<Alignment>) {
    && (forall k :: 0 <= k < |alive| ==> alive[k].sib < |c.sibs|)
    && (forall i, j :: 0 <= i < j < |alive| ==> alive[i].sib < alive[j].sib)
  }

  lemma {:induction false} SurvivorsAscend(c: ShareScan, alive: seq<Alignment>, a: nat, p: int, length: int)
    requires BySibling(c, alive)
    ensures BySibling(c, Survivors(c, alive, a, p, length))
  {
    hide Agrees;
    if alive != [] {
      var init := alive[..|alive| - 1];
      SurvivorsAscend(c, init, a, p, length);
      SurvivorsAgree(c, init, a, p, length);
      forall x | x in Survivors(c, init, a, p, length) ensures x.sib < alive[|alive| - 1].sib {
        assert x in init;
      }
    }
  }

  function FineWindow(c: ShareScan): nat { MinInt(4, c.win) }

  /** The lengths the scan compares: the probe window, a step, and the fine refinement's few integers. */
  predicate Compared(c: ShareScan, length: int) { length == c.win || length == c.step || length == FineWindow(c) }

  /** Index i of the target lies in a window of a compared length that the sibling agrees with. */
  ghost predicate SharedAt(c: ShareScan, sib: nat, shift: int, i: int)
    requires sib < |c.sibs|
  {
    exists p, length :: p <= i < p + length && Compared(c, length) && Agrees(c, sib, shift, p, length)
  }

  ghost predicate SharedRun(c: ShareScan, sib: nat, shift: int, lo: int, hi: int)
    requires sib < |c.sibs|
  {
    forall i :: lo <= i < hi ==> SharedAt(c, sib, shift, i)
  }

  ghost predicate AllShare(c: ShareScan, alive: seq<Alignment>, a: nat, lo: int, hi: int)
    requires BySibling(c, alive)
  {
    forall x :: x in alive ==> SharedRun(c, x.sib, x.offset - a, lo, hi)
  }

  /** What every stage of growing a run keeps. */
  ghost predicate RunOk(c: ShareScan, a: nat, floor: nat, r: Run) {
    && floor <= r.lo && r.lo + c.win <= r.hi <= |c.target|
    && r.hi - r.lo <= MaxInt(c.win, c.maxLen)
    && c.minMatches <= |r.alive| && BySibling(c, r.alive)
    && AllShare(c, r.alive, a, r.lo, r.hi)
  }

  /** A run may take survivors of [p, p + length) and any bounds inside its own plus that window. */
  lemma RunTakesWindow(c: ShareScan, a: nat, floor: nat, r: Run, p: int, length: int, lo: nat, hi: nat)
    requires RunOk(c, a, floor, r) && Compared(c, length)
    requires var cand := Survivors(c, r.alive, a, p, length); |cand| >= c.minMatches
    requires floor <= lo && lo + c.win <= hi <= |c.target| && hi - lo <= MaxInt(c.win, c.maxLen)
    requires r.lo <= lo || (p <= lo && r.lo <= p + length)
    requires hi <= r.hi || (p <= r.hi && hi <= p + length)
    ensures RunOk(c, a, floor, Run(Survivors(c, r.alive, a, p, length), lo, hi))
  {
    hide Agrees;
    var cand := Survivors(c, r.alive, a, p, length);
    SurvivorsAscend(c, r.alive, a, p, length);
    SurvivorsAgree(c, r.alive, a, p, length);
    forall x | x in cand ensures SharedRun(c, x.sib, x.offset - a, lo, hi) {
      assert x in r.alive;
      assert SharedRun(c, x.sib, x.offset - a, r.lo, r.hi);
      RunJoinsWindow(c, x.sib, x.offset - a, r.lo, r.hi, p, length, lo, hi);
    }
  }

  lemma RunJoinsWindow(c: ShareScan, sib: nat, shift: int, from: int, to: int, p: int, length: int, lo: int, hi: int)
    requires sib < |c.sibs| && Compared(c, length)
    requires SharedRun(c, sib, shift, from, to) && Agrees(c, sib, shift, p, length)
    requires from <= lo || (p <= lo && from <= p + length)
    requires hi <= to || (p <= to && hi <= p + length)
    ensures SharedRun(c, sib, shift, lo, hi)
  {
    hide Agrees;
    forall i | lo <= i < hi ensures SharedAt(c, sib, shift, i) {
      if from <= i < to {
      } else {
        assert p <= i < p + length;
      }
    }
  }

  predicate AllAgree(c: ShareScan, alive: seq<Alignment>, a: nat, p: int)
    requires forall k :: 0 <= k < |alive| ==> alive[k].sib < |c.sibs|
  {
    |Survivors(c, alive, a, p, FineWindow(c))| == |alive|
  }

  /** When no sibling objects to a fine window, the run may move an edge into it. */
  lemma RunExtends(c: ShareScan, a: nat, floor: nat, r: Run, p: int, lo: nat, hi: nat)
    requires RunOk(c, a, floor, r) && AllAgree(c, r.alive, a, p)
    requires floor <= lo && lo + c.win <= hi <= |c.target| && hi - lo <= MaxInt(c.win, c.maxLen)
    requires r.lo <= lo || (p <= lo && r.lo <= p + FineWindow(c))
    requires hi <= r.hi || (p <= r.hi && hi <= p + FineWindow(c))
    ensures RunOk(c, a, floor, Run(r.alive, lo, hi))
  {
    hide Agrees;
    RunTakesWindow(c, a, floor, r, p, FineWindow(c), lo, hi);
  }

  lemma RunShrinks(c: ShareScan, a: nat, floor: nat, r: Run, lo: nat, hi: nat)
    requires RunOk(c, a, floor, r) && r.lo <= lo && hi <= r.hi && lo + c.win <= hi
    ensures RunOk(c, a, floor, Run(r.alive, lo, hi))
  {
    forall x | x in r.alive ensures SharedRun(c, x.sib, x.offset - a, lo, hi) {
      assert SharedRun(c, x.sib, x.offset - a, r.lo, r.hi);
    }
  }

  lemma BackTakesSlice(c: ShareScan, a: nat, floor: nat, r: Run)
    requires ValidShare(c) && RunOk(c, a, floor, r)
    requires floor <= r.lo - c.step && r.hi - (r.lo - c.step) <= c.maxLen
    requires |Survivors(c, r.alive, a, r.lo - c.step, c.step)| >= c.minMatches
    ensures RunOk(c, a, floor, Run(Survivors(c, r.alive, a, r.lo - c.step, c.step), r.lo - c.step, r.hi))
  {
    hide AllShare, Survivors;
    RunTakesWindow(c, a, floor, r, r.lo - c.step, c.step, r.lo - c.step, r.hi);
  }

  // Coarse growth, one step-sized slice at a time, keeping the siblings that still match.

  function GrowBack(c: ShareScan, a: nat, floor: nat, r: Run): (g: Run)
    requires ValidShare(c) && RunOk(c, a, floor, r)
    ensures RunOk(c, a, floor, g)
    decreases r.lo
  {
    if r.lo - c.step >= floor && r.hi - (r.lo - c.step) <= c.maxLen then
      var cand := Survivors(c, r.alive, a, r.lo - c.step, c.step);
      if |cand| < c.minMatches then r
      else
        BackTakesSlice(c, a, floor, r);
        GrowBack(c, a, floor, Run(cand, r.lo - c.step, r.hi))
    else r
  }

  function GrowForward(c: ShareScan, a: nat, floor: nat, r: Run): (g: Run)
    requires ValidShare(c) && RunOk(c, a, floor, r)
    ensures RunOk(c, a, floor, g)
    decreases |c.target| - r.hi
  {
    if r.hi + c.step <= |c.target| && r.hi + c.step - r.lo <= c.maxLen then
      var cand := Survivors(c, r.alive, a, r.hi, c.step);
      if |cand| < c.minMatches then r
      else
        RunTakesWindow(c, a, floor, r, r.hi, c.step, r.lo, r.hi + c.step);
        GrowForward(c, a, floor, Run(cand, r.lo, r.hi + c.step))
    else r
  }

  // Fine refinement, one index at a time for at most n rounds; no sibling is dropped.

  function FineLimit(c: ShareScan): nat { MaxInt(1, c.step - 1) }

  function RetractFloor(c: ShareScan): nat { MaxInt(c.win, c.minLen) }

  lemma HiExtends(c: ShareScan, a: nat, floor: nat, r: Run)
    requires ValidShare(c) && RunOk(c, a, floor, r) && AllAgree(c, r.alive, a, r.hi + 1 - FineWindow(c))
    requires r.hi + 1 - r.lo <= c.maxLen && r.hi + 1 <= |c.target|
    ensures RunOk(c, a, floor, Run(r.alive, r.lo, r.hi + 1))
  {
    hide AllShare, AllAgree;
    RunExtends(c, a, floor, r, r.hi + 1 - FineWindow(c), r.lo, r.hi + 1);
  }

  lemma LoExtends(c: ShareScan, a: nat, floor: nat, r: Run)
    requires ValidShare(c) && RunOk(c, a, floor, r) && AllAgree(c, r.alive, a, r.lo - 1)
    requires r.hi - (r.lo - 1) <= c.maxLen && floor <= r.lo - 1
    ensures RunOk(c, a, floor, Run(r.alive, r.lo - 1, r.hi))
  {
    hide AllShare, AllAgree;
    RunExtends(c, a, floor, r, r.lo - 1, r.lo - 1, r.hi);
  }

  function RetractHi(c: ShareScan, a: nat, floor: nat, r: Run, n: nat): (g: Run)
    requires ValidShare(c) && RunOk(c, a, floor, r)
    ensures RunOk(c, a, floor, g)
    decreases n
  {
    if n == 0 || r.hi - r.lo <= RetractFloor(c) || r.hi - FineWindow(c) < r.lo
       || AllAgree(c, r.alive, a, r.hi - FineWindow(c)) then r
    else
      RunShrinks(c, a, floor, r, r.lo, r.hi - 1);
      RetractHi(c, a, floor, Run(r.alive, r.lo, r.hi - 1), n - 1)
  }

  function ExtendHi(c: ShareScan, a: nat, floor: nat, r: Run, n: nat): (g: Run)
    requires ValidShare(c) && RunOk(c, a, floor, r)
    ensures RunOk(c, a, floor, g)
    decreases n
  {
    if n == 0 || r.hi + 1 - r.lo > c.maxLen || r.hi + 1 > |c.target|
       || !AllAgree(c, r.alive, a, r.hi + 1 - FineWindow(c)) then r
    else
      HiExtends(c, a, floor, r);
      ExtendHi(c, a, floor, Run(r.alive, r.lo, r.hi + 1), n - 1)
  }

  function RetractLo(c: ShareScan, a: nat, floor: nat, r: Run, n: nat): (g: Run)
    requires ValidShare(c) && RunOk(c, a, floor, r)
    ensures RunOk(c, a, floor, g)
    decreases n
  {
    if n == 0 || r.hi - r.lo <= RetractFloor(c) || AllAgree(c, r.alive, a, r.lo) then r
    else
      RunShrinks(c, a, floor, r, r.lo + 1, r.hi);
      RetractLo(c, a, floor, Run(r.alive, r.lo + 1, r.hi), n - 1)
  }

  function ExtendLo(c: ShareScan, a: nat, floor: nat, r: Run, n: nat): (g: Run)
    requires ValidShare(c) && RunOk(c, a, floor, r)
    ensures RunOk(c, a, floor, g)
    decreases n
  {
    if n == 0 || r.hi - (r.lo - 1) > c.maxLen || r.lo - 1 < floor || !AllAgree(c, r.alive, a, r.lo - 1) then r
    else
      LoExtends(c, a, floor, r);
      ExtendLo(c, a, floor, Run(r.alive, r.lo - 1, r.hi), n - 1)
  }

  function Coarse(c: ShareScan, a: nat, floor: nat, r: Run): (g: Run)
    requires ValidShare(c) && RunOk(c, a, floor, r)
    ensures RunOk(c, a, floor, g)
  {
    GrowForward(c, a, floor, GrowBack(c, a, floor, r))
  }

  function Refine(c: ShareScan, a: nat, floor: nat, r: Run): (g: Run)
    requires ValidShare(c) && RunOk(c, a, floor, r)
    ensures RunOk(c, a, floor, g)
  {
    var n := FineLimit(c);
    ExtendLo(c, a, floor, RetractLo(c, a, floor, ExtendHi(c, a, floor, RetractHi(c, a, floor, r, n), n), n), n)
  }

  /** Where a run capped at maxLen really ends, so its remainder is not reported again. */
  function SkipPast(c: ShareScan, a: nat, tail: seq<Alignment>, end: nat): (r: nat)
    requires ValidShare(c) && BySibling(c, tail) && end <= |c.target|
    ensures end <= r <= |c.target|
    decreases |c.target| - end
  {
    if end + c.step > |c.target| then end
    else
      var cand := Survivors(c, tail, a, end, c.step);
      if |cand| < c.minMatches then end
      else
        SurvivorsAscend(c, tail, a, end, c.step);
        SkipPast(c, a, cand, end + c.step)
  }

  // ----- Probing -----

  /** Similarity of the probe window at a with every offset of sibling k. */
  function Region(c: ShareScan, k: nat, a: nat): (r: seq<real>)
    requires ValidShare(c) && k < |c.sibs| && a + c.win <= |c.target|
    ensures |r| == |c.sibs[k]| - c.win + 1
  {
    seq(|c.sibs[k]| - c.win + 1, o requires 0 <= o < |c.sibs[k]| - c.win + 1 =>
      CrossPairSimilarity(c.target, a, c.sibs[k], o, c.win))
  }

  /** numpy.argmax: the first index of the largest value. */
  function ArgMax(xs: seq<real>): (r: nat)
    requires xs != []
    ensures r < |xs|
    ensures forall i :: 0 <= i < |xs| ==> xs[i] <= xs[r]
    ensures forall i :: 0 <= i < r ==> xs[i] < xs[r]
  {
    if |xs| == 1 then 0
    else
      var m := ArgMax(xs[..|xs| - 1]);
      if xs[|xs| - 1] > xs[m] then |xs| - 1 else m
  }

  /** The first n siblings that match the probe at a, each at its best offset. */
  function Probe(c: ShareScan, a: nat, n: nat): (r: seq<Alignment>)
    requires ValidShare(c) && n <= |c.sibs| && a + c.win <= |c.target|
    ensures BySibling(c, r)
    ensures forall k :: 0 <= k < |r| ==> r[k].sib < n
  {
    if n == 0 then []
    else
      var init := Probe(c, a, n - 1);
      var o := ArgMax(Region(c, n - 1, a));
      if Region(c, n - 1, a)[o] >= c.similarity then init + [Alignment(n - 1, o)] else init
  }

  lemma BestAgrees(c: ShareScan, k: nat, a: nat)
    requires ValidShare(c) && k < |c.sibs| && a + c.win <= |c.target|
    ensures var o := ArgMax(Region(c, k, a)); Region(c, k, a)[o] >= c.similarity ==> Agrees(c, k, o - a, a, c.win)
  {
    hide CrossPairSimilarity, ArgMax;
  }

  lemma {:induction false} ProbeAgrees(c: ShareScan, a: nat, n: nat)
    requires ValidShare(c) && n <= |c.sibs| && a + c.win <= |c.target|
    ensures forall k :: 0 <= k < |Probe(c, a, n)| ==>
      Agrees(c, Probe(c, a, n)[k].sib, Probe(c, a, n)[k].offset - a, a, c.win)
  {
    hide CrossPairSimilarity, Agrees, Region, ArgMax;
    if n > 0 {
      ProbeAgrees(c, a, n - 1);
      BestAgrees(c, n - 1, a);
    }
  }

  lemma ProbeRunOk(c: ShareScan, a: nat, floor: nat)
    requires ValidShare(c) && a + c.win <= |c.target| && floor <= a
    requires |Probe(c, a, |c.sibs|)| >= c.minMatches
    ensures RunOk(c, a, floor, Run(Probe(c, a, |c.sibs|), a, a + c.win))
  {
    hide Agrees;
    ProbeAgrees(c, a, |c.sibs|);
    var alive := Probe(c, a, |c.sibs|);
    forall x | x in alive ensures SharedRun(c, x.sib, x.offset - a, a, a + c.win) {
      assert Agrees(c, x.sib, x.offset - a, a, c.win);
    }
  }

  /** The refined run a probe grows into; its floor is the end of the last emitted run. */
  function GrownRun(c: ShareScan, a: nat, floor: nat): (g: Run)
    requires ValidShare(c) && a + c.win <= |c.target| && floor <= a
    requires |Probe(c, a, |c.sibs|)| >= c.minMatches
    ensures RunOk(c, a, floor, g)
  {
    ProbeRunOk(c, a, floor);
    Refine(c, a, floor, Coarse(c, a, floor, Run(Probe(c, a, |c.sibs|), a, a + c.win)))
  }

  /** End of the emitted run, moved past the continuation when the coarse run hit the length cap. */
  function SegmentEnd(c: ShareScan, a: nat, floor: nat): (r: nat)
    requires ValidShare(c) && a + c.win <= |c.target| && floor <= a
    requires |Probe(c, a, |c.sibs|)| >= c.minMatches
    ensures GrownRun(c, a, floor).hi <= r <= |c.target|
  {
    ProbeRunOk(c, a, floor);
    var coarse := Coarse(c, a, floor, Run(Probe(c, a, |c.sibs|), a, a + c.win));
    var run := GrownRun(c, a, floor);
    if coarse.hi + c.step - coarse.lo > c.maxLen then SkipPast(c, a, run.alive, run.hi) else run.hi
  }

  /** Every run found from probe a on, with floor the end of the last one emitted. */
  function ScanFrom(c: ShareScan, a: nat, floor: nat): seq<Found>
    requires ValidShare(c) && floor <= a
    decreases |c.target| + c.win - a
  {
    if a + c.win > |c.target| then []
    else if |Probe(c, a, |c.sibs|)| < c.minMatches then ScanFrom(c, a + c.step, floor)
    else
      var run := GrownRun(c, a, floor);
      if run.hi - run.lo >= c.minLen then
        var end := SegmentEnd(c, a, floor);
        [Found(run.lo, run.hi, |run.alive|)] + ScanFrom(c, MaxInt(end, a + c.step), end)
      else ScanFrom(c, a + c.step, floor)
  }

  // ----- What every found run is -----

  /** count siblings share the whole run, each at one fixed alignment. */
  ghost predicate SharedBy(c: ShareScan, f: Found, alive: seq<Alignment>, a: nat) {
    && |alive| == f.count && BySibling(c, alive) && AllShare(c, alive, a, f.lo, f.hi)
  }

  ghost predicate FoundOk(c: ShareScan, f: Found) {
    && f.lo + c.win <= f.hi <= |c.target|
    && c.minLen <= f.hi - f.lo <= MaxInt(c.win, c.maxLen)
    && c.minMatches <= f.count
    && exists alive, a :: SharedBy(c, f, alive, a)
  }

  /** Found runs lie past the floor, in order and disjoint, and each is really shared. */
  lemma {:induction false} ScanFindsSharedRuns(c: ShareScan, a: nat, floor: nat)
    requires ValidShare(c) && floor <= a
    ensures forall i :: 0 <= i < |ScanFrom(c, a, floor)| ==>
      FoundOk(c, ScanFrom(c, a, floor)[i]) && floor <= ScanFrom(c, a, floor)[i].lo
    ensures forall i, j :: 0 <= i < j < |ScanFrom(c, a, floor)| ==>
      ScanFrom(c, a, floor)[i].hi <= ScanFrom(c, a, floor)[j].lo
    decreases |c.target| + c.win - a
  {
    hide Agrees, Refine, Coarse, GrownRun, SegmentEnd, Probe;
    if a + c.win <= |c.target| {
      if |Probe(c, a, |c.sibs|)| < c.minMatches {
        ScanFindsSharedRuns(c, a + c.step, floor);
      } else {
        var run := GrownRun(c, a, floor);
        if run.hi - run.lo >= c.minLen {
          var end := SegmentEnd(c, a, floor);
          ScanFindsSharedRuns(c, MaxInt(end, a + c.step), end);
          assert SharedBy(c, Found(run.lo, run.hi, |run.alive|), run.alive, a);
        } else {
          ScanFindsSharedRuns(c, a + c.step, floor);
        }
      }
    }
  }

  /** A found run respects maxLen exactly when the probe window itself fits in it. */
  lemma LengthCapHoldsExactly(c: ShareScan, a: nat, floor: nat)
    requires ValidShare(c) && floor <= a
    ensures forall i :: 0 <= i < |ScanFrom(c, a, floor)| ==>
      (ScanFrom(c, a, floor)[i].hi - ScanFrom(c, a, floor)[i].lo <= c.maxLen <==> c.win <= c.maxLen)
  {
    hide ScanFrom, SharedBy;
    ScanFindsSharedRuns(c, a, floor);
  }

  /**
   * The bounds every caller computes: the shortest run no shorter than the window, the longest no shorter than that.
   */
  predicate CallerBounds(c: ShareScan, shortest: int, longest: int) {
    c.minLen == MaxInt(c.win, shortest) && c.maxLen == MaxInt(c.minLen, longest)
  }

  /** As it is called, the scan keeps every run between its two bounds. */
  lemma CallersKeepTheBounds(c: ShareScan, a: nat, floor: nat, shortest: int, longest: int)
    requires ValidShare(c) && floor <= a && CallerBounds(c, shortest, longest)
    ensures forall i :: 0 <= i < |ScanFrom(c, a, floor)| ==>
      c.minLen <= ScanFrom(c, a, floor)[i].hi - ScanFrom(c, a, floor)[i].lo <= c.maxLen
  {
    hide ScanFrom, SharedBy;
    ScanFindsSharedRuns(c, a, floor);
  }

  /** One shared integer, a cap of 0 and a window of 1. */
  const UNCAPPED := ShareScan([0], [[0]], 1, 0.5, 1, 0, 0, 1)

  /** A run at the cap already, and no longer than retraction leaves it, stays as it is. */
  lemma RunAtTheCapStays(c: ShareScan, a: nat, floor: nat, r: Run)
    requires ValidShare(c) && RunOk(c, a, floor, r) && c.maxLen <= r.hi - r.lo <= RetractFloor(c)
    ensures Refine(c, a, floor, Coarse(c, a, floor, r)) == r
  {
    hide RunOk, AllAgree, Survivors;
    assert GrowBack(c, a, floor, r) == r;
    assert GrowForward(c, a, floor, r) == r;
    var n := FineLimit(c);
    assert RetractHi(c, a, floor, r, n) == r;
    assert ExtendHi(c, a, floor, r, n) == r;
    assert RetractLo(c, a, floor, r, n) == r;
    assert ExtendLo(c, a, floor, r, n) == r;
  }

  lemma OneProbe()
    ensures Probe(UNCAPPED, 0, 1) == [Alignment(0, 0)]
  {
    var c := UNCAPPED;
    assert WordErrors(c.target[0], c.sibs[0][0]) == 0;
    hide WordErrors;
    assert PairErrors(c.target, 0, c.sibs[0], 0, 0) == 0;
    assert PairErrors(c.target, 0, c.sibs[0], 0, 1) == 0;
    assert Region(c, 0, 0)[0] == 1.0;
    assert Probe(c, 0, 0) == [];
  }

  /** A cap below the probe window: the scan emits a run over it. */
  lemma RunOverTheCap()
    ensures ScanFrom(UNCAPPED, 0, 0) == [Found(0, 1, 1)] && UNCAPPED.maxLen == 0
  {
    hide Probe, RunOk, Refine, Coarse, SegmentEnd;
    var c := UNCAPPED;
    OneProbe();
    ProbeRunOk(c, 0, 0);
    RunAtTheCapStays(c, 0, 0, Run([Alignment(0, 0)], 0, 1));
    var end := SegmentEnd(c, 0, 0);
    assert end == 1;
    assert ScanFrom(c, 1, 1) == [];
  }

  /** The probe at p has too few matches, or grows into too short a run. */
  ghost predicate Fruitless(c: ShareScan, p: nat, floor: nat)
    requires ValidShare(c) && floor <= p && p + c.win <= |c.target|
  {
    |Probe(c, p, |c.sibs|)| < c.minMatches || GrownRun(c, p, floor).hi - GrownRun(c, p, floor).lo < c.minLen
  }

  lemma NothingFoundHere(c: ShareScan, a: nat, floor: nat)
    requires ValidShare(c) && floor <= a && a + c.win <= |c.target| && ScanFrom(c, a, floor) == []
    ensures Fruitless(c, a, floor) && ScanFrom(c, a + c.step, floor) == []
  {
    hide GrownRun, SegmentEnd, Probe, RunOk;
  }

  /** Every probe of the grid that starts at a is fruitless. */
  ghost predicate AllFruitless(c: ShareScan, a: nat, floor: nat)
    requires ValidShare(c) && floor <= a
    decreases |c.target| + c.win - a
  {
    a + c.win <= |c.target| ==> Fruitless(c, a, floor) && AllFruitless(c, a + c.step, floor)
  }

  /** Nothing is found exactly when every probe of the grid is fruitless. */
  lemma {:induction false} NothingFoundExactly(c: ShareScan, a: nat, floor: nat)
    requires ValidShare(c) && floor <= a
    ensures ScanFrom(c, a, floor) == [] <==> AllFruitless(c, a, floor)
    decreases |c.target| + c.win - a
  {
    hide GrownRun, SegmentEnd, Probe, RunOk;
    if a + c.win <= |c.target| {
      NothingFoundExactly(c, a + c.step, floor);
    }
  }

  /** The grid, probe by probe: the k-th one is fruitless when nothing is found. */
  lemma {:induction false} NothingFoundMeansNoProbeMatches(c: ShareScan, a: nat, floor: nat, k: nat)
    requires ValidShare(c) && floor <= a && a + k * c.step + c.win <= |c.target|
    ensures ScanFrom(c, a, floor) == [] ==> Fruitless(c, a + k * c.step, floor)
    decreases k
  {
    hide ScanFrom, Fruitless;
    assert k * c.step >= 0;
    if ScanFrom(c, a, floor) == [] {
      NothingFoundHere(c, a, floor);
      if k > 0 {
        assert a + k * c.step == (a + c.step) + (k - 1) * c.step;
        NothingFoundMeansNoProbeMatches(c, a + c.step, floor, k - 1);
      }
    }
  }
}
