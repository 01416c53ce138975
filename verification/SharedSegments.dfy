/** The scan for shared runs, loop by loop. */
module SharedSegments {
  import opened Basics
  import opened WindowHits
  import opened SharedRuns

  function LongEnough(siblings: seq<seq<bv32>>, win: nat): (r: seq<seq<bv32>>)
    ensures forall k :: 0 <= k < |r| ==> win <= |r[k]|
  {
    if siblings == [] then []
    else (if |siblings[0]| >= win then [siblings[0]] else []) + LongEnough(siblings[1..], win)
  }

  lemma RegionFromConcat(c: ShareScan, k: nat, a: nat, sim: seq<real>)
    requires ValidShare(c) && k < |c.sibs| && a + c.win <= |c.target|
    requires var arr := c.target[a..a + c.win] + c.sibs[k];
      |sim| == |arr| - c.win + 1 && forall p :: 0 <= p < |sim| ==> sim[p] == CrossPairSimilarity(arr, p, arr, 0, c.win)
    ensures sim[c.win..] == Region(c, k, a)
  {
    hide WordErrors, PairErrors;
    var s := c.sibs[k];
    var arr := c.target[a..a + c.win] + s;
    forall o | 0 <= o < |s| - c.win + 1 ensures sim[c.win..][o] == Region(c, k, a)[o] {
      assert arr[0..0 + c.win] == c.target[a..a + c.win];
      assert arr[c.win + o..c.win + o + c.win] == s[o..o + c.win];
      PairErrorsOfSlices(arr, c.win + o, arr, 0, c.target, a, s, o, c.win);
      assert sim[c.win..][o] == sim[c.win + o];
    }
  }

  /** Each sibling's best offset for the probe window, kept when it clears the threshold. */
  method ProbeSiblings(c: ShareScan, a: nat) returns (alive: seq<Alignment>)
    requires ValidShare(c) && a + c.win <= |c.target|
    ensures alive == Probe(c, a, |c.sibs|)
  {
    hide Agrees, CrossPairSimilarity, Region;
    alive := [];
    for k := 0 to |c.sibs|
      invariant alive == Probe(c, a, k)
    {
      var sim := WindowSimilarity(c.target[a..a + c.win] + c.sibs[k], 0, c.win);
      var region := sim[c.win..];
      RegionFromConcat(c, k, a, sim);
      var o := ArgMax(region);
      if region[o] >= c.similarity {
        alive := alive + [Alignment(k, o)];
      }
    }
  }

  /** The loop behind _slice_ok: which members still agree on a slice. */
  method SliceOk(c: ShareScan, alive: seq<Alignment>, a: nat, p: int, length: int) returns (out: seq<Alignment>)
    requires forall k :: 0 <= k < |alive| ==> alive[k].sib < |c.sibs|
    requires 0 <= p && 0 < length && p + length <= |c.target|
    ensures out == Survivors(c, alive, a, p, length)
  {
    hide Agrees;
    out := [];
    for k := 0 to |alive|
      invariant out == Survivors(c, alive[..k], a, p, length)
    {
      assert alive[..k + 1][..k] == alive[..k];
      if Agrees(c, alive[k].sib, alive[k].offset - a, p, length) {
        out := out + [alive[k]];
      }
    }
    assert alive[..|alive|] == alive;
  }

  method GrowCoarse(c: ShareScan, a: nat, floor: nat, start: seq<Alignment>)
    returns (alive: seq<Alignment>, lo: nat, hi: nat)
    requires ValidShare(c) && RunOk(c, a, floor, Run(start, a, a + c.win))
    ensures Run(alive, lo, hi) == Coarse(c, a, floor, Run(start, a, a + c.win))
  {
    hide RunOk, Survivors;
    ghost var first := Run(start, a, a + c.win);
    alive, lo, hi := start, a, a + c.win;
    while lo - c.step >= floor && hi - (lo - c.step) <= c.maxLen
      invariant RunOk(c, a, floor, Run(alive, lo, hi))
      invariant GrowBack(c, a, floor, Run(alive, lo, hi)) == GrowBack(c, a, floor, first)
      decreases lo
    {
      RunSibs(c, a, floor, Run(alive, lo, hi));
      RunBounds(c, a, floor, Run(alive, lo, hi));
      var cand := SliceOk(c, alive, a, lo - c.step, c.step);
      if |cand| < c.minMatches {
        break;
      }
      BackTakesSlice(c, a, floor, Run(alive, lo, hi));
      alive, lo := cand, lo - c.step;
    }
    ghost var back := Run(alive, lo, hi);
    while hi + c.step <= |c.target| && hi + c.step - lo <= c.maxLen
      invariant RunOk(c, a, floor, Run(alive, lo, hi))
      invariant GrowForward(c, a, floor, Run(alive, lo, hi)) == GrowForward(c, a, floor, back)
      decreases |c.target| - hi
    {
      RunSibs(c, a, floor, Run(alive, lo, hi));
      var cand := SliceOk(c, alive, a, hi, c.step);
      if |cand| < c.minMatches {
        break;
      }
      ForwardTakesSlice(c, a, floor, Run(alive, lo, hi));
      alive, hi := cand, hi + c.step;
    }
  }

  lemma RunSibs(c: ShareScan, a: nat, floor: nat, r: Run)
    requires RunOk(c, a, floor, r)
    ensures forall k :: 0 <= k < |r.alive| ==> r.alive[k].sib < |c.sibs|
  {
  }

  lemma ForwardTakesSlice(c: ShareScan, a: nat, floor: nat, r: Run)
    requires ValidShare(c) && RunOk(c, a, floor, r)
    requires r.hi + c.step <= |c.target| && r.hi + c.step - r.lo <= c.maxLen
    requires |Survivors(c, r.alive, a, r.hi, c.step)| >= c.minMatches
    ensures RunOk(c, a, floor, Run(Survivors(c, r.alive, a, r.hi, c.step), r.lo, r.hi + c.step))
  {
    hide AllShare, Survivors;
    RunTakesWindow(c, a, floor, r, r.hi, c.step, r.lo, r.hi + c.step);
  }

  method RefineEnd(c: ShareScan, a: nat, floor: nat, r: Run) returns (hi: nat)
    requires ValidShare(c) && RunOk(c, a, floor, r)
    ensures var n := FineLimit(c);
      Run(r.alive, r.lo, hi) == ExtendHi(c, a, floor, RetractHi(c, a, floor, r, n), n)
  {
    hide RunOk, Survivors, BySibling, AllShare;
    RunSibs(c, a, floor, r);
    RunBounds(c, a, floor, r);
    var alive, lo, n, width := r.alive, r.lo, FineLimit(c), FineWindow(c);
    hi := r.hi;
    var i := 0;
    while i < n
      invariant 0 <= i <= n && RunOk(c, a, floor, Run(alive, lo, hi))
      invariant RetractHi(c, a, floor, Run(alive, lo, hi), n - i) == RetractHi(c, a, floor, r, n)
    {
      RunBounds(c, a, floor, Run(alive, lo, hi));
      if hi - lo <= RetractFloor(c) || hi - width < lo {
        break;
      }
      var agreed := SliceOk(c, alive, a, hi - width, width);
      if |agreed| == |alive| {
        break;
      }
      RunShrinks(c, a, floor, Run(alive, lo, hi), lo, hi - 1);
      hi := hi - 1;
      i := i + 1;
    }
    ghost var retracted := Run(alive, lo, hi);
    assert retracted == RetractHi(c, a, floor, r, n);
    i := 0;
    while i < n
      invariant 0 <= i <= n && RunOk(c, a, floor, Run(alive, lo, hi))
      invariant ExtendHi(c, a, floor, Run(alive, lo, hi), n - i) == ExtendHi(c, a, floor, retracted, n)
    {
      RunBounds(c, a, floor, Run(alive, lo, hi));
      if hi + 1 - lo > c.maxLen || hi + 1 > |c.target| {
        break;
      }
      var agreed := SliceOk(c, alive, a, hi + 1 - width, width);
      if |agreed| < |alive| {
        break;
      }
      HiExtends(c, a, floor, Run(alive, lo, hi));
      hi := hi + 1;
      i := i + 1;
    }
  }

  lemma RunBounds(c: ShareScan, a: nat, floor: nat, r: Run)
    requires RunOk(c, a, floor, r)
    ensures floor <= r.lo && r.lo + c.win <= r.hi <= |c.target|
  {
  }

  method RefineStart(c: ShareScan, a: nat, floor: nat, r: Run) returns (lo: nat)
    requires ValidShare(c) && RunOk(c, a, floor, r)
    ensures var n := FineLimit(c);
      Run(r.alive, lo, r.hi) == ExtendLo(c, a, floor, RetractLo(c, a, floor, r, n), n)
  {
    hide RunOk, Survivors, BySibling, AllShare;
    RunSibs(c, a, floor, r);
    var alive, hi, n, width := r.alive, r.hi, FineLimit(c), FineWindow(c);
    lo := r.lo;
    var i := 0;
    while i < n
      invariant 0 <= i <= n && RunOk(c, a, floor, Run(alive, lo, hi))
      invariant RetractLo(c, a, floor, Run(alive, lo, hi), n - i) == RetractLo(c, a, floor, r, n)
    {
      RunBounds(c, a, floor, Run(alive, lo, hi));
      if hi - lo <= RetractFloor(c) {
        break;
      }
      var agreed := SliceOk(c, alive, a, lo, width);
      if |agreed| == |alive| {
        break;
      }
      RunShrinks(c, a, floor, Run(alive, lo, hi), lo + 1, hi);
      lo := lo + 1;
      i := i + 1;
    }
    ghost var retracted := Run(alive, lo, hi);
    assert retracted == RetractLo(c, a, floor, r, n);
    i := 0;
    while i < n
      invariant 0 <= i <= n && RunOk(c, a, floor, Run(alive, lo, hi))
      invariant ExtendLo(c, a, floor, Run(alive, lo, hi), n - i) == ExtendLo(c, a, floor, retracted, n)
    {
      RunBounds(c, a, floor, Run(alive, lo, hi));
      if hi - (lo - 1) > c.maxLen || lo - 1 < floor {
        break;
      }
      var agreed := SliceOk(c, alive, a, lo - 1, width);
      if |agreed| < |alive| {
        break;
      }
      LoExtends(c, a, floor, Run(alive, lo, hi));
      lo := lo - 1;
      i := i + 1;
    }
  }

  /** Follows a capped run's sound to its true end. */
  method SkipTail(c: ShareScan, a: nat, alive: seq<Alignment>, hi: nat) returns (end: nat)
    requires ValidShare(c) && BySibling(c, alive) && hi <= |c.target|
    ensures end == SkipPast(c, a, alive, hi)
  {
    hide Agrees;
    end := hi;
    var tail := alive;
    while end + c.step <= |c.target|
      invariant end <= |c.target| && BySibling(c, tail)
      invariant SkipPast(c, a, tail, end) == SkipPast(c, a, alive, hi)
      decreases |c.target| - end
    {
      var cand := SliceOk(c, tail, a, end, c.step);
      if |cand| < c.minMatches {
        break;
      }
      SurvivorsAscend(c, tail, a, end, c.step);
      tail, end := cand, end + c.step;
    }
  }

  method ScanRuns(c: ShareScan) returns (found: seq<Found>)
    requires ValidShare(c)
    ensures found == ScanFrom(c, 0, 0)
  {
    hide RunOk, Probe, Coarse, AllShare, BySibling, GrowBack, GrowForward, ExtendHi, ExtendLo, RetractHi, RetractLo,
         SkipPast;
    found := [];
    var a, claimedUntil := 0, 0;
    while a + c.win <= |c.target|
      invariant 0 <= claimedUntil <= a
      invariant found + ScanFrom(c, a, claimedUntil) == ScanFrom(c, 0, 0)
      decreases |c.target| + c.win - a
    {
      var alive := ProbeSiblings(c, a);
      if |alive| < c.minMatches {
        a := a + c.step;
        continue;
      }
      ProbeRunOk(c, a, claimedUntil);
      var lo, hi;
      alive, lo, hi := GrowCoarse(c, a, claimedUntil, alive);
      var coarseCapped := hi + c.step - lo > c.maxLen;
      hi := RefineEnd(c, a, claimedUntil, Run(alive, lo, hi));
      lo := RefineStart(c, a, claimedUntil, Run(alive, lo, hi));
      ghost var run := GrownRun(c, a, claimedUntil);
      assert Run(alive, lo, hi) == run;
      if |alive| >= c.minMatches && hi - lo >= c.minLen {
        var hit := Found(lo, hi, |alive|);
        var segEnd := hi;
        RunAscends(c, a, claimedUntil, run);
        if coarseCapped {
          segEnd := SkipTail(c, a, alive, hi);
        }
        assert segEnd == SegmentEnd(c, a, claimedUntil);
        assert found + ([hit] + ScanFrom(c, MaxInt(segEnd, a + c.step), segEnd))
            == (found + [hit]) + ScanFrom(c, MaxInt(segEnd, a + c.step), segEnd);
        found := found + [hit];
        claimedUntil := segEnd;
        a := MaxInt(segEnd, a + c.step);
      } else {
        RunAscends(c, a, claimedUntil, run);
        a := a + c.step;
      }
    }
  }

  lemma RunAscends(c: ShareScan, a: nat, floor: nat, r: Run)
    requires RunOk(c, a, floor, r)
    ensures BySibling(c, r.alive) && r.hi <= |c.target| && c.minMatches <= |r.alive|
  {
  }

  method FindSharedSegments(target: seq<bv32>, siblings: seq<seq<bv32>>, win: nat, similarity: real, minMatches: nat,
                            minLen: nat, maxLen: nat, step: Option<nat>) returns (found: seq<Found>)
    requires win > 0 && (step.Some? ==> step.value > 0)
    ensures var sibs := LongEnough(siblings, win);
      var slice := if step.Some? then step.value else MaxInt(1, win / 2);
      found == if |target| < win || |sibs| < minMatches then []
               else ScanFrom(ShareScan(target, sibs, win, similarity, minMatches, minLen, maxLen, slice), 0, 0)
  {
    var sibs := LongEnough(siblings, win);
    if |target| < win || |sibs| < minMatches {
      return [];
    }
    var slice := if step.Some? then step.value else MaxInt(1, win / 2);
    found := ScanRuns(ShareScan(target, sibs, win, similarity, minMatches, minLen, maxLen, slice));
  }
}
