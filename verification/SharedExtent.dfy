/**
 * How far a shared run reaches: every run found is grown as far as its siblings go, and no long shared stretch is
 * missed.
 */
module SharedExtent {
  import opened Basics
  import opened WindowHits
  import opened SharedRuns

  // ----- Who is alive -----

  lemma {:induction false} SurvivorsAre(c: ShareScan, alive: seq<Alignment>, a: nat, p: int, length: int, x: Alignment)
    requires forall k :: 0 <= k < |alive| ==> alive[k].sib < |c.sibs|
    ensures x in Survivors(c, alive, a, p, length)
      <==> x in alive && x.sib < |c.sibs| && Agrees(c, x.sib, x.offset - a, p, length)
  {
    hide Agrees;
    if alive != [] {
      SurvivorsAre(c, alive[..|alive| - 1], a, p, length, x);
      assert alive == alive[..|alive| - 1] + [alive[|alive| - 1]];
    }
  }

  /** The sibling matches the probe window at a best at x's offset, the first such offset, and well enough. */
  ghost predicate Probed(c: ShareScan, a: nat, x: Alignment) {
    && x.sib < |c.sibs| && a + c.win <= |c.target| && 0 <= x.offset && x.offset + c.win <= |c.sibs[x.sib]|
    && c.win > 0 && CrossPairSimilarity(c.target, a, c.sibs[x.sib], x.offset, c.win) >= c.similarity
    && forall o: nat :: o + c.win <= |c.sibs[x.sib]| ==> Beats(c, a, x, o)
  }

  ghost predicate Beats(c: ShareScan, a: nat, x: Alignment, o: nat)
    requires x.sib < |c.sibs| && a + c.win <= |c.target| && 0 <= x.offset && x.offset + c.win <= |c.sibs[x.sib]|
    requires c.win > 0 && o + c.win <= |c.sibs[x.sib]|
  {
    var best, other := CrossPairSimilarity(c.target, a, c.sibs[x.sib], x.offset, c.win),
        CrossPairSimilarity(c.target, a, c.sibs[x.sib], o, c.win);
    other <= best && (o < x.offset ==> other < best)
  }

  lemma BestIsProbed(c: ShareScan, k: nat, a: nat, x: Alignment)
    requires ValidShare(c) && k < |c.sibs| && a + c.win <= |c.target| && x.sib == k
    ensures var o := ArgMax(Region(c, k, a));
      Probed(c, a, x) <==> x.offset == o && Region(c, k, a)[o] >= c.similarity
  {
    hide CrossPairSimilarity, ArgMax;
    var region, o := Region(c, k, a), ArgMax(Region(c, k, a));
    forall i: nat | i < |region| ensures region[i] == CrossPairSimilarity(c.target, a, c.sibs[k], i, c.win) {
    }
    if Probed(c, a, x) {
      assert Beats(c, a, x, o);
      assert region[x.offset] <= region[o];
    } else if x.offset == o && region[o] >= c.similarity {
      forall i: nat | i + c.win <= |c.sibs[k]| ensures Beats(c, a, x, i) {
        assert region[i] <= region[o];
      }
    }
  }

  lemma {:induction false} ProbeIs(c: ShareScan, a: nat, n: nat, x: Alignment)
    requires ValidShare(c) && n <= |c.sibs| && a + c.win <= |c.target|
    ensures x in Probe(c, a, n) <==> x.sib < n && Probed(c, a, x)
  {
    hide Region, ArgMax, Probed;
    if n > 0 {
      ProbeIs(c, a, n - 1, x);
      if x.sib == n - 1 {
        BestIsProbed(c, n - 1, a, x);
      }
    }
  }

  // ----- The coarse run -----

  /** Start of the j-th slice before the probe, and of the j-th after its window. */
  function SliceBefore(c: ShareScan, a: nat, j: nat): int { a - (j + 1) * c.step }

  function SliceAfter(c: ShareScan, a: nat, j: nat): int { a + c.win + j * c.step }

  ghost predicate AgreesBefore(c: ShareScan, a: nat, x: Alignment, m: nat) {
    x.sib < |c.sibs| && forall j: nat :: j < m ==> Agrees(c, x.sib, x.offset - a, SliceBefore(c, a, j), c.step)
  }

  ghost predicate AgreesAfter(c: ShareScan, a: nat, x: Alignment, n: nat) {
    x.sib < |c.sibs| && forall j: nat :: j < n ==> Agrees(c, x.sib, x.offset - a, SliceAfter(c, a, j), c.step)
  }

  /** x matches the probe, m slices before it and n slices after its window. */
  ghost predicate Shares(c: ShareScan, a: nat, x: Alignment, m: nat, n: nat) {
    Probed(c, a, x) && AgreesBefore(c, a, x, m) && AgreesAfter(c, a, x, n)
  }

  ghost predicate AliveIs(c: ShareScan, a: nat, alive: seq<Alignment>, m: nat, n: nat) {
    BySibling(c, alive) && forall x :: x in alive <==> Shares(c, a, x, m, n)
  }

  /** Fewer than minMatches siblings match the probe, m slices before it and n after. */
  ghost predicate TooFew(c: ShareScan, a: nat, m: nat, n: nat) {
    forall alive :: AliveIs(c, a, alive, m, n) ==> |alive| < c.minMatches
  }

  /** One more slice before the probe enters the floor, passes the cap, or leaves too few siblings. */
  ghost predicate BackDone(c: ShareScan, a: nat, floor: nat, lo: int, m: nat) {
    lo - c.step < floor || a + c.win - (lo - c.step) > c.maxLen || TooFew(c, a, m + 1, 0)
  }

  /** One more slice after it leaves the target, passes the cap, or leaves too few siblings. */
  ghost predicate ForwardDone(c: ShareScan, a: nat, lo: int, hi: int, m: nat, n: nat) {
    hi + c.step > |c.target| || hi + c.step - lo > c.maxLen || TooFew(c, a, m, n + 1)
  }

  /** The probe's window with m slices before and n after, all that its siblings and the bounds allow. */
  ghost predicate CoarseIs(c: ShareScan, a: nat, floor: nat, r: Run, m: nat, n: nat) {
    && r.lo == a - m * c.step && r.hi == a + c.win + n * c.step
    && AliveIs(c, a, r.alive, m, n) && |r.alive| >= c.minMatches
    && BackDone(c, a, floor, r.lo, m) && ForwardDone(c, a, r.lo, r.hi, m, n)
  }

  lemma SameMembers(c: ShareScan, s: seq<Alignment>, t: seq<Alignment>)
    requires BySibling(c, s) && BySibling(c, t) && forall x :: x in s ==> x in t
    ensures |s| <= |t|
    decreases |t|
  {
    if s != [] {
      var n, k := |t| - 1, |s| - 1;
      assert s[k] in t;
      if s[k].sib < t[n].sib {
        forall x | x in s ensures x in t[..n] {
          var i :| 0 <= i < |s| && s[i] == x;
          assert x in t;
          assert x.sib <= s[k].sib;
          var j :| 0 <= j < |t| && t[j] == x;
        }
        SameMembers(c, s, t[..n]);
      } else {
        var j :| 0 <= j < |t| && t[j] == s[k];
        forall x | x in s[..k] ensures x in t[..n] {
          var i :| 0 <= i < k && s[i] == x;
          assert x in s && x.sib < s[k].sib;
          var l :| 0 <= l < |t| && t[l] == x;
          assert l < j;
        }
        SameMembers(c, s[..k], t[..n]);
      }
    }
  }

  lemma AliveBefore(c: ShareScan, a: nat, alive: seq<Alignment>, m: nat)
    requires AliveIs(c, a, alive, m, 0)
    ensures AliveIs(c, a, Survivors(c, alive, a, SliceBefore(c, a, m), c.step), m + 1, 0)
  {
    hide Agrees, Probed;
    var cand := Survivors(c, alive, a, SliceBefore(c, a, m), c.step);
    SurvivorsAscend(c, alive, a, SliceBefore(c, a, m), c.step);
    forall x ensures x in cand <==> Shares(c, a, x, m + 1, 0) {
      SurvivorsAre(c, alive, a, SliceBefore(c, a, m), c.step, x);
    }
  }

  lemma AliveAfter(c: ShareScan, a: nat, alive: seq<Alignment>, m: nat, n: nat)
    requires AliveIs(c, a, alive, m, n)
    ensures AliveIs(c, a, Survivors(c, alive, a, SliceAfter(c, a, n), c.step), m, n + 1)
  {
    hide Agrees, Probed;
    var cand := Survivors(c, alive, a, SliceAfter(c, a, n), c.step);
    SurvivorsAscend(c, alive, a, SliceAfter(c, a, n), c.step);
    forall x ensures x in cand <==> Shares(c, a, x, m, n + 1) {
      SurvivorsAre(c, alive, a, SliceAfter(c, a, n), c.step, x);
    }
  }

  lemma FewIsTooFew(c: ShareScan, a: nat, alive: seq<Alignment>, m: nat, n: nat)
    requires AliveIs(c, a, alive, m, n) && |alive| < c.minMatches
    ensures TooFew(c, a, m, n)
  {
    hide Shares;
    forall other | AliveIs(c, a, other, m, n) ensures |other| < c.minMatches {
      SameMembers(c, other, alive);
    }
  }

  lemma GrowBackUnfolds(c: ShareScan, a: nat, floor: nat, r: Run)
    requires ValidShare(c) && RunOk(c, a, floor, r)
    ensures forall k :: 0 <= k < |r.alive| ==> r.alive[k].sib < |c.sibs|
    ensures var cand := Survivors(c, r.alive, a, r.lo - c.step, c.step);
      if r.lo - c.step >= floor && r.hi - (r.lo - c.step) <= c.maxLen && |cand| >= c.minMatches then
        && RunOk(c, a, floor, Run(cand, r.lo - c.step, r.hi))
        && GrowBack(c, a, floor, r) == GrowBack(c, a, floor, Run(cand, r.lo - c.step, r.hi))
      else GrowBack(c, a, floor, r) == r
  {
    hide RunOk, Survivors, AllShare;
    AliveOf(c, a, floor, r);
    if r.lo - c.step >= floor && r.hi - (r.lo - c.step) <= c.maxLen
       && |Survivors(c, r.alive, a, r.lo - c.step, c.step)| >= c.minMatches {
      BackTakesSlice(c, a, floor, r);
    }
  }

  lemma SliceBeforeIs(c: ShareScan, a: nat, m: nat, lo: int)
    requires lo == a - m * c.step
    ensures SliceBefore(c, a, m) == lo - c.step == a - (m + 1) * c.step
  {
  }

  lemma SliceAfterIs(c: ShareScan, a: nat, n: nat, hi: int)
    requires hi == a + c.win + n * c.step
    ensures SliceAfter(c, a, n) == hi && hi + c.step == a + c.win + (n + 1) * c.step
  {
  }

  lemma BackStops(c: ShareScan, a: nat, floor: nat, lo: int, m: nat, cand: seq<Alignment>)
    requires lo - c.step < floor || a + c.win - (lo - c.step) > c.maxLen
             || (AliveIs(c, a, cand, m + 1, 0) && |cand| < c.minMatches)
    ensures BackDone(c, a, floor, lo, m)
  {
    hide AliveIs, TooFew;
    if AliveIs(c, a, cand, m + 1, 0) && |cand| < c.minMatches {
      FewIsTooFew(c, a, cand, m + 1, 0);
    }
  }

  lemma ForwardStops(c: ShareScan, a: nat, lo: int, hi: int, m: nat, n: nat, cand: seq<Alignment>)
    requires hi + c.step > |c.target| || hi + c.step - lo > c.maxLen
             || (AliveIs(c, a, cand, m, n + 1) && |cand| < c.minMatches)
    ensures ForwardDone(c, a, lo, hi, m, n)
  {
    hide AliveIs, TooFew;
    if AliveIs(c, a, cand, m, n + 1) && |cand| < c.minMatches {
      FewIsTooFew(c, a, cand, m, n + 1);
    }
  }

  lemma {:induction false} GrowBackIs(c: ShareScan, a: nat, floor: nat, r: Run, m: nat) returns (k: nat)
    requires ValidShare(c) && RunOk(c, a, floor, r)
    requires r.lo == a - m * c.step && r.hi == a + c.win && AliveIs(c, a, r.alive, m, 0)
    ensures var g := GrowBack(c, a, floor, r);
      && g.lo == a - k * c.step && g.hi == a + c.win && AliveIs(c, a, g.alive, k, 0)
      && BackDone(c, a, floor, g.lo, k)
    decreases r.lo
  {
    hide *;
    StepCounts(c);
    k := m;
    GrowBackUnfolds(c, a, floor, r);
    SliceBeforeIs(c, a, m, r.lo);
    AliveBefore(c, a, r.alive, m);
    var cand := Survivors(c, r.alive, a, r.lo - c.step, c.step);
    if r.lo - c.step >= floor && r.hi - (r.lo - c.step) <= c.maxLen && |cand| >= c.minMatches {
      k := GrowBackIs(c, a, floor, Run(cand, r.lo - c.step, r.hi), m + 1);
    } else {
      BackStops(c, a, floor, r.lo, m, cand);
    }
  }

  lemma StepCounts(c: ShareScan)
    requires ValidShare(c)
    ensures c.step > 0
  {
  }

  lemma GrowForwardUnfolds(c: ShareScan, a: nat, floor: nat, r: Run)
    requires ValidShare(c) && RunOk(c, a, floor, r)
    ensures forall k :: 0 <= k < |r.alive| ==> r.alive[k].sib < |c.sibs|
    ensures var cand := Survivors(c, r.alive, a, r.hi, c.step);
      if r.hi + c.step <= |c.target| && r.hi + c.step - r.lo <= c.maxLen && |cand| >= c.minMatches then
        && RunOk(c, a, floor, Run(cand, r.lo, r.hi + c.step))
        && GrowForward(c, a, floor, r) == GrowForward(c, a, floor, Run(cand, r.lo, r.hi + c.step))
      else GrowForward(c, a, floor, r) == r
  {
    hide RunOk, Survivors, AllShare;
    AliveOf(c, a, floor, r);
    if r.hi + c.step <= |c.target| && r.hi + c.step - r.lo <= c.maxLen
       && |Survivors(c, r.alive, a, r.hi, c.step)| >= c.minMatches {
      ForwardTakesSlice(c, a, floor, r);
    }
  }

  lemma {:induction false} GrowForwardIs(c: ShareScan, a: nat, floor: nat, r: Run, m: nat, n: nat) returns (k: nat)
    requires ValidShare(c) && RunOk(c, a, floor, r)
    requires r.hi == a + c.win + n * c.step && AliveIs(c, a, r.alive, m, n)
    ensures var g := GrowForward(c, a, floor, r);
      && g.lo == r.lo && g.hi == a + c.win + k * c.step && k >= n && AliveIs(c, a, g.alive, m, k)
      && ForwardDone(c, a, g.lo, g.hi, m, k)
    decreases |c.target| - r.hi
  {
    hide *;
    StepCounts(c);
    k := n;
    GrowForwardUnfolds(c, a, floor, r);
    SliceAfterIs(c, a, n, r.hi);
    AliveAfter(c, a, r.alive, m, n);
    var cand := Survivors(c, r.alive, a, r.hi, c.step);
    if r.hi + c.step <= |c.target| && r.hi + c.step - r.lo <= c.maxLen && |cand| >= c.minMatches {
      k := GrowForwardIs(c, a, floor, Run(cand, r.lo, r.hi + c.step), m, n + 1);
    } else {
      ForwardStops(c, a, r.lo, r.hi, m, n, cand);
    }
  }

  lemma ForwardTakesSlice(c: ShareScan, a: nat, floor: nat, r: Run)
    requires ValidShare(c) && RunOk(c, a, floor, r)
    requires r.hi + c.step <= |c.target| && r.hi + c.step - r.lo <= c.maxLen
    requires |Survivors(c, r.alive, a, r.hi, c.step)| >= c.minMatches
    ensures RunOk(c, a, floor, Run(Survivors(c, r.alive, a, r.hi, c.step), r.lo, r.hi + c.step))
  {
    hide AllShare, Survivors;
    RunTakesWindow(c, a, floor, r, r.hi, c.step, r.lo, r.hi + c.step);
  }

  /** The coarse run of a probe is the one its siblings and the bounds allow. */
  lemma CoarseRunIs(c: ShareScan, a: nat, floor: nat) returns (m: nat, n: nat)
    requires ValidShare(c) && a + c.win <= |c.target| && floor <= a
    requires |Probe(c, a, |c.sibs|)| >= c.minMatches
    ensures RunOk(c, a, floor, Run(Probe(c, a, |c.sibs|), a, a + c.win))
    ensures CoarseIs(c, a, floor, Coarse(c, a, floor, Run(Probe(c, a, |c.sibs|), a, a + c.win)), m, n)
  {
    hide RunOk, Probed, TooFew, GrowBack, GrowForward;
    var start := Run(Probe(c, a, |c.sibs|), a, a + c.win);
    ProbeRunOk(c, a, floor);
    ProbeAlive(c, a);
    hide AliveIs;
    m := GrowBackIs(c, a, floor, start, 0);
    n := GrowForwardIs(c, a, floor, GrowBack(c, a, floor, start), m, 0);
    RunKeepsMatches(c, a, floor, Coarse(c, a, floor, start));
  }

  lemma SharesAtOnce(c: ShareScan, a: nat, x: Alignment)
    ensures Shares(c, a, x, 0, 0) <==> Probed(c, a, x)
  {
  }

  lemma ProbeAlive(c: ShareScan, a: nat)
    requires ValidShare(c) && a + c.win <= |c.target|
    ensures AliveIs(c, a, Probe(c, a, |c.sibs|), 0, 0)
  {
    hide Shares, Probed, Probe;
    forall x ensures x in Probe(c, a, |c.sibs|) <==> Shares(c, a, x, 0, 0) {
      ProbeIs(c, a, |c.sibs|, x);
      SharesAtOnce(c, a, x);
      ProbedSib(c, a, x);
    }
  }

  lemma ProbedSib(c: ShareScan, a: nat, x: Alignment)
    ensures Probed(c, a, x) ==> x.sib < |c.sibs|
  {
  }

  lemma RunKeepsMatches(c: ShareScan, a: nat, floor: nat, r: Run)
    requires RunOk(c, a, floor, r)
    ensures |r.alive| >= c.minMatches
  {
  }

  // ----- The refined run -----

  /** All members agree on the fine window at p. */
  ghost predicate AgreeAt(c: ShareScan, a: nat, alive: seq<Alignment>, p: int) {
    forall x :: x in alive ==> x.sib < |c.sibs| && Agrees(c, x.sib, x.offset - a, p, FineWindow(c))
  }

  lemma {:induction false} EveryoneSurvives(c: ShareScan, alive: seq<Alignment>, a: nat, p: int, length: int)
    requires forall k :: 0 <= k < |alive| ==> alive[k].sib < |c.sibs|
    requires forall x :: x in alive ==> Agrees(c, x.sib, x.offset - a, p, length)
    ensures |Survivors(c, alive, a, p, length)| == |alive|
  {
    hide Agrees;
    if alive != [] {
      EveryoneSurvives(c, alive[..|alive| - 1], a, p, length);
    }
  }

  lemma AllAgreeIs(c: ShareScan, alive: seq<Alignment>, a: nat, p: int)
    requires forall k :: 0 <= k < |alive| ==> alive[k].sib < |c.sibs|
    ensures AllAgree(c, alive, a, p) <==> AgreeAt(c, a, alive, p)
  {
    hide Agrees;
    SurvivorsAgree(c, alive, a, p, FineWindow(c));
    if AgreeAt(c, a, alive, p) {
      EveryoneSurvives(c, alive, a, p, FineWindow(c));
    }
  }

  /** The end retracts from hi: the run stays long enough and some member disagrees just before hi. */
  ghost predicate EndRetracts(c: ShareScan, a: nat, alive: seq<Alignment>, lo: int, hi: int) {
    hi - lo > RetractFloor(c) && hi - FineWindow(c) >= lo && !AgreeAt(c, a, alive, hi - FineWindow(c))
  }

  ghost predicate EndExtends(c: ShareScan, a: nat, alive: seq<Alignment>, lo: int, hi: int) {
    hi + 1 - lo <= c.maxLen && hi + 1 <= |c.target| && AgreeAt(c, a, alive, hi + 1 - FineWindow(c))
  }

  ghost predicate StartRetracts(c: ShareScan, a: nat, alive: seq<Alignment>, lo: int, hi: int) {
    hi - lo > RetractFloor(c) && !AgreeAt(c, a, alive, lo)
  }

  ghost predicate StartExtends(c: ShareScan, a: nat, floor: nat, alive: seq<Alignment>, lo: int, hi: int) {
    hi - (lo - 1) <= c.maxLen && lo - 1 >= floor && AgreeAt(c, a, alive, lo - 1)
  }

  /** The end goes back from `from` to mid and on to hi, as long as it may, in at most FineLimit steps each way. */
  ghost predicate EndRefined(c: ShareScan, a: nat, alive: seq<Alignment>, lo: int, from: int, mid: int, hi: int) {
    var n := FineLimit(c);
    && mid <= from <= mid + n && mid <= hi <= mid + n
    && (forall h :: mid < h <= from ==> EndRetracts(c, a, alive, lo, h))
    && (mid + n == from || !EndRetracts(c, a, alive, lo, mid))
    && (forall h :: mid <= h < hi ==> EndExtends(c, a, alive, lo, h))
    && (mid + n == hi || !EndExtends(c, a, alive, lo, hi))
  }

  ghost predicate StartRefined(c: ShareScan, a: nat, floor: nat, alive: seq<Alignment>, hi: int, from: int, mid: int,
                               lo: int)
  {
    var n := FineLimit(c);
    && from <= mid <= from + n && lo <= mid <= lo + n
    && (forall l :: from <= l < mid ==> StartRetracts(c, a, alive, l, hi))
    && (mid == from + n || !StartRetracts(c, a, alive, mid, hi))
    && (forall l :: lo < l <= mid ==> StartExtends(c, a, floor, alive, l, hi))
    && (mid == lo + n || !StartExtends(c, a, floor, alive, lo, hi))
  }

  lemma RetractHiUnfolds(c: ShareScan, a: nat, floor: nat, r: Run, n: nat)
    requires ValidShare(c) && RunOk(c, a, floor, r)
    ensures n == 0 || !EndRetracts(c, a, r.alive, r.lo, r.hi) ==> RetractHi(c, a, floor, r, n) == r
    ensures n > 0 && EndRetracts(c, a, r.alive, r.lo, r.hi) ==>
      && r.hi > 0 && RunOk(c, a, floor, Run(r.alive, r.lo, r.hi - 1))
      && RetractHi(c, a, floor, r, n) == RetractHi(c, a, floor, Run(r.alive, r.lo, r.hi - 1), n - 1)
  {
    hide RunOk, AgreeAt, AllAgree, AllShare, Survivors;
    AliveOf(c, a, floor, r);
    AllAgreeIs(c, r.alive, a, r.hi - FineWindow(c));
    if n > 0 && EndRetracts(c, a, r.alive, r.lo, r.hi) {
      RunShortens(c, a, floor, r, r.lo, r.hi - 1);
    }
  }

  lemma {:induction false} RetractHiIs(c: ShareScan, a: nat, floor: nat, r: Run, n: nat)
    requires ValidShare(c) && RunOk(c, a, floor, r)
    ensures var g := RetractHi(c, a, floor, r, n);
      && g.alive == r.alive && g.lo == r.lo && g.hi <= r.hi <= g.hi + n
      && (forall h :: g.hi < h <= r.hi ==> EndRetracts(c, a, r.alive, r.lo, h))
      && (r.hi == g.hi + n || !EndRetracts(c, a, r.alive, r.lo, g.hi))
    decreases n
  {
    hide *;
    RetractHiUnfolds(c, a, floor, r, n);
    if n > 0 && EndRetracts(c, a, r.alive, r.lo, r.hi) {
      RetractHiIs(c, a, floor, Run(r.alive, r.lo, r.hi - 1), n - 1);
    }
  }

  lemma AliveOf(c: ShareScan, a: nat, floor: nat, r: Run)
    requires RunOk(c, a, floor, r)
    ensures BySibling(c, r.alive) && r.lo + c.win <= r.hi <= |c.target| && floor <= r.lo
  {
  }

  lemma RunShortens(c: ShareScan, a: nat, floor: nat, r: Run, lo: nat, hi: nat)
    requires RunOk(c, a, floor, r) && r.lo <= lo && hi <= r.hi && lo + c.win <= hi
    ensures RunOk(c, a, floor, Run(r.alive, lo, hi))
  {
    hide AllShare;
    RunShrinks(c, a, floor, r, lo, hi);
  }

  lemma WhenExtends(c: ShareScan, a: nat, floor: nat, alive: seq<Alignment>, lo: int, hi: int)
    requires BySibling(c, alive)
    ensures EndExtends(c, a, alive, lo, hi)
      <==> hi + 1 - lo <= c.maxLen && hi + 1 <= |c.target| && AllAgree(c, alive, a, hi + 1 - FineWindow(c))
    ensures StartExtends(c, a, floor, alive, lo, hi)
      <==> hi - (lo - 1) <= c.maxLen && lo - 1 >= floor && AllAgree(c, alive, a, lo - 1)
  {
    hide AgreeAt, AllAgree;
    AllAgreeIs(c, alive, a, hi + 1 - FineWindow(c));
    AllAgreeIs(c, alive, a, lo - 1);
  }

  lemma ExtendHiOk(c: ShareScan, a: nat, floor: nat, r: Run)
    requires ValidShare(c) && RunOk(c, a, floor, r) && EndExtends(c, a, r.alive, r.lo, r.hi)
    ensures RunOk(c, a, floor, Run(r.alive, r.lo, r.hi + 1))
  {
    hide RunOk, Survivors, AgreeAt, EndExtends, StartExtends, AllShare;
    AliveOf(c, a, floor, r);
    WhenExtends(c, a, floor, r.alive, r.lo, r.hi);
    HiExtends(c, a, floor, r);
  }

  lemma ExtendLoOk(c: ShareScan, a: nat, floor: nat, r: Run)
    requires ValidShare(c) && RunOk(c, a, floor, r) && StartExtends(c, a, floor, r.alive, r.lo, r.hi)
    ensures r.lo > 0 && RunOk(c, a, floor, Run(r.alive, r.lo - 1, r.hi))
  {
    hide RunOk, Survivors, AgreeAt, EndExtends, StartExtends, AllShare;
    AliveOf(c, a, floor, r);
    WhenExtends(c, a, floor, r.alive, r.lo, r.hi);
    LoExtends(c, a, floor, r);
  }

  lemma ExtendHiUnfolds(c: ShareScan, a: nat, floor: nat, r: Run, n: nat, next: Run)
    requires ValidShare(c) && RunOk(c, a, floor, r)
    requires n > 0 && EndExtends(c, a, r.alive, r.lo, r.hi) && next.alive == r.alive
    requires next.lo == r.lo && next.hi == r.hi + 1 && RunOk(c, a, floor, next)
    ensures ExtendHi(c, a, floor, r, n) == ExtendHi(c, a, floor, next, n - 1)
  {
    hide RunOk, Survivors, AgreeAt, EndExtends, StartExtends, AllShare;
    AliveOf(c, a, floor, r);
    WhenExtends(c, a, floor, r.alive, r.lo, r.hi);
    assert next == Run(r.alive, r.lo, r.hi + 1);
  }

  lemma ExtendHiStops(c: ShareScan, a: nat, floor: nat, r: Run, n: nat)
    requires ValidShare(c) && RunOk(c, a, floor, r) && (n == 0 || !EndExtends(c, a, r.alive, r.lo, r.hi))
    ensures ExtendHi(c, a, floor, r, n) == r
  {
    hide RunOk, Survivors, AgreeAt, EndExtends, StartExtends, AllShare;
    AliveOf(c, a, floor, r);
    WhenExtends(c, a, floor, r.alive, r.lo, r.hi);
  }

  lemma {:induction false} ExtendHiIs(c: ShareScan, a: nat, floor: nat, r: Run, n: nat)
    requires ValidShare(c) && RunOk(c, a, floor, r)
    ensures var g := ExtendHi(c, a, floor, r, n);
      && g.alive == r.alive && g.lo == r.lo && r.hi <= g.hi <= r.hi + n
      && (forall h :: r.hi <= h < g.hi ==> EndExtends(c, a, r.alive, r.lo, h))
      && (g.hi == r.hi + n || !EndExtends(c, a, r.alive, r.lo, g.hi))
    decreases n
  {
    hide *;
    if n > 0 && EndExtends(c, a, r.alive, r.lo, r.hi) {
      ExtendHiOk(c, a, floor, r);
      var next := Run(r.alive, r.lo, r.hi + 1);
      ExtendHiUnfolds(c, a, floor, r, n, next);
      ExtendHiIs(c, a, floor, next, n - 1);
    } else {
      ExtendHiStops(c, a, floor, r, n);
    }
  }

  lemma RetractLoUnfolds(c: ShareScan, a: nat, floor: nat, r: Run, n: nat)
    requires ValidShare(c) && RunOk(c, a, floor, r)
    ensures n == 0 || !StartRetracts(c, a, r.alive, r.lo, r.hi) ==> RetractLo(c, a, floor, r, n) == r
    ensures n > 0 && StartRetracts(c, a, r.alive, r.lo, r.hi) ==>
      && RunOk(c, a, floor, Run(r.alive, r.lo + 1, r.hi))
      && RetractLo(c, a, floor, r, n) == RetractLo(c, a, floor, Run(r.alive, r.lo + 1, r.hi), n - 1)
  {
    hide RunOk, AgreeAt, AllAgree, AllShare, Survivors;
    AliveOf(c, a, floor, r);
    AllAgreeIs(c, r.alive, a, r.lo);
    if n > 0 && StartRetracts(c, a, r.alive, r.lo, r.hi) {
      RunShortens(c, a, floor, r, r.lo + 1, r.hi);
    }
  }

  lemma {:induction false} RetractLoIs(c: ShareScan, a: nat, floor: nat, r: Run, n: nat)
    requires ValidShare(c) && RunOk(c, a, floor, r)
    ensures var g := RetractLo(c, a, floor, r, n);
      && g.alive == r.alive && g.hi == r.hi && r.lo <= g.lo <= r.lo + n
      && (forall l :: r.lo <= l < g.lo ==> StartRetracts(c, a, r.alive, l, r.hi))
      && (g.lo == r.lo + n || !StartRetracts(c, a, r.alive, g.lo, r.hi))
    decreases n
  {
    hide *;
    RetractLoUnfolds(c, a, floor, r, n);
    if n > 0 && StartRetracts(c, a, r.alive, r.lo, r.hi) {
      RetractLoIs(c, a, floor, Run(r.alive, r.lo + 1, r.hi), n - 1);
    }
  }

  lemma ExtendLoUnfolds(c: ShareScan, a: nat, floor: nat, r: Run, n: nat, next: Run)
    requires ValidShare(c) && RunOk(c, a, floor, r)
    requires n > 0 && StartExtends(c, a, floor, r.alive, r.lo, r.hi) && next.alive == r.alive
    requires next.lo == r.lo - 1 && next.hi == r.hi && RunOk(c, a, floor, next)
    ensures ExtendLo(c, a, floor, r, n) == ExtendLo(c, a, floor, next, n - 1)
  {
    hide RunOk, Survivors, AgreeAt, EndExtends, StartExtends, AllShare;
    AliveOf(c, a, floor, r);
    WhenExtends(c, a, floor, r.alive, r.lo, r.hi);
    assert next == Run(r.alive, r.lo - 1, r.hi);
  }

  lemma ExtendLoStops(c: ShareScan, a: nat, floor: nat, r: Run, n: nat)
    requires ValidShare(c) && RunOk(c, a, floor, r) && (n == 0 || !StartExtends(c, a, floor, r.alive, r.lo, r.hi))
    ensures ExtendLo(c, a, floor, r, n) == r
  {
    hide RunOk, Survivors, AgreeAt, EndExtends, StartExtends, AllShare;
    AliveOf(c, a, floor, r);
    WhenExtends(c, a, floor, r.alive, r.lo, r.hi);
  }

  lemma {:induction false} ExtendLoIs(c: ShareScan, a: nat, floor: nat, r: Run, n: nat)
    requires ValidShare(c) && RunOk(c, a, floor, r)
    ensures var g := ExtendLo(c, a, floor, r, n);
      && g.alive == r.alive && g.hi == r.hi && g.lo <= r.lo <= g.lo + n
      && (forall l :: g.lo < l <= r.lo ==> StartExtends(c, a, floor, r.alive, l, r.hi))
      && (r.lo == g.lo + n || !StartExtends(c, a, floor, r.alive, g.lo, r.hi))
    decreases n
  {
    hide *;
    if n > 0 && StartExtends(c, a, floor, r.alive, r.lo, r.hi) {
      ExtendLoOk(c, a, floor, r);
      var next := Run(r.alive, r.lo - 1, r.hi);
      ExtendLoUnfolds(c, a, floor, r, n, next);
      ExtendLoIs(c, a, floor, next, n - 1);
    } else {
      ExtendLoStops(c, a, floor, r, n);
    }
  }

  /** g is the coarse run r with its end and then its start refined. */
  ghost predicate RefinedIs(c: ShareScan, a: nat, floor: nat, r: Run, g: Run, hiMid: int, loMid: int) {
    && g.alive == r.alive && EndRefined(c, a, r.alive, r.lo, r.hi, hiMid, g.hi)
    && StartRefined(c, a, floor, r.alive, g.hi, r.lo, loMid, g.lo)
  }

  lemma RefineIs(c: ShareScan, a: nat, floor: nat, r: Run) returns (hiMid: int, loMid: int)
    requires ValidShare(c) && RunOk(c, a, floor, r)
    ensures RefinedIs(c, a, floor, r, Refine(c, a, floor, r), hiMid, loMid)
  {
    hide RunOk, EndRetracts, EndExtends, StartRetracts, StartExtends, RetractHi, ExtendHi, RetractLo, ExtendLo;
    var n := FineLimit(c);
    RetractHiIs(c, a, floor, r, n);
    var r1 := RetractHi(c, a, floor, r, n);
    ExtendHiIs(c, a, floor, r1, n);
    var r2 := ExtendHi(c, a, floor, r1, n);
    RetractLoIs(c, a, floor, r2, n);
    var r3 := RetractLo(c, a, floor, r2, n);
    ExtendLoIs(c, a, floor, r3, n);
    hiMid, loMid := r1.hi, r3.lo;
  }

  // ----- The skipped continuation -----

  /** x agrees on n slices from `from` on. */
  ghost predicate AgreesOn(c: ShareScan, a: nat, x: Alignment, from: nat, n: nat) {
    x.sib < |c.sibs| && forall j: nat :: j < n ==> Agrees(c, x.sib, x.offset - a, SliceOn(c, from, j), c.step)
  }

  function SliceOn(c: ShareScan, from: nat, j: nat): int { from + j * c.step }

  /** tail holds exactly the members that agree on the n slices after the run. */
  ghost predicate GoOn(c: ShareScan, a: nat, alive: seq<Alignment>, from: nat, n: nat, tail: seq<Alignment>) {
    BySibling(c, tail) && forall x :: x in tail <==> x in alive && AgreesOn(c, a, x, from, n)
  }

  /** From the end of the run its sound goes on to end, slice by slice, while enough of its siblings share it. */
  ghost predicate SkipIs(c: ShareScan, a: nat, alive: seq<Alignment>, from: nat, end: nat, n: nat) {
    && end == from + n * c.step
    && (n > 0 ==> exists tail :: GoOn(c, a, alive, from, n, tail) && |tail| >= c.minMatches)
    && (end + c.step > |c.target| || exists tail :: GoOn(c, a, alive, from, n + 1, tail) && |tail| < c.minMatches)
  }

  lemma GoesOn(c: ShareScan, a: nat, alive: seq<Alignment>, from: nat, n: nat, tail: seq<Alignment>)
    requires GoOn(c, a, alive, from, n, tail)
    ensures GoOn(c, a, alive, from, n + 1, Survivors(c, tail, a, SliceOn(c, from, n), c.step))
  {
    hide Agrees;
    SurvivorsAscend(c, tail, a, SliceOn(c, from, n), c.step);
    forall x
      ensures x in Survivors(c, tail, a, SliceOn(c, from, n), c.step) <==> x in alive && AgreesOn(c, a, x, from, n + 1)
    {
      SurvivorsAre(c, tail, a, SliceOn(c, from, n), c.step, x);
    }
  }

  lemma {:induction false} SkipPastIs(c: ShareScan, a: nat, alive: seq<Alignment>, from: nat, end: nat, n: nat,
                                      tail: seq<Alignment>) returns (k: nat)
    requires ValidShare(c) && BySibling(c, tail) && end <= |c.target|
    requires end == from + n * c.step && GoOn(c, a, alive, from, n, tail) && (n > 0 ==> |tail| >= c.minMatches)
    ensures SkipIs(c, a, alive, from, SkipPast(c, a, tail, end), k)
    decreases |c.target| - end
  {
    hide *;
    k := n;
    SkipUnfolds(c, a, tail, end);
    if end + c.step <= |c.target| {
      GoSibs(c, a, alive, from, n, tail);
      SliceOnIs(c, from, n);
      var cand := Survivors(c, tail, a, end, c.step);
      GoesOn(c, a, alive, from, n, tail);
      if |cand| >= c.minMatches {
        k := SkipPastIs(c, a, alive, from, end + c.step, n + 1, cand);
      } else {
        SkipStops(c, a, alive, from, end, n, tail, cand);
      }
    } else {
      SkipStops(c, a, alive, from, end, n, tail, []);
    }
  }

  lemma SkipStops(c: ShareScan, a: nat, alive: seq<Alignment>, from: nat, end: nat, n: nat, tail: seq<Alignment>,
                  cand: seq<Alignment>)
    requires end == from + n * c.step && GoOn(c, a, alive, from, n, tail) && (n > 0 ==> |tail| >= c.minMatches)
    requires end + c.step > |c.target| || (GoOn(c, a, alive, from, n + 1, cand) && |cand| < c.minMatches)
    ensures SkipIs(c, a, alive, from, end, n)
  {
    hide GoOn;
  }

  lemma SliceOnIs(c: ShareScan, from: nat, n: nat)
    ensures SliceOn(c, from, n) == from + n * c.step && from + (n + 1) * c.step == from + n * c.step + c.step
  {
  }

  lemma SkipUnfolds(c: ShareScan, a: nat, tail: seq<Alignment>, end: nat)
    requires ValidShare(c) && BySibling(c, tail) && end <= |c.target|
    ensures c.step > 0 && forall k :: 0 <= k < |tail| ==> tail[k].sib < |c.sibs|
    ensures end + c.step > |c.target| ==> SkipPast(c, a, tail, end) == end
    ensures end + c.step <= |c.target| ==>
      var cand := Survivors(c, tail, a, end, c.step);
      && BySibling(c, cand)
      && SkipPast(c, a, tail, end) == if |cand| < c.minMatches then end else SkipPast(c, a, cand, end + c.step)
  {
    if end + c.step <= |c.target| {
      SurvivorsAscend(c, tail, a, end, c.step);
    }
    hide Survivors;
  }

  lemma GoSibs(c: ShareScan, a: nat, alive: seq<Alignment>, from: nat, n: nat, tail: seq<Alignment>)
    requires GoOn(c, a, alive, from, n, tail)
    ensures BySibling(c, tail) && forall k :: 0 <= k < |tail| ==> tail[k].sib < |c.sibs|
  {
  }

  // ----- Every run found is full -----

  /** From the probe at a grows the coarse run, refined to g; past a capped run the continuation is claimed too. */
  ghost predicate Extent(c: ShareScan, a: nat, floor: nat, coarse: Run, g: Run, end: nat) {
    && (exists m: nat, n: nat :: CoarseIs(c, a, floor, coarse, m, n))
    && (exists hiMid, loMid :: RefinedIs(c, a, floor, coarse, g, hiMid, loMid))
    && (if coarse.hi + c.step - coarse.lo > c.maxLen then exists n: nat :: SkipIs(c, a, g.alive, g.hi, end, n)
        else end == g.hi)
  }

  /** f is the full extent of some probe's run, long enough, and claims the target up to end. */
  ghost predicate FullRun(c: ShareScan, floor: nat, f: Found, end: nat) {
    exists a: nat, coarse, g :: a + c.win <= |c.target| && Extent(c, a, floor, coarse, g, end)
      && f == Found(g.lo, g.hi, |g.alive|) && g.hi - g.lo >= c.minLen
  }

  /** Where each found run's claim on the target ends. */
  ghost function Ends(c: ShareScan, a: nat, floor: nat): (r: seq<nat>)
    requires ValidShare(c) && floor <= a
    decreases |c.target| + c.win - a
  {
    if a + c.win > |c.target| then []
    else if |Probe(c, a, |c.sibs|)| < c.minMatches then Ends(c, a + c.step, floor)
    else
      var run := GrownRun(c, a, floor);
      if run.hi - run.lo >= c.minLen then
        var end := SegmentEnd(c, a, floor);
        [end] + Ends(c, MaxInt(end, a + c.step), end)
      else Ends(c, a + c.step, floor)
  }

  lemma GrownRunIs(c: ShareScan, a: nat, floor: nat) returns (coarse: Run)
    requires ValidShare(c) && a + c.win <= |c.target| && floor <= a
    requires |Probe(c, a, |c.sibs|)| >= c.minMatches
    ensures Extent(c, a, floor, coarse, GrownRun(c, a, floor), SegmentEnd(c, a, floor))
  {
    hide RunOk, CoarseIs, RefinedIs, SkipIs, Coarse, Refine, SkipPast, AllShare, GoOn, Probe, BySibling;
    var m, n := CoarseRunIs(c, a, floor);
    coarse := Coarse(c, a, floor, Run(Probe(c, a, |c.sibs|), a, a + c.win));
    var hiMid, loMid := RefineIs(c, a, floor, coarse);
    var g := GrownRun(c, a, floor);
    if coarse.hi + c.step - coarse.lo > c.maxLen {
      AliveOf(c, a, floor, g);
      GoesNowhere(c, a, g.alive, g.hi);
      var k := SkipPastIs(c, a, g.alive, g.hi, g.hi, 0, g.alive);
    }
  }

  lemma GoesNowhere(c: ShareScan, a: nat, alive: seq<Alignment>, from: nat)
    requires BySibling(c, alive)
    ensures GoOn(c, a, alive, from, 0, alive)
  {
  }

  /** Each found run is full, from where the claim before it ends. */
  ghost predicate FullFrom(c: ShareScan, floor: nat, found: seq<Found>, ends: seq<nat>, i: nat)
    requires |ends| == |found| && i < |found|
  {
    FullRun(c, if i == 0 then floor else ends[i - 1], found[i], ends[i])
  }

  /** Every found run is grown and refined as far as its siblings and the bounds allow. */
  lemma {:induction false} RunsAreFull(c: ShareScan, a: nat, floor: nat)
    requires ValidShare(c) && floor <= a
    ensures |Ends(c, a, floor)| == |ScanFrom(c, a, floor)|
    ensures forall i :: 0 <= i < |ScanFrom(c, a, floor)| ==>
              FullFrom(c, floor, ScanFrom(c, a, floor), Ends(c, a, floor), i)
    decreases |c.target| + c.win - a
  {
    hide GrownRun, SegmentEnd, Probe, RunOk, Extent;
    if a + c.win <= |c.target| {
      if |Probe(c, a, |c.sibs|)| < c.minMatches {
        RunsAreFull(c, a + c.step, floor);
      } else {
        var run := GrownRun(c, a, floor);
        if run.hi - run.lo >= c.minLen {
          var coarse := GrownRunIs(c, a, floor);
          var end := SegmentEnd(c, a, floor);
          RunsAreFull(c, MaxInt(end, a + c.step), end);
          var found, ends := ScanFrom(c, a, floor), Ends(c, a, floor);
          var rest, after := ScanFrom(c, MaxInt(end, a + c.step), end), Ends(c, MaxInt(end, a + c.step), end);
          forall i: nat | i < |found| ensures FullFrom(c, floor, found, ends, i) {
            if i > 0 {
              assert FullFrom(c, end, rest, after, i - 1);
            }
          }
        } else {
          RunsAreFull(c, a + c.step, floor);
        }
      }
    }
  }

  // ----- No long shared stretch is missed -----

  /** x.sib plays the target's [lo, hi) at x.offset: the best match of every window in it, and every slice agrees. */
  ghost predicate PlaysStretch(c: ShareScan, x: Alignment, lo: nat, hi: nat) {
    && x.sib < |c.sibs|
    && (forall b: nat :: lo <= b && b + c.win <= hi ==> Probed(c, b, At(x, b)))
    && (forall p: nat :: lo <= p && p + c.step <= hi ==> Agrees(c, x.sib, x.offset, p, c.step))
  }

  /** The alignment of a probe at b, when the target's start lines up with x.offset. */
  function At(x: Alignment, b: nat): Alignment { Alignment(x.sib, x.offset + b) }

  function AllAt(ks: seq<Alignment>, b: nat): (r: seq<Alignment>)
    ensures |r| == |ks|
  {
    seq(|ks|, i requires 0 <= i < |ks| => At(ks[i], b))
  }

  ghost predicate StretchOf(c: ShareScan, ks: seq<Alignment>, lo: nat, hi: nat) {
    && BySibling(c, ks) && |ks| >= c.minMatches && lo <= hi <= |c.target|
    && forall i :: 0 <= i < |ks| ==> PlaysStretch(c, ks[i], lo, hi)
  }

  /** Long enough that no run over it is dropped, however the grid of probes falls. */
  ghost predicate LongStretch(c: ShareScan, lo: nat, hi: nat) {
    && 0 < c.step < c.win && c.minLen + c.step - 1 <= c.maxLen
    && hi - lo >= c.minLen + 2 * (c.step - 1) && hi - lo >= c.win + c.step - 1
  }

  lemma StretchIsAlive(c: ShareScan, ks: seq<Alignment>, lo: nat, hi: nat, b: nat, m: nat, alive: seq<Alignment>)
    requires StretchOf(c, ks, lo, hi) && lo <= b && b + c.win <= hi && c.step > 0
    requires b - m * c.step >= lo && AliveIs(c, b, alive, m, 0)
    ensures |alive| >= c.minMatches
  {
    var at := AllAt(ks, b);
    forall i | 0 <= i < |at| ensures Shares(c, b, at[i], m, 0) {
      assert PlaysStretch(c, ks[i], lo, hi);
      StretchShares(c, ks[i], lo, hi, b, m);
    }
    hide Shares, PlaysStretch;
    SameMembers(c, at, alive);
  }

  lemma StretchShares(c: ShareScan, x: Alignment, lo: nat, hi: nat, b: nat, m: nat)
    requires PlaysStretch(c, x, lo, hi) && lo <= b && b + c.win <= hi && c.step > 0
    requires b - m * c.step >= lo
    ensures Shares(c, b, At(x, b), m, 0)
  {
    hide Agrees, Probed;
    forall j: nat | j < m ensures Agrees(c, x.sib, x.offset, SliceBefore(c, b, j), c.step) {
      SlicesWithin(c.step, j, m);
    }
  }

  lemma Scaled(step: nat, x: nat, y: nat)
    ensures (x + y) * step == x * step + y * step && x * step >= 0
  {
  }

  lemma SlicesWithin(step: nat, j: nat, m: nat)
    requires j < m
    ensures step <= (j + 1) * step <= m * step
  {
    Scaled(step, m - (j + 1), j + 1);
    Scaled(step, j, 1);
  }

  lemma StretchEnds(c: ShareScan, ks: seq<Alignment>, lo: nat, hi: nat)
    requires StretchOf(c, ks, lo, hi)
    ensures lo <= hi <= |c.target|
  {
  }

  /** A probe in the stretch finds enough siblings. */
  lemma StretchIsProbed(c: ShareScan, ks: seq<Alignment>, lo: nat, hi: nat, b: nat)
    requires ValidShare(c) && StretchOf(c, ks, lo, hi) && lo <= b && b + c.win <= hi
    ensures |Probe(c, b, |c.sibs|)| >= c.minMatches
  {
    hide StretchOf, Probe;
    StretchEnds(c, ks, lo, hi);
    ProbeAlive(c, b);
    StretchIsAlive(c, ks, lo, hi, b, 0, Probe(c, b, |c.sibs|));
  }

  /** A coarse run that starts within a step of the stretch's start, or was capped on the way there, is long enough. */
  lemma CoarseReachesBack(c: ShareScan, ks: seq<Alignment>, lo: nat, hi: nat, b: nat, floor: nat, r: Run, m: nat,
                          n: nat)
    requires ValidShare(c) && StretchOf(c, ks, lo, hi) && lo <= b && b + c.win <= hi && floor <= lo
    requires CoarseIs(c, b, floor, r, m, n)
    ensures r.lo < lo + c.step || b + c.win - r.lo + c.step > c.maxLen
    ensures r.lo <= b && b + c.win <= r.hi
  {
    hide StretchOf, AliveIs;
    assert m * c.step >= 0 && n * c.step >= 0;
    SliceBeforeIs(c, b, m, r.lo);
    if r.lo - c.step >= lo && b + c.win - (r.lo - c.step) <= c.maxLen {
      NoStretchTooFew(c, ks, lo, hi, b, m + 1);
    }
  }

  lemma NoStretchTooFew(c: ShareScan, ks: seq<Alignment>, lo: nat, hi: nat, b: nat, m: nat)
    requires ValidShare(c) && StretchOf(c, ks, lo, hi) && lo <= b && b + c.win <= hi
    requires b - m * c.step >= lo
    ensures !TooFew(c, b, m, 0)
  {
    hide StretchOf, Probe;
    StretchEnds(c, ks, lo, hi);
    var alive := Probe(c, b, |c.sibs|);
    ProbeAlive(c, b);
    alive := ShrinksTo(c, b, alive, m);
    StretchIsAlive(c, ks, lo, hi, b, m, alive);
  }

  /** The list of those that agree on m slices before the probe exists. */
  lemma {:induction false} ShrinksTo(c: ShareScan, b: nat, probed: seq<Alignment>, m: nat)
    returns (alive: seq<Alignment>)
    requires AliveIs(c, b, probed, 0, 0)
    ensures AliveIs(c, b, alive, m, 0)
  {
    hide AliveIs;
    if m == 0 {
      alive := probed;
    } else {
      alive := ShrinksTo(c, b, probed, m - 1);
      AliveOfSibs(c, b, alive, m - 1, 0);
      AliveBefore(c, b, alive, m - 1);
      alive := Survivors(c, alive, b, SliceBefore(c, b, m - 1), c.step);
    }
  }

  lemma AliveOfSibs(c: ShareScan, a: nat, alive: seq<Alignment>, m: nat, n: nat)
    requires AliveIs(c, a, alive, m, n)
    ensures forall k :: 0 <= k < |alive| ==> alive[k].sib < |c.sibs|
  {
  }

  /** Refinement moves each edge by less than the window, and never takes a long run below the least length. */
  lemma RefinedStaysLong(c: ShareScan, a: nat, floor: nat, r: Run, g: Run, hiMid: int, loMid: int)
    requires RefinedIs(c, a, floor, r, g, hiMid, loMid)
    ensures g.lo <= r.lo + FineLimit(c) && g.hi >= r.hi - FineLimit(c)
    ensures r.hi - r.lo >= c.minLen ==> g.hi - g.lo >= c.minLen
  {
    hide AgreeAt;
    if hiMid < r.hi {
      assert EndRetracts(c, a, r.alive, r.lo, hiMid + 1);
    }
    if loMid > r.lo {
      assert StartRetracts(c, a, r.alive, loMid - 1, g.hi);
    }
  }

  /** What a probe inside the stretch comes to: a run that meets it, and at the last such probe one long enough. */
  lemma ProbeInStretch(c: ShareScan, ks: seq<Alignment>, lo: nat, hi: nat, b: nat, floor: nat)
    requires ValidShare(c) && StretchOf(c, ks, lo, hi) && LongStretch(c, lo, hi)
    requires lo <= b && b + c.win <= hi && floor <= lo
    ensures |Probe(c, b, |c.sibs|)| >= c.minMatches
    ensures GrownRun(c, b, floor).lo < hi && lo < SegmentEnd(c, b, floor)
    ensures b + c.step + c.win > hi ==> GrownRun(c, b, floor).hi - GrownRun(c, b, floor).lo >= c.minLen
  {
    hide StretchOf, Probe, CoarseIs, RefinedIs, SkipIs, RunOk, GrownRun, SegmentEnd;
    StretchEnds(c, ks, lo, hi);
    StretchIsProbed(c, ks, lo, hi, b);
    var coarse := GrownRunIs(c, b, floor);
    var g := GrownRun(c, b, floor);
    var m: nat, n: nat :| CoarseIs(c, b, floor, coarse, m, n);
    var hiMid, loMid :| RefinedIs(c, b, floor, coarse, g, hiMid, loMid);
    CoarseReachesBack(c, ks, lo, hi, b, floor, coarse, m, n);
    RefinedStaysLong(c, b, floor, coarse, g, hiMid, loMid);
  }

  /** A run that begins before a probe's window ends. */
  lemma RunStartsSoon(c: ShareScan, a: nat, floor: nat)
    requires ValidShare(c) && a + c.win <= |c.target| && floor <= a && c.step < c.win
    requires |Probe(c, a, |c.sibs|)| >= c.minMatches
    ensures GrownRun(c, a, floor).lo < a + c.win
  {
    hide Probe, RefinedIs, SkipIs, RunOk, GrownRun, SegmentEnd, AliveIs, BackDone, ForwardDone;
    var coarse := GrownRunIs(c, a, floor);
    var m: nat, n: nat :| CoarseIs(c, a, floor, coarse, m, n);
    assert m * c.step >= 0;
    var hiMid, loMid :| RefinedIs(c, a, floor, coarse, GrownRun(c, a, floor), hiMid, loMid);
    RefinedStaysLong(c, a, floor, coarse, GrownRun(c, a, floor), hiMid, loMid);
  }

  /** Some found run, or its claimed continuation, meets [lo, hi). */
  ghost predicate Met(found: seq<Found>, ends: seq<nat>, lo: nat, hi: nat) {
    |ends| == |found| && exists i :: 0 <= i < |found| && found[i].lo < hi && lo < ends[i]
  }

  lemma MetLater(f: Found, end: nat, found: seq<Found>, ends: seq<nat>, lo: nat, hi: nat)
    requires |ends| == |found| && ((f.lo < hi && lo < end) || Met(found, ends, lo, hi))
    ensures Met([f] + found, [end] + ends, lo, hi)
  {
    if f.lo < hi && lo < end {
      assert ([f] + found)[0] == f;
    } else {
      var i :| 0 <= i < |found| && found[i].lo < hi && lo < ends[i];
      assert ([f] + found)[i + 1] == found[i] && ([end] + ends)[i + 1] == ends[i];
    }
  }

  lemma {:induction false} StretchMetFrom(c: ShareScan, ks: seq<Alignment>, lo: nat, hi: nat, a: nat, floor: nat)
    requires ValidShare(c) && StretchOf(c, ks, lo, hi) && LongStretch(c, lo, hi)
    requires floor <= a && floor <= lo && a + c.win <= hi
    ensures Met(ScanFrom(c, a, floor), Ends(c, a, floor), lo, hi)
    decreases |c.target| + c.win - a
  {
    hide StretchOf, GrownRun, SegmentEnd, Probe, RunOk, Met;
    StretchEnds(c, ks, lo, hi);
    RunsAreFull(c, a, floor);
    if a >= lo {
      ProbeInStretch(c, ks, lo, hi, a, floor);
    }
    if |Probe(c, a, |c.sibs|)| < c.minMatches {
      StretchMetFrom(c, ks, lo, hi, a + c.step, floor);
    } else {
      var run := GrownRun(c, a, floor);
      RunStartsSoon(c, a, floor);
      if run.hi - run.lo >= c.minLen {
        var end := SegmentEnd(c, a, floor);
        var next := MaxInt(end, a + c.step);
        if end <= lo {
          StretchMetFrom(c, ks, lo, hi, next, end);
        }
        MetLater(Found(run.lo, run.hi, |run.alive|), end, ScanFrom(c, next, end), Ends(c, next, end), lo, hi);
      } else {
        StretchMetFrom(c, ks, lo, hi, a + c.step, floor);
      }
    }
  }

  /** A long stretch that enough siblings play is met by a found run or its claimed continuation. */
  lemma LongStretchesAreMet(c: ShareScan, ks: seq<Alignment>, lo: nat, hi: nat)
    requires ValidShare(c) && StretchOf(c, ks, lo, hi) && LongStretch(c, lo, hi)
    ensures Met(ScanFrom(c, 0, 0), Ends(c, 0, 0), lo, hi)
  {
    hide StretchOf, Met;
    StretchMetFrom(c, ks, lo, hi, 0, 0);
  }

  /** Five words whose middle three a sibling plays, compared three at a time and every second word. */
  const MIDDLE := ShareScan([0, 1, 2, 3, 4], [[1, 2, 3]], 3, 1.0, 1, 3, 100, 2)

  lemma OneWordOff(a: nat)
    requires a == 0 || a == 2
    ensures CrossPairSimilarity(MIDDLE.target, a, MIDDLE.sibs[0], 0, 3) < 1.0
  {
    var c := MIDDLE;
    assert c.target[0] ^ c.sibs[0][0] == 1 && c.target[2] ^ c.sibs[0][0] == 3;
    assert WordErrors(c.target[a], c.sibs[0][0]) > 0;
    hide WordErrors;
    assert PairErrors(c.target, a, c.sibs[0], 0, 0) == 0;
    assert PairErrors(c.target, a, c.sibs[0], 0, 1) > 0;
    assert PairErrors(c.target, a, c.sibs[0], 0, 2) > 0;
    assert PairErrors(c.target, a, c.sibs[0], 0, 3) > 0;
  }

  lemma NoErrorsInCopy()
    ensures Agrees(MIDDLE, 0, -1, 1, 3)
  {
    var c := MIDDLE;
    assert c.target[1] ^ c.sibs[0][0] == 0 && c.target[2] ^ c.sibs[0][1] == 0 && c.target[3] ^ c.sibs[0][2] == 0;
    assert WordErrors(c.target[1], c.sibs[0][0]) == 0;
    assert WordErrors(c.target[2], c.sibs[0][1]) == 0;
    assert WordErrors(c.target[3], c.sibs[0][2]) == 0;
    hide WordErrors;
    assert PairErrors(c.target, 1, c.sibs[0], 0, 0) == 0;
    assert PairErrors(c.target, 1, c.sibs[0], 0, 1) == 0;
    assert PairErrors(c.target, 1, c.sibs[0], 0, 2) == 0;
    assert PairErrors(c.target, 1, c.sibs[0], 0, 3) == 0;
  }

  /** One sibling of the window's length that does not match the probe. */
  lemma OnlySiblingDiffers(c: ShareScan, a: nat)
    requires ValidShare(c) && a + c.win <= |c.target| && |c.sibs| == 1 && |c.sibs[0]| == c.win
    requires CrossPairSimilarity(c.target, a, c.sibs[0], 0, c.win) < c.similarity
    ensures Probe(c, a, 1) == []
  {
    hide CrossPairSimilarity, BySibling, ArgMax;
    assert Probe(c, a, 0) == [];
    assert Region(c, 0, a)[0] < c.similarity;
  }

  lemma MiddleIs()
    ensures ValidShare(MIDDLE) && |MIDDLE.target| == 5 && |MIDDLE.sibs| == 1 && |MIDDLE.sibs[0]| == MIDDLE.win == 3
    ensures MIDDLE.similarity == 1.0 && MIDDLE.step == 2 && MIDDLE.minMatches == 1 && MIDDLE.minLen == 3
  {
  }

  lemma ScanGoesOn(c: ShareScan, a: nat, floor: nat)
    requires ValidShare(c) && floor <= a
    ensures a + c.win > |c.target| ==> ScanFrom(c, a, floor) == []
    ensures a + c.win <= |c.target| && |Probe(c, a, |c.sibs|)| < c.minMatches ==>
              ScanFrom(c, a, floor) == ScanFrom(c, a + c.step, floor)
  {
    hide Probe, GrownRun, SegmentEnd, RunOk;
  }

  lemma GridMisses(c: ShareScan)
    requires ValidShare(c) && |c.target| == 5 && |c.sibs| == 1 && |c.sibs[0]| == c.win == 3
    requires c.step == 2 && c.minMatches == 1
    requires CrossPairSimilarity(c.target, 0, c.sibs[0], 0, c.win) < c.similarity
    requires CrossPairSimilarity(c.target, 2, c.sibs[0], 0, c.win) < c.similarity
    ensures ScanFrom(c, 0, 0) == []
  {
    hide *;
    OnlySiblingDiffers(c, 0);
    OnlySiblingDiffers(c, 2);
    ScanGoesOn(c, 0, 0);
    ScanGoesOn(c, 2, 0);
    ScanGoesOn(c, 4, 0);
  }

  /** A stretch of the least length, shared word for word, that no probe of the grid falls in: it is missed. */
  lemma ShortStretchIsMissed()
    ensures ValidShare(MIDDLE) && Agrees(MIDDLE, 0, -1, 1, 3) && MIDDLE.minLen == 3 && ScanFrom(MIDDLE, 0, 0) == []
  {
    hide *;
    NoErrorsInCopy();
    MiddleIs();
    OneWordOff(0);
    OneWordOff(2);
    GridMisses(MIDDLE);
  }
}
