/** Similarity of fingerprint windows along an episode, and the greedy choice of non-overlapping hits. */
module WindowHits {
  import opened Basics
  import opened Popcount

  // ----- Window similarity -----

  function WordErrors(x: bv32, y: bv32): nat {
    TablePopcount(x ^ y)
  }

  lemma WordErrorsSymmetric(x: bv32, y: bv32)
    ensures WordErrors(x, y) == WordErrors(y, x)
  {
    hide TablePopcount;
    assert x ^ y == y ^ x;
  }

  /** Bits that differ between a[i..i+length] and b[j..j+length]. */
  function PairErrors(a: seq<bv32>, i: nat, b: seq<bv32>, j: nat, length: nat): nat
    requires i + length <= |a| && j + length <= |b|
  {
    if length == 0 then 0
    else PairErrors(a, i, b, j, length - 1) + WordErrors(a[i + length - 1], b[j + length - 1])
  }

  function CrossPairSimilarity(a: seq<bv32>, i: nat, b: seq<bv32>, j: nat, length: nat): real
    requires length > 0 && i + length <= |a| && j + length <= |b|
  {
    1.0 - PairErrors(a, i, b, j, length) as real / (length * 32) as real
  }

  /** Comparing slices taken out of other lists changes nothing, and neither does swapping the sides. */
  lemma {:induction false} PairErrorsOfSlices(a: seq<bv32>, i: nat, b: seq<bv32>, j: nat,
                                              c: seq<bv32>, k: nat, d: seq<bv32>, l: nat, length: nat)
    requires i + length <= |a| && j + length <= |b| && k + length <= |c| && l + length <= |d|
    requires a[i..i + length] == d[l..l + length] && b[j..j + length] == c[k..k + length]
    ensures PairErrors(a, i, b, j, length) == PairErrors(c, k, d, l, length)
  {
    hide WordErrors;
    if length > 0 {
      var n := length - 1;
      assert a[i..i + n] == a[i..i + length][..n] && d[l..l + n] == d[l..l + length][..n];
      assert b[j..j + n] == b[j..j + length][..n] && c[k..k + n] == c[k..k + length][..n];
      assert a[i..i + length][n] == d[l..l + length][n] && b[j..j + length][n] == c[k..k + length][n];
      PairErrorsOfSlices(a, i, b, j, c, k, d, l, n);
      WordErrorsSymmetric(a[i + n], b[j + n]);
    }
  }

  /** Similarity of the window at anchor with the window at every start position, one column at a time. */
  method WindowSimilarity(arr: seq<bv32>, anchor: nat, win: nat) returns (sim: seq<real>)
    requires 0 < win && anchor + win <= |arr|
    ensures |sim| == |arr| - win + 1
    ensures forall p :: 0 <= p < |sim| ==> sim[p] == CrossPairSimilarity(arr, p, arr, anchor, win)
  {
    hide WordErrors;
    var m := |arr| - win + 1;
    var diff := new nat[m](_ => 0);
    for k := 0 to win
      invariant forall p :: 0 <= p < m ==> diff[p] == PairErrors(arr, p, arr, anchor, k)
    {
      for q := 0 to m
        invariant forall p :: 0 <= p < q ==> diff[p] == PairErrors(arr, p, arr, anchor, k + 1)
        invariant forall p :: q <= p < m ==> diff[p] == PairErrors(arr, p, arr, anchor, k)
      {
        diff[q] := diff[q] + WordErrors(arr[q + k], arr[anchor + k]);
      }
    }
    var errors := diff[..];
    sim := seq(m, p requires 0 <= p < m => 1.0 - errors[p] as real / (win * 32) as real);
  }

  // ----- Greedy hits -----

  predicate Qualifies(sim: seq<real>, similarity: real, claimed: Option<seq<bool>>, p: int)
    requires claimed.Some? ==> |sim| <= |claimed.value|
  {
    0 <= p < |sim| && sim[p] >= similarity && (claimed.None? || !claimed.value[p])
  }

  /** Ascending positions, each at least minGap past the one before. */
  ghost predicate Spaced(ps: seq<int>, minGap: int) {
    forall i, j :: 0 <= i < j < |ps| ==> ps[i] + minGap <= ps[j]
  }

  ghost predicate CoveredByHit(hits: seq<int>, minGap: int, p: int) {
    exists k :: 0 <= k < |hits| && hits[k] <= p < hits[k] + minGap
  }

  ghost predicate GreedyHits(sim: seq<real>, similarity: real, minGap: int, claimed: Option<seq<bool>>, hits: seq<int>)
    requires claimed.Some? ==> |sim| <= |claimed.value|
  {
    && Spaced(hits, minGap)
    && (forall k :: 0 <= k < |hits| ==> Qualifies(sim, similarity, claimed, hits[k]))
    && (forall p :: Qualifies(sim, similarity, claimed, p) ==> CoveredByHit(hits, minGap, p))
  }

  lemma CoveredWithNext(hits: seq<int>, h: int, minGap: int, q: int)
    requires q < h ==> CoveredByHit(hits, minGap, q)
    requires q < h + minGap
    ensures CoveredByHit(hits + [h], minGap, q)
  {
    if q < h {
      var k :| 0 <= k < |hits| && hits[k] <= q < hits[k] + minGap;
      assert (hits + [h])[k] == hits[k];
    } else {
      assert (hits + [h])[|hits|] == h;
    }
  }

  lemma NothingSpaced(minGap: int)
    ensures Spaced([], minGap)
  {
  }

  lemma SpacedWithNext(hits: seq<int>, h: int, minGap: int)
    requires Spaced(hits, minGap) && forall k :: 0 <= k < |hits| ==> hits[k] + minGap <= h
    ensures Spaced(hits + [h], minGap)
  {
  }

  method GreedyHitPositions(sim: seq<real>, similarity: real, minGap: int, claimed: Option<seq<bool>>)
    returns (hits: seq<int>)
    requires minGap >= 1
    requires claimed.Some? ==> |sim| <= |claimed.value|
    ensures GreedyHits(sim, similarity, minGap, claimed, hits)
  {
    hide Spaced, CoveredByHit;
    NothingSpaced(minGap);
    hits := [];
    var p := 0;
    while p < |sim|
      invariant 0 <= p
      invariant Spaced(hits, minGap)
      invariant forall k :: 0 <= k < |hits| ==> Qualifies(sim, similarity, claimed, hits[k]) && hits[k] + minGap <= p
      invariant forall q :: q < p && Qualifies(sim, similarity, claimed, q) ==> CoveredByHit(hits, minGap, q)
      decreases |sim| - p
    {
      if sim[p] >= similarity && (claimed.None? || !claimed.value[p]) {
        forall q | q < p + minGap && Qualifies(sim, similarity, claimed, q)
          ensures CoveredByHit(hits + [p], minGap, q)
        {
          CoveredWithNext(hits, p, minGap, q);
        }
        SpacedWithNext(hits, p, minGap);
        hits := hits + [p];
        p := p + minGap;
      } else {
        p := p + 1;
      }
    }
  }

  /** The i-th of any spaced positions that hits cover lies under the i-th hit or a later one. */
  lemma {:induction false} ReachesHit(hits: seq<int>, minGap: int, other: seq<int>, i: nat) returns (k: nat)
    requires Spaced(hits, minGap) && Spaced(other, minGap) && i < |other|
    requires forall j :: 0 <= j < |other| ==> CoveredByHit(hits, minGap, other[j])
    ensures i <= k < |hits| && hits[k] <= other[i] < hits[k] + minGap
  {
    assert CoveredByHit(hits, minGap, other[i]);
    var c :| 0 <= c < |hits| && hits[c] <= other[i] < hits[c] + minGap;
    k := c;
    if i > 0 {
      var before := ReachesHit(hits, minGap, other, i - 1);
      assert other[i - 1] + minGap <= other[i];
      assert forall m :: 0 <= m < before ==> hits[m] + minGap <= hits[before];
    }
  }

  /** Greedy is optimal: no other spaced set of qualifying positions is larger. */
  lemma GreedyIsLargest(sim: seq<real>, similarity: real, minGap: int, claimed: Option<seq<bool>>,
                        hits: seq<int>, other: seq<int>)
    requires minGap >= 1
    requires claimed.Some? ==> |sim| <= |claimed.value|
    requires GreedyHits(sim, similarity, minGap, claimed, hits)
    requires Spaced(other, minGap)
    requires forall j :: 0 <= j < |other| ==> Qualifies(sim, similarity, claimed, other[j])
    ensures |other| <= |hits|
  {
    if other != [] {
      var k := ReachesHit(hits, minGap, other, |other| - 1);
    }
  }

  lemma {:induction false} CoverBelow(a: seq<int>, b: seq<int>, minGap: int, k: nat)
    requires minGap >= 0 && Spaced(a, minGap) && Spaced(b, minGap) && k < |a|
    requires forall j :: 0 <= j < |a| ==> CoveredByHit(b, minGap, a[j])
    ensures k < |b| && b[k] <= a[k]
  {
    var i := ReachesHit(b, minGap, a, k);
    assert k < i ==> b[k] + minGap <= b[i];
  }

  /** The contract has one solution, so any two scans that meet it take the same positions. */
  lemma GreedyHitsUnique(sim: seq<real>, similarity: real, minGap: int, claimed: Option<seq<bool>>,
                         a: seq<int>, b: seq<int>)
    requires minGap >= 1
    requires claimed.Some? ==> |sim| <= |claimed.value|
    requires GreedyHits(sim, similarity, minGap, claimed, a) && GreedyHits(sim, similarity, minGap, claimed, b)
    ensures a == b
  {
    forall k | 0 <= k < |a| ensures k < |b| && b[k] <= a[k] {
      CoverBelow(a, b, minGap, k);
    }
    forall k | 0 <= k < |b| ensures k < |a| && a[k] <= b[k] {
      CoverBelow(b, a, minGap, k);
    }
    if |a| > |b| {
      assert |b| < |a|;
      CoverBelow(a, b, minGap, |b|);
    } else if |b| > |a| {
      CoverBelow(b, a, minGap, |a|);
    }
  }
}
