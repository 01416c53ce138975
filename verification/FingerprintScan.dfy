/** The known-pattern scan: a greedy walk over an episode's fingerprint, and its batched form. */
module FingerprintScan {
  import opened Basics
  import opened Popcount

  const MATCH_THRESHOLD := 0.65
  const MIN_SEGMENT_DURATION := 5.0
  const SLIDING_STEP_SIZE := 2.0
  const FINGERPRINT_CHUNK_SIZE := 10.0
  const BATCH_POSITIONS := 512

  /** A known fingerprint with its integers as int64 words in two's complement. */
  datatype Pattern = Pattern(id: int, ints: seq<bv64>, duration: real, sponsor: string, category: Option<string>)

  datatype Match = Match(patternId: int, start: real, end: real, confidence: real,
                         sponsor: string, category: Option<string>)

  // ----- Scalar similarity -----

  /** Bits that differ between the n integers of fp1 from s and the first n of fp2. */
  function SliceErrors(fp1: seq<bv64>, fp2: seq<bv64>, s: nat, n: nat): (r: nat)
    requires s + n <= |fp1| && n <= |fp2|
  {
    if n == 0 then 0 else SliceErrors(fp1, fp2, s, n - 1) + BitErrors(fp1[s + n - 1], fp2[n - 1])
  }

  /** How many integers the scalar comparison of fp1[s..e] with fp2 looks at; 0 as end means all of fp1. */
  function ComparedLength(fp1: seq<bv64>, fp2: seq<bv64>, s: nat, e: nat): int {
    if fp1 == [] || fp2 == [] then 0
    else MinInt((if e == 0 then |fp1| else e) - s, |fp2|)
  }

  /** The fraction of compared bits that agree, 0 when nothing is compared. */
  function Similarity(fp1: seq<bv64>, fp2: seq<bv64>, s: nat, e: nat): real
    requires e <= |fp1|
  {
    var n := ComparedLength(fp1, fp2, s, e);
    if n <= 0 then 0.0 else (32 * n - SliceErrors(fp1, fp2, s, n)) as real / (32 * n) as real
  }

  method CalculateSimilarity(fp1: seq<bv64>, fp2: seq<bv64>, s: nat, e: nat) returns (r: real)
    requires e <= |fp1|
    ensures r == Similarity(fp1, fp2, s, e)
  {
    hide BitCount;
    if fp1 == [] || fp2 == [] {
      return 0.0;
    }
    var end := if e == 0 then |fp1| else e;
    var minLen := MinInt(end - s, |fp2|);
    if minLen <= 0 {
      return 0.0;
    }
    var totalBits: int, matchingBits: int, i := 0, 0, 0;
    while i < minLen
      invariant 0 <= i <= minLen
      invariant totalBits == 32 * i
      invariant matchingBits == 32 * i - SliceErrors(fp1, fp2, s, i)
    {
      var diffBits := BitCount(Low(fp1[s + i] ^ fp2[i]));
      matchingBits := matchingBits + 32 - diffBits;
      totalBits := totalBits + 32;
      i := i + 1;
    }
    r := matchingBits as real / totalBits as real;
  }

  // ----- The walk -----

  /** Everything a scan is given; stopAfter is the iteration a timeout or cancel ends it at, if any. */
  datatype Scan = Scan(raw: seq<bv64>, intsPerSecond: real, patterns: seq<Pattern>, limit: real, stopAfter: Option<nat>)

  ghost predicate ValidScan(sc: Scan) {
    sc.intsPerSecond >= 0.0 && forall p :: p in sc.patterns ==> p.duration > 0.0
  }

  function IntsPerSecond(raw: seq<bv64>, fpDuration: real): (r: real)
    ensures r >= 0.0
  {
    if fpDuration > 0.0 then |raw| as real / fpDuration else 8.0
  }

  function StartIndex(sc: Scan, position: real): int {
    Truncate(position * sc.intsPerSecond)
  }

  function EndIndex(sc: Scan, position: real): int {
    MinInt(Truncate((position + FINGERPRINT_CHUNK_SIZE) * sc.intsPerSecond), |sc.raw|)
  }

  lemma IndexesInRange(sc: Scan, position: real)
    requires ValidScan(sc) && position >= 0.0
    ensures 0 <= StartIndex(sc, position) && 0 <= EndIndex(sc, position) <= |sc.raw|
  {
    assert position * sc.intsPerSecond >= 0.0;
    assert (position + FINGERPRINT_CHUNK_SIZE) * sc.intsPerSecond >= 0.0;
  }

  /** The first pattern from index i on whose similarity to raw[s..e] reaches the threshold. */
  function FirstMatch(sc: Scan, s: nat, e: nat, i: nat): (r: Option<nat>)
    requires e <= |sc.raw| && i <= |sc.patterns|
    ensures r.Some? ==> i <= r.value < |sc.patterns|
    decreases |sc.patterns| - i
  {
    if i == |sc.patterns| then None
    else if Similarity(sc.raw, sc.patterns[i].ints, s, e) >= MATCH_THRESHOLD then Some(i)
    else FirstMatch(sc, s, e, i + 1)
  }

  /** What one position of the walk yields: the pattern it matches, if any. */
  function MatchAt(sc: Scan, position: real): (r: Option<nat>)
    requires ValidScan(sc) && position >= 0.0
    ensures r.Some? ==> r.value < |sc.patterns|
  {
    IndexesInRange(sc, position);
    var s, e := StartIndex(sc, position), EndIndex(sc, position);
    if e - s < 4 then None else FirstMatch(sc, s, e, 0)
  }

  function MatchOf(sc: Scan, p: nat, position: real): Match
    requires ValidScan(sc) && position >= 0.0 && p < |sc.patterns|
  {
    IndexesInRange(sc, position);
    var pat := sc.patterns[p];
    Match(pat.id, position, position + pat.duration,
          Similarity(sc.raw, pat.ints, StartIndex(sc, position), EndIndex(sc, position)),
          pat.sponsor, pat.category)
  }

  predicate Running(sc: Scan, k: nat, position: real) {
    position < sc.limit && (sc.stopAfter.None? || k < sc.stopAfter.value)
  }

  /** The smallest distance one iteration can advance by. */
  function LeastAdvance(patterns: seq<Pattern>): (r: real)
    requires forall p :: p in patterns ==> p.duration > 0.0
    ensures 0.0 < r <= SLIDING_STEP_SIZE
    ensures forall p :: p in patterns ==> r <= p.duration
  {
    if patterns == [] then SLIDING_STEP_SIZE
    else MinReal(patterns[0].duration, LeastAdvance(patterns[1..]))
  }

  /** Bound on the iterations left: each one advances by at least LeastAdvance. */
  ghost function StepsLeft(sc: Scan, position: real): (r: nat)
    requires ValidScan(sc)
    ensures position < sc.limit ==> r > 0
  {
    if position >= sc.limit then 0
    else
      var d := LeastAdvance(sc.patterns);
      assert (sc.limit - position) / d >= 0.0;
      ((sc.limit - position) / d).Floor + 1
  }

  lemma ProductPositive(x: real, y: real)
    requires x > 0.0 && y > 0.0
    ensures x * y > 0.0
  {
  }

  lemma QuotientTimes(x: real, d: real)
    requires d > 0.0
    ensures (x / d) * d == x
  {
  }

  lemma Distribute(a: real, b: real, d: real)
    ensures (b - a + 1.0) * d == b * d - a * d + d
  {
  }

  lemma QuotientsApart(x: real, y: real, d: real)
    requires d > 0.0 && x - y >= d
    ensures y / d <= x / d - 1.0
  {
    var a, b := x / d, y / d;
    QuotientTimes(x, d);
    QuotientTimes(y, d);
    Distribute(a, b, d);
    if b - a + 1.0 > 0.0 {
      ProductPositive(b - a + 1.0, d);
      assert false;
    }
  }

  lemma AdvanceTakesAStep(sc: Scan, position: real, next: real)
    requires ValidScan(sc) && position < sc.limit
    requires next >= position + LeastAdvance(sc.patterns)
    ensures StepsLeft(sc, next) < StepsLeft(sc, position)
  {
    hide LeastAdvance;
    var d := LeastAdvance(sc.patterns);
    if next < sc.limit {
      QuotientsApart(sc.limit - position, sc.limit - next, d);
    }
  }

  function NextPosition(sc: Scan, position: real): (r: real)
    requires ValidScan(sc) && position >= 0.0
    ensures r >= position + LeastAdvance(sc.patterns)
    ensures r >= 0.0
  {
    var m := MatchAt(sc, position);
    if m.Some? then position + sc.patterns[m.value].duration else position + SLIDING_STEP_SIZE
  }

  /** The simple walk: compare every pattern at every position, jump past a match, else step. */
  function Walk(sc: Scan, k: nat, position: real): seq<Match>
    requires ValidScan(sc) && position >= 0.0
    decreases StepsLeft(sc, position)
  {
    if !Running(sc, k, position) then []
    else
      AdvanceTakesAStep(sc, position, NextPosition(sc, position));
      var m := MatchAt(sc, position);
      (if m.Some? then [MatchOf(sc, m.value, position)] else [])
      + Walk(sc, k + 1, NextPosition(sc, position))
  }

  /** One iteration of the walk, and the measure it consumes. */
  lemma WalkUnfolds(sc: Scan, k: nat, position: real)
    requires ValidScan(sc) && position >= 0.0 && Running(sc, k, position)
    ensures StepsLeft(sc, NextPosition(sc, position)) < StepsLeft(sc, position)
    ensures Walk(sc, k, position)
         == (if MatchAt(sc, position).Some? then [MatchOf(sc, MatchAt(sc, position).value, position)] else [])
            + Walk(sc, k + 1, NextPosition(sc, position))
  {
    AdvanceTakesAStep(sc, position, NextPosition(sc, position));
  }

  // ----- The batch -----

  /** Running sums of a row: entry k is the total of the first k + 1 values. */
  function CumSum(xs: seq<nat>): (r: seq<nat>)
    ensures |r| == |xs|
  {
    if xs == [] then []
    else
      var before := CumSum(xs[..|xs| - 1]);
      before + [(if before == [] then 0 else before[|before| - 1]) + xs[|xs| - 1]]
  }

  /** One row of the gather: episode words from start, clipped in bounds, xored with the pattern. */
  function DiffRow(raw: seq<bv32>, pat: seq<bv32>, start: nat, lmax: nat): (r: seq<nat>)
    requires |raw| > 0 && lmax <= |pat|
    ensures |r| == lmax
  {
    seq(lmax, k requires 0 <= k < lmax => TablePopcount(raw[MinInt(start + k, |raw| - 1)] ^ pat[k]))
  }

  /** The batch's similarity at one position, read off the row's running sum. */
  function RowSimilarity(raw: seq<bv32>, pat: seq<bv32>, start: nat, length: int, lmax: nat): real
    requires lmax <= |pat| && length <= lmax
  {
    if lmax == 0 || |raw| == 0 || length <= 0 then 0.0
    else
      var csum := CumSum(DiffRow(raw, pat, start, lmax));
      var totalBits := 32 * MaxInt(length, 1);
      (totalBits - csum[MaxInt(length, 1) - 1]) as real / totalBits as real
  }

  function Words(ints: seq<bv64>): (r: seq<bv32>)
    ensures |r| == |ints|
  {
    seq(|ints|, i requires 0 <= i < |ints| => Low(ints[i]))
  }

  lemma {:induction false} CumSumStep(xs: seq<nat>, n: nat)
    requires 0 < n <= |xs|
    ensures CumSum(xs)[n - 1] == (if n > 1 then CumSum(xs)[n - 2] else 0) + xs[n - 1]
    decreases |xs|
  {
    if n < |xs| {
      CumSumStep(xs[..|xs| - 1], n);
    }
  }

  /** Entry k of the row, short of the episode's end, counts the scalar's bit errors at k. */
  lemma RowEntryIsBitErrors(raw: seq<bv64>, pat: seq<bv64>, start: nat, k: nat, lmax: nat)
    requires k < lmax <= |pat| && start + k < |raw|
    ensures DiffRow(Words(raw), Words(pat), start, lmax)[k] == BitErrors(raw[start + k], pat[k])
  {
    hide BitErrors, TablePopcount;
    TableErrorsAreBitErrors(raw[start + k], pat[k]);
  }

  /** The first n entries of the row are never clipped, and their running sum is the scalar slice error. */
  lemma {:induction false} RowSumIsSliceErrors(raw: seq<bv64>, pat: seq<bv64>, start: nat, n: nat, lmax: nat)
    requires 0 < n <= lmax <= |pat| && start + n <= |raw|
    ensures CumSum(DiffRow(Words(raw), Words(pat), start, lmax))[n - 1] == SliceErrors(raw, pat, start, n)
    decreases n
  {
    hide BitErrors, CumSum, DiffRow, Words;
    var row := DiffRow(Words(raw), Words(pat), start, lmax);
    RowEntryIsBitErrors(raw, pat, start, n - 1, lmax);
    CumSumStep(row, n);
    if n > 1 {
      RowSumIsSliceErrors(raw, pat, start, n - 1, lmax);
    }
    assert SliceErrors(raw, pat, start, 0) == 0;
  }

  /** A batch entry is the scalar similarity, except for rows whose end index is the scalar's default 0. */
  lemma RowSimilarityIsSimilarity(raw: seq<bv64>, pat: seq<bv64>, s: nat, e: nat, lmax: nat)
    requires e <= |raw| && MinInt(e - s, |pat|) <= lmax <= |pat|
    ensures RowSimilarity(Words(raw), Words(pat), s, MinInt(e - s, |pat|), lmax)
         == if e == 0 then 0.0 else Similarity(raw, pat, s, e)
  {
    hide BitErrors, TablePopcount;
    var n := MinInt(e - s, |pat|);
    if n > 0 {
      RowSumIsSliceErrors(raw, pat, s, n, lmax);
    }
  }

  /**
   * Nothing agrees from s on: the scalar compares to the end of the episode and
   * finds every bit wrong, or nothing to compare.
   */
  predicate NothingAgrees(raw: seq<bv64>, pat: seq<bv64>, s: nat) {
    var n := MinInt(|raw| - s, |pat|);
    n <= 0 || SliceErrors(raw, pat, s, n) == 32 * n
  }

  lemma BatchValueIsScalarExactly(raw: seq<bv64>, pat: seq<bv64>, s: nat, e: nat)
    requires e <= |raw|
    ensures (if e == 0 then 0.0 else Similarity(raw, pat, s, e)) == Similarity(raw, pat, s, e)
      <==> e != 0 || NothingAgrees(raw, pat, s)
  {
    hide SliceErrors;
    var n := ComparedLength(raw, pat, s, e);
    if n > 0 {
      QuotientIsZero((32 * n - SliceErrors(raw, pat, s, n)) as real, (32 * n) as real);
    }
  }

  lemma QuotientIsZero(x: real, d: real)
    requires d > 0.0
    ensures x / d == 0.0 <==> x == 0.0
  {
  }

  function GridPosition(pos0: real, j: nat): real {
    pos0 + SLIDING_STEP_SIZE * j as real
  }

  /** What a batch started at pos0 holds: indices and similarities of consecutive step positions. */
  ghost predicate BatchFor(sc: Scan, pos0: real, starts: seq<int>, ends: seq<int>, sims: seq<seq<real>>)
    requires ValidScan(sc) && pos0 >= 0.0
  {
    && |ends| == |starts| <= BATCH_POSITIONS
    && |sims| == |sc.patterns|
    && (forall p :: 0 <= p < |sims| ==> |sims[p]| == |starts|)
    && (forall j :: 0 <= j < |starts| ==>
          starts[j] == StartIndex(sc, GridPosition(pos0, j)) && ends[j] == EndIndex(sc, GridPosition(pos0, j)))
    && (forall j :: 0 <= j < |starts| ==> 0 <= starts[j] && 0 <= ends[j] <= |sc.raw|)
    && (forall p, j :: 0 <= p < |sims| && 0 <= j < |starts| ==>
          sims[p][j] == if ends[j] == 0 then 0.0 else Similarity(sc.raw, sc.patterns[p].ints, starts[j], ends[j]))
  }

  /** A batch entry is what the scalar says at its indices, exactly when its end index is not 0 or nothing agrees. */
  lemma BatchIsScalarExactly(sc: Scan, pos0: real, starts: seq<int>, ends: seq<int>, sims: seq<seq<real>>, p: nat,
                             j: nat)
    requires ValidScan(sc) && pos0 >= 0.0 && BatchFor(sc, pos0, starts, ends, sims)
    requires p < |sims| && j < |starts|
    ensures sims[p][j] == Similarity(sc.raw, sc.patterns[p].ints, starts[j], ends[j])
      <==> ends[j] != 0 || NothingAgrees(sc.raw, sc.patterns[p].ints, starts[j])
  {
    hide Similarity;
    BatchValueIsScalarExactly(sc.raw, sc.patterns[p].ints, starts[j], ends[j]);
  }

  /** One integer over twenty seconds. */
  const SPARSE := Scan([7], 0.05, [Pattern(1, [7], 5.0, "", None)], 15.0, None)

  /** A scan whose first end index is 0: any batch at its start says 0 where the scalar sees the pattern itself. */
  lemma EmptyRowDiffersFromScalar(starts: seq<int>, ends: seq<int>, sims: seq<seq<real>>)
    requires BatchFor(SPARSE, 0.0, starts, ends, sims) && starts != []
    ensures ends[0] == 0 && sims[0][0] == 0.0
      && Similarity(SPARSE.raw, SPARSE.patterns[0].ints, starts[0], ends[0]) == 1.0
  {
    assert GridPosition(0.0, 0) == 0.0;
    var raw, pat := SPARSE.raw, SPARSE.patterns[0].ints;
    assert BitErrors(raw[0], pat[0]) == 0 by {
      assert raw[0] ^ pat[0] == 0;
    }
    hide BitErrors;
    assert SliceErrors(raw, pat, 0, 0) == 0;
    assert SliceErrors(raw, pat, 0, 1) == 0;
  }

  function MaxOf(xs: seq<int>): (r: int)
    requires xs != []
    ensures forall i :: 0 <= i < |xs| ==> xs[i] <= r
  {
    if |xs| == 1 then xs[0] else MaxInt(xs[0], MaxOf(xs[1..]))
  }

  /** The step positions of one batch, by repeated addition. */
  method BatchPositions(pos0: real, limit: real) returns (positions: seq<real>)
    ensures |positions| <= BATCH_POSITIONS
    ensures pos0 < limit ==> |positions| > 0
    ensures forall j :: 0 <= j < |positions| ==> positions[j] == GridPosition(pos0, j)
  {
    positions := [];
    var p := pos0;
    while p < limit && |positions| < BATCH_POSITIONS
      invariant |positions| <= BATCH_POSITIONS
      invariant p == GridPosition(pos0, |positions|)
      invariant forall j :: 0 <= j < |positions| ==> positions[j] == GridPosition(pos0, j)
      invariant |positions| == 0 ==> p == pos0
      decreases BATCH_POSITIONS - |positions|
    {
      positions := positions + [p];
      p := p + SLIDING_STEP_SIZE;
    }
  }

  function RowLengths(pat: seq<bv32>, starts: seq<int>, ends: seq<int>): (r: seq<int>)
    requires |starts| == |ends|
    ensures |r| == |starts|
  {
    seq(|starts|, j requires 0 <= j < |starts| => MinInt(ends[j] - starts[j], |pat|))
  }

  /** Columns the gather needs: the longest comparison in the batch. */
  function GatherWidth(pat: seq<bv32>, starts: seq<int>, ends: seq<int>): (r: nat)
    requires |starts| == |ends|
    ensures forall j :: 0 <= j < |starts| ==> RowLengths(pat, starts, ends)[j] <= r
    ensures r <= |pat|
  {
    var lengths := RowLengths(pat, starts, ends);
    if lengths == [] then 0 else MaxInt(0, MinInt(|pat|, MaxOf(lengths)))
  }

  /** One pattern's similarities at every position of the batch. */
  function BatchRow(raw: seq<bv32>, pat: seq<bv32>, starts: seq<int>, ends: seq<int>): (r: seq<real>)
    requires |starts| == |ends|
    requires forall j :: 0 <= j < |starts| ==> 0 <= starts[j]
    ensures |r| == |starts|
  {
    var lengths, lmax := RowLengths(pat, starts, ends), GatherWidth(pat, starts, ends);
    seq(|starts|, j requires 0 <= j < |starts| => RowSimilarity(raw, pat, starts[j], lengths[j], lmax))
  }

  lemma BatchRowEntry(raw: seq<bv64>, ints: seq<bv64>, starts: seq<int>, ends: seq<int>, j: nat)
    requires |starts| == |ends| && j < |starts|
    requires forall i :: 0 <= i < |starts| ==> 0 <= starts[i]
    requires 0 <= ends[j] <= |raw|
    ensures BatchRow(Words(raw), Words(ints), starts, ends)[j]
         == if ends[j] == 0 then 0.0 else Similarity(raw, ints, starts[j], ends[j])
  {
    hide Similarity, RowSimilarity, Low, GatherWidth;
    assert RowLengths(Words(ints), starts, ends)[j] <= GatherWidth(Words(ints), starts, ends);
    RowSimilarityIsSimilarity(raw, ints, starts[j], ends[j], GatherWidth(Words(ints), starts, ends));
  }

  method BatchRun(sc: Scan, pos0: real) returns (starts: seq<int>, ends: seq<int>, sims: seq<seq<real>>)
    requires ValidScan(sc) && pos0 >= 0.0
    ensures BatchFor(sc, pos0, starts, ends, sims)
    ensures pos0 < sc.limit ==> |starts| > 0
  {
    hide Similarity, StartIndex, EndIndex, BatchRow, Words;
    var positions := BatchPositions(pos0, sc.limit);
    var count := |positions|;
    starts := seq(count, j requires 0 <= j < count => StartIndex(sc, positions[j]));
    ends := seq(count, j requires 0 <= j < count => EndIndex(sc, positions[j]));
    forall j | 0 <= j < count ensures 0 <= starts[j] && 0 <= ends[j] <= |sc.raw| {
      IndexesInRange(sc, positions[j]);
    }
    sims := [];
    while |sims| < |sc.patterns|
      invariant |sims| <= |sc.patterns|
      invariant forall q :: 0 <= q < |sims| ==> |sims[q]| == count
      invariant forall q, j :: 0 <= q < |sims| && 0 <= j < count ==>
        sims[q][j] == if ends[j] == 0 then 0.0 else Similarity(sc.raw, sc.patterns[q].ints, starts[j], ends[j])
      decreases |sc.patterns| - |sims|
    {
      var ints := sc.patterns[|sims|].ints;
      var row := BatchRow(Words(sc.raw), Words(ints), starts, ends);
      forall j | 0 <= j < count
        ensures row[j] == if ends[j] == 0 then 0.0 else Similarity(sc.raw, ints, starts[j], ends[j])
      {
        BatchRowEntry(sc.raw, ints, starts, ends, j);
      }
      sims := sims + [row];
    }
  }

  /** The batched scan before its matches are merged: exactly the simple walk, for every input and stop point. */
  method ScanBatched(sc: Scan) returns (matches: seq<Match>)
    requires ValidScan(sc)
    ensures matches == Walk(sc, 0, 0.0)
  {
    hide Similarity, StepsLeft, StartIndex, EndIndex, Walk;
    matches := [];
    var position := 0.0;
    var k := 0;
    var runStarts: Option<seq<int>> := None;
    var runEnds: seq<int> := [];
    var runSims: seq<seq<real>> := [];
    var runJ := 0;
    ghost var pos0 := 0.0;
    while Running(sc, k, position)
      invariant position >= 0.0 && pos0 >= 0.0
      invariant matches + Walk(sc, k, position) == Walk(sc, 0, 0.0)
      invariant runStarts.Some? ==> BatchFor(sc, pos0, runStarts.value, runEnds, runSims)
      invariant runStarts.Some? ==> 0 <= runJ && position == GridPosition(pos0, runJ)
      decreases StepsLeft(sc, position)
    {
      if runStarts.None? || runJ >= |runStarts.value| {
        var starts;
        starts, runEnds, runSims := BatchRun(sc, position);
        runStarts := Some(starts);
        runJ := 0;
        pos0 := position;
      }
      var startIdx, endIdx := runStarts.value[runJ], runEnds[runJ];
      WalkUnfolds(sc, k, position);
      ghost var rest := Walk(sc, k + 1, NextPosition(sc, position));
      k := k + 1;
      if endIdx - startIdx < 4 {
        assert [] + rest == rest;
        position := position + SLIDING_STEP_SIZE;
        runJ := runJ + 1;
        continue;
      }
      var found := FirstInBatch(sc, runSims, runJ, startIdx, endIdx);
      if found.Some? {
        var pat := sc.patterns[found.value];
        var hit := Match(pat.id, position, position + pat.duration, runSims[found.value][runJ], pat.sponsor,
                         pat.category);
        assert matches + ([hit] + rest) == (matches + [hit]) + rest;
        matches := matches + [hit];
        position := position + pat.duration;
        runStarts := None;
      } else {
        assert [] + rest == rest;
        position := position + SLIDING_STEP_SIZE;
        runJ := runJ + 1;
      }
    }
    assert Walk(sc, k, position) == [] by {
      WalkEnds(sc, k, position);
    }
  }

  lemma WalkEnds(sc: Scan, k: nat, position: real)
    requires ValidScan(sc) && position >= 0.0 && !Running(sc, k, position)
    ensures Walk(sc, k, position) == []
  {
  }

  /** The pattern loop over one batch column. */
  method FirstInBatch(sc: Scan, sims: seq<seq<real>>, j: nat, s: nat, e: nat) returns (r: Option<nat>)
    requires 0 < e <= |sc.raw| && |sims| == |sc.patterns|
    requires forall p :: 0 <= p < |sims| ==>
      j < |sims[p]| && sims[p][j] == Similarity(sc.raw, sc.patterns[p].ints, s, e)
    ensures r == FirstMatch(sc, s, e, 0)
  {
    hide Similarity;
    var i := 0;
    while i < |sims|
      invariant 0 <= i <= |sims|
      invariant FirstMatch(sc, s, e, 0) == FirstMatch(sc, s, e, i)
    {
      if sims[i][j] >= MATCH_THRESHOLD {
        return Some(i);
      }
      i := i + 1;
    }
    r := None;
  }
}
