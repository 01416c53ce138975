/** What the walk finds, merging its matches, and the whole finder. */
module FingerprintMatches {
  import opened Basics
  import opened FingerprintScan
  import opened Popcount

  // ----- What the walk finds -----

  /** s and e bound the integers of the ten seconds from t on, up to the end of the episode. */
  ghost predicate SliceAt(sc: Scan, t: real, s: nat, e: nat) {
    && s as real <= t * sc.intsPerSecond < s as real + 1.0
    && e <= |sc.raw| && e as real <= (t + FINGERPRINT_CHUNK_SIZE) * sc.intsPerSecond
    && (e == |sc.raw| || (t + FINGERPRINT_CHUNK_SIZE) * sc.intsPerSecond < e as real + 1.0)
  }

  /** Pattern p clears the threshold on at least four integers. */
  ghost predicate Clears(sc: Scan, p: nat, s: nat, e: nat) {
    && p < |sc.patterns| && e <= |sc.raw| && e - s >= 4
    && Similarity(sc.raw, sc.patterns[p].ints, s, e) >= MATCH_THRESHOLD
  }

  ghost predicate NothingClears(sc: Scan, t: real) {
    forall p, s, e :: SliceAt(sc, t, s, e) ==> !Clears(sc, p, s, e)
  }

  /** m is what the first pattern that clears the threshold on s..e makes of it. */
  ghost predicate HitBy(sc: Scan, m: Match, p: nat, s: nat, e: nat) {
    && Clears(sc, p, s, e) && (forall q: nat :: q < p ==> !Clears(sc, q, s, e))
    && m.patternId == sc.patterns[p].id && m.end == m.start + sc.patterns[p].duration
    && m.confidence == Similarity(sc.raw, sc.patterns[p].ints, s, e)
    && m.sponsor == sc.patterns[p].sponsor && m.category == sc.patterns[p].category
  }

  ghost predicate Hit(sc: Scan, m: Match) {
    exists p, s, e :: SliceAt(sc, m.start, s, e) && HitBy(sc, m, p, s, e)
  }

  lemma SliceIsAt(sc: Scan, t: real)
    requires ValidScan(sc) && t >= 0.0
    ensures 0 <= StartIndex(sc, t) && 0 <= EndIndex(sc, t)
    ensures forall s, e :: SliceAt(sc, t, s, e) <==> s == StartIndex(sc, t) && e == EndIndex(sc, t)
  {
    IndexesInRange(sc, t);
    assert (t + FINGERPRINT_CHUNK_SIZE) * sc.intsPerSecond >= 0.0;
  }

  /** The walk's matches clear the threshold and each starts no earlier than the one before it ends. */
  lemma {:induction false} WalkMatchesFollow(sc: Scan, k: nat, position: real)
    requires ValidScan(sc) && position >= 0.0
    ensures forall i :: 0 <= i < |Walk(sc, k, position)| ==>
      var m := Walk(sc, k, position)[i];
      position <= m.start < m.end && m.start < sc.limit && m.confidence >= MATCH_THRESHOLD
    ensures forall i, j :: 0 <= i < j < |Walk(sc, k, position)| ==>
      Walk(sc, k, position)[i].end <= Walk(sc, k, position)[j].start
    decreases StepsLeft(sc, position)
  {
    hide Similarity, StepsLeft, StartIndex, EndIndex;
    if Running(sc, k, position) {
      WalkUnfolds(sc, k, position);
      WalkMatchesFollow(sc, k + 1, NextPosition(sc, position));
      var m := MatchAt(sc, position);
      if m.Some? {
        MatchClears(sc, position);
      }
    }
  }

  lemma {:induction false} FirstMatchClears(sc: Scan, s: nat, e: nat, i: nat)
    requires e <= |sc.raw| && i <= |sc.patterns|
    ensures var r := FirstMatch(sc, s, e, i);
      (r.Some? ==> Similarity(sc.raw, sc.patterns[r.value].ints, s, e) >= MATCH_THRESHOLD)
      && forall p :: i <= p < (if r.Some? then r.value else |sc.patterns|) ==>
           Similarity(sc.raw, sc.patterns[p].ints, s, e) < MATCH_THRESHOLD
    decreases |sc.patterns| - i
  {
    hide Similarity;
    if i < |sc.patterns| && Similarity(sc.raw, sc.patterns[i].ints, s, e) < MATCH_THRESHOLD {
      FirstMatchClears(sc, s, e, i + 1);
    }
  }

  lemma MatchClears(sc: Scan, position: real)
    requires ValidScan(sc) && position >= 0.0 && MatchAt(sc, position).Some?
    ensures MatchOf(sc, MatchAt(sc, position).value, position).confidence >= MATCH_THRESHOLD
  {
    IndexesInRange(sc, position);
    FirstMatchClears(sc, StartIndex(sc, position), EndIndex(sc, position), 0);
    hide Similarity, StartIndex, EndIndex;
  }

  /** One position of the walk: nothing clears there, or it yields the hit of the first pattern that does. */
  lemma MatchAtIsHit(sc: Scan, t: real)
    requires ValidScan(sc) && t >= 0.0
    ensures MatchAt(sc, t).None? ==> NothingClears(sc, t)
    ensures MatchAt(sc, t).Some? ==> Hit(sc, MatchOf(sc, MatchAt(sc, t).value, t))
  {
    SliceIsAt(sc, t);
    var s: nat, e: nat := StartIndex(sc, t), EndIndex(sc, t);
    hide SliceAt, Similarity, StartIndex, EndIndex, FirstMatch;
    assert SliceAt(sc, t, s, e);
    if e - s >= 4 {
      FirstMatchClears(sc, s, e, 0);
      var found := FirstMatch(sc, s, e, 0);
      if found.Some? {
        assert HitBy(sc, MatchOf(sc, found.value, t), found.value, s, e);
      }
    }
  }

  /** Where the step grid before match i begins: the end of the match before it. */
  ghost function Origin(from: real, ms: seq<Match>, i: nat): real
    requires i <= |ms|
  {
    if i == 0 then from else ms[i - 1].end
  }

  /** Positions looked at before the grid of match i begins: the steps to each earlier match, and the match itself. */
  ghost function Looks(ns: seq<nat>, i: nat): nat
    requires i <= |ns|
  {
    if i == 0 then 0 else Looks(ns, i - 1) + ns[i - 1] + 1
  }

  /** The look-th iteration takes place: no timeout or cancel came before. */
  ghost predicate InTime(sc: Scan, look: nat) { sc.stopAfter.None? || look < sc.stopAfter.value }

  /** Match i is the hit of a grid instant the scan reaches. */
  ghost predicate OnGrid(sc: Scan, k: nat, from: real, ms: seq<Match>, ns: seq<nat>, i: nat)
    requires |ns| == |ms| && i < |ms|
  {
    && ms[i].start == GridPosition(Origin(from, ms, i), ns[i]) < sc.limit
    && InTime(sc, k + Looks(ns, i) + ns[i]) && Hit(sc, ms[i])
  }

  /** At instant j of the grid before match i, or after the last match, no pattern clears, if the scan gets there. */
  ghost predicate Missed(sc: Scan, k: nat, from: real, ms: seq<Match>, ns: seq<nat>, i: nat, j: nat)
    requires |ns| == |ms| && i <= |ms|
  {
    var t := GridPosition(Origin(from, ms, i), j);
    t < sc.limit && InTime(sc, k + Looks(ns, i) + j) ==> NothingClears(sc, t)
  }

  /**
   * ms is every hit on the step grid that starts at from and again at each match's end; ns[i] steps lead to match i.
   */
  ghost predicate FindsAll(sc: Scan, k: nat, from: real, ms: seq<Match>, ns: seq<nat>) {
    && |ns| == |ms|
    && (forall i :: 0 <= i < |ms| ==> OnGrid(sc, k, from, ms, ns, i))
    && (forall i, j: nat :: 0 <= i <= |ms| && (i < |ms| ==> j < ns[i]) ==> Missed(sc, k, from, ms, ns, i, j))
  }

  lemma {:induction false} LooksAfterMatch(ns: seq<nat>, i: nat)
    requires i <= |ns|
    ensures Looks([0] + ns, i + 1) == Looks(ns, i) + 1
  {
    if i > 0 {
      LooksAfterMatch(ns, i - 1);
    }
  }

  lemma {:induction false} LooksAfterStep(ns: seq<nat>, i: nat)
    requires 0 < i <= |ns|
    ensures Looks(ns[0 := ns[0] + 1], i) == Looks(ns, i) + 1
  {
    if i > 1 {
      LooksAfterStep(ns, i - 1);
    }
  }

  lemma FindsAfterMatch(sc: Scan, k: nat, from: real, m: Match, rest: seq<Match>, ns: seq<nat>)
    requires FindsAll(sc, k + 1, m.end, rest, ns)
    requires m.start == from < sc.limit && InTime(sc, k) && Hit(sc, m)
    ensures FindsAll(sc, k, from, [m] + rest, [0] + ns)
  {
    hide Hit, NothingClears;
    var ms, steps := [m] + rest, [0] + ns;
    forall i | 0 <= i < |ms| ensures OnGrid(sc, k, from, ms, steps, i) {
      if i > 0 {
        LooksAfterMatch(ns, i - 1);
        assert OnGrid(sc, k + 1, m.end, rest, ns, i - 1);
      }
    }
    forall i, j: nat | 0 <= i <= |ms| && (i < |ms| ==> j < steps[i]) ensures Missed(sc, k, from, ms, steps, i, j) {
      LooksAfterMatch(ns, i - 1);
      assert Missed(sc, k + 1, m.end, rest, ns, i - 1, j);
    }
  }

  lemma FindsAfterStep(sc: Scan, k: nat, from: real, ms: seq<Match>, ns: seq<nat>) returns (steps: seq<nat>)
    requires FindsAll(sc, k + 1, from + SLIDING_STEP_SIZE, ms, ns)
    requires NothingClears(sc, from)
    ensures FindsAll(sc, k, from, ms, steps)
  {
    hide Hit, NothingClears;
    steps := if ns == [] then [] else ns[0 := ns[0] + 1];
    forall i | 0 <= i < |ms| ensures OnGrid(sc, k, from, ms, steps, i) {
      assert OnGrid(sc, k + 1, from + SLIDING_STEP_SIZE, ms, ns, i);
      if i > 0 {
        LooksAfterStep(ns, i);
      }
    }
    forall i, j: nat | 0 <= i <= |ms| && (i < |ms| ==> j < steps[i]) ensures Missed(sc, k, from, ms, steps, i, j) {
      if i > 0 {
        LooksAfterStep(ns, i);
        assert Missed(sc, k + 1, from + SLIDING_STEP_SIZE, ms, ns, i, j);
      } else if j > 0 {
        assert Missed(sc, k + 1, from + SLIDING_STEP_SIZE, ms, ns, 0, j - 1);
      }
    }
  }

  /** The walk finds exactly the hits of the step grid, up to where it is stopped. */
  lemma {:induction false} WalkFindsAll(sc: Scan, k: nat, from: real) returns (ns: seq<nat>)
    requires ValidScan(sc) && from >= 0.0
    ensures FindsAll(sc, k, from, Walk(sc, k, from), ns)
    decreases StepsLeft(sc, from)
  {
    hide FindsAll, StepsLeft, MatchAt, MatchOf, Hit, NothingClears;
    if Running(sc, k, from) {
      WalkUnfolds(sc, k, from);
      MatchAtIsHit(sc, from);
      var next, m := NextPosition(sc, from), MatchAt(sc, from);
      var rest := Walk(sc, k + 1, next);
      ns := WalkFindsAll(sc, k + 1, next);
      if m.Some? {
        MatchOfShape(sc, m.value, from);
        FindsAfterMatch(sc, k, from, MatchOf(sc, m.value, from), rest, ns);
        ns := [0] + ns;
      } else {
        assert [] + rest == rest;
        ns := FindsAfterStep(sc, k, from, rest, ns);
      }
    } else {
      ns := [];
      NothingToFind(sc, k, from);
    }
  }

  lemma MatchOfShape(sc: Scan, p: nat, t: real)
    requires ValidScan(sc) && t >= 0.0 && p < |sc.patterns|
    ensures MatchOf(sc, p, t).start == t && MatchOf(sc, p, t).end == t + sc.patterns[p].duration
  {
  }

  lemma NothingToFind(sc: Scan, k: nat, from: real)
    requires ValidScan(sc) && from >= 0.0 && !Running(sc, k, from)
    ensures Walk(sc, k, from) == [] && FindsAll(sc, k, from, [], [])
  {
    hide NothingClears;
  }

  lemma HitsAgree(sc: Scan, a: Match, b: Match)
    requires Hit(sc, a) && Hit(sc, b) && a.start == b.start
    ensures a == b
  {
    hide Clears;
    var p: nat, s: nat, e: nat :| SliceAt(sc, a.start, s, e) && HitBy(sc, a, p, s, e);
    var q: nat, u: nat, v: nat :| SliceAt(sc, b.start, u, v) && HitBy(sc, b, q, u, v);
    assert s == u;
    assert e == v;
    assert !(p < q) && !(q < p);
  }

  lemma HitIsNotMissed(sc: Scan, m: Match)
    requires Hit(sc, m)
    ensures !NothingClears(sc, m.start)
  {
    var p, s, e :| SliceAt(sc, m.start, s, e) && HitBy(sc, m, p, s, e);
  }

  /** The match of the first grid is not passed over: another list has a match there no later. */
  lemma FirstIsFound(sc: Scan, k: nat, from: real, ms: seq<Match>, ns: seq<nat>, xs: seq<Match>, ks: seq<nat>)
    requires FindsAll(sc, k, from, ms, ns) && FindsAll(sc, k, from, xs, ks) && ms != []
    ensures xs != [] && ks[0] <= ns[0]
  {
    hide Hit, NothingClears;
    assert OnGrid(sc, k, from, ms, ns, 0);
    HitIsNotMissed(sc, ms[0]);
    assert !Missed(sc, k, from, xs, ks, 0, ns[0]);
  }

  lemma {:induction false} LooksShift(ns: seq<nat>, i: nat)
    requires i < |ns|
    ensures Looks(ns, i + 1) == Looks(ns[1..], i) + ns[0] + 1
  {
    if i > 0 {
      LooksShift(ns, i - 1);
    }
  }

  lemma FindsTail(sc: Scan, k: nat, from: real, ms: seq<Match>, ns: seq<nat>)
    requires FindsAll(sc, k, from, ms, ns) && ms != []
    ensures FindsAll(sc, k + ns[0] + 1, ms[0].end, ms[1..], ns[1..])
  {
    hide Hit, NothingClears;
    var tail, steps, at := ms[1..], ns[1..], k + ns[0] + 1;
    forall i | 0 <= i < |tail| ensures OnGrid(sc, at, ms[0].end, tail, steps, i) {
      LooksShift(ns, i);
      assert OnGrid(sc, k, from, ms, ns, i + 1);
    }
    forall i, j: nat | 0 <= i <= |tail| && (i < |tail| ==> j < steps[i])
      ensures Missed(sc, at, ms[0].end, tail, steps, i, j)
    {
      LooksShift(ns, i);
      assert Missed(sc, k, from, ms, ns, i + 1, j);
    }
  }

  /** Only one list finds all hits of the grid, so being it says everything about the walk. */
  lemma {:induction false} FindsAllOnce(sc: Scan, k: nat, from: real, ms: seq<Match>, ns: seq<nat>, xs: seq<Match>,
                                        ks: seq<nat>)
    requires FindsAll(sc, k, from, ms, ns) && FindsAll(sc, k, from, xs, ks)
    ensures ms == xs
    decreases |ms|
  {
    hide FindsAll, Hit;
    if ms != [] || xs != [] {
      if ms != [] {
        FirstIsFound(sc, k, from, ms, ns, xs, ks);
      }
      FirstIsFound(sc, k, from, xs, ks, ms, ns);
      FirstIsFound(sc, k, from, ms, ns, xs, ks);
      FirstHits(sc, k, from, ms, ns);
      FirstHits(sc, k, from, xs, ks);
      HitsAgree(sc, ms[0], xs[0]);
      FindsTail(sc, k, from, ms, ns);
      FindsTail(sc, k, from, xs, ks);
      FindsAllOnce(sc, k + ns[0] + 1, ms[0].end, ms[1..], ns[1..], xs[1..], ks[1..]);
      assert ms == [ms[0]] + ms[1..] && xs == [xs[0]] + xs[1..];
    }
  }

  lemma FirstHits(sc: Scan, k: nat, from: real, ms: seq<Match>, ns: seq<nat>)
    requires FindsAll(sc, k, from, ms, ns) && ms != []
    ensures |ns| == |ms| && ms[0].start == GridPosition(from, ns[0]) && Hit(sc, ms[0])
  {
    assert OnGrid(sc, k, from, ms, ns, 0);
  }

  lemma {:induction false} SliceOfCopy(raw: seq<bv64>, ints: seq<bv64>, s: nat, n: nat)
    requires s + n <= |raw| && n <= |ints| && forall i :: 0 <= i < n ==> raw[s + i] == ints[i]
    ensures SliceErrors(raw, ints, s, n) == 0
  {
    hide BitErrors;
    if n > 0 {
      SliceOfCopy(raw, ints, s, n - 1);
      NoErrors(ints[n - 1]);
    }
  }

  lemma NoErrors(x: bv64)
    ensures BitErrors(x, x) == 0
  {
    assert x ^ x == 0;
  }

  /** A pattern whose integers open the slice clears the threshold. */
  lemma CopyClears(sc: Scan, p: nat, s: nat, e: nat)
    requires p < |sc.patterns| && e <= |sc.raw| && e - s >= 4
    requires var ints := sc.patterns[p].ints;
      ints != [] && forall i :: 0 <= i < MinInt(e - s, |ints|) ==> sc.raw[s + i] == ints[i]
    ensures Clears(sc, p, s, e) && Similarity(sc.raw, sc.patterns[p].ints, s, e) == 1.0
  {
    hide SliceErrors;
    var n := MinInt(e - s, |sc.patterns[p].ints|);
    SliceOfCopy(sc.raw, sc.patterns[p].ints, s, n);
    WholeShare(32 * n);
  }

  lemma WholeShare(n: int)
    requires n > 0
    ensures (n - 0) as real / n as real == 1.0
  {
  }

  /** A copy of a pattern at an instant the scan looks at starts a match, of that pattern or of an earlier one. */
  lemma CopiesAreFound(sc: Scan, ms: seq<Match>, ns: seq<nat>, i: nat, j: nat, p: nat, s: nat, e: nat)
    requires FindsAll(sc, 0, 0.0, ms, ns) && i <= |ms| && (i < |ms| ==> j <= ns[i])
    requires var t := GridPosition(Origin(0.0, ms, i), j);
      t < sc.limit && InTime(sc, Looks(ns, i) + j) && SliceAt(sc, t, s, e)
    requires p < |sc.patterns| && e - s >= 4
    requires var ints := sc.patterns[p].ints;
      ints != [] && forall x :: 0 <= x < MinInt(e - s, |ints|) ==> sc.raw[s + x] == ints[x]
    ensures i < |ms| && ms[i].start == GridPosition(Origin(0.0, ms, i), j)
  {
    CopyClears(sc, p, s, e);
    hide Clears, SliceAt;
    var t := GridPosition(Origin(0.0, ms, i), j);
    assert !NothingClears(sc, t);
    assert !Missed(sc, 0, 0.0, ms, ns, i, j);
    assert OnGrid(sc, 0, 0.0, ms, ns, i);
  }

  // ----- Merging the matches -----

  function FirstNonEmpty(a: string, b: string): string { if a != "" then a else b }

  function FirstCategory(a: Option<string>, b: Option<string>): Option<string> {
    if a.Some? && a.value != "" then a else b
  }

  function Join(current: Match, m: Match): Match {
    Match(current.patternId, current.start, MaxReal(current.end, m.end), MaxReal(current.confidence, m.confidence),
          FirstNonEmpty(current.sponsor, m.sponsor), FirstCategory(current.category, m.category))
  }

  const MERGE_TOLERANCE := 1.0

  function MergeFrom(current: Match, rest: seq<Match>): seq<Match>
    decreases |rest|
  {
    if rest == [] then [current]
    else if rest[0].start <= current.end + MERGE_TOLERANCE then MergeFrom(Join(current, rest[0]), rest[1..])
    else [current] + MergeFrom(rest[0], rest[1..])
  }

  function Merged(matches: seq<Match>): seq<Match> {
    if matches == [] then []
    else
      var sorted := SortBy(matches, (m: Match) => m.start);
      MergeFrom(sorted[0], sorted[1..])
  }

  method MergeOverlappingMatches(matches: seq<Match>) returns (merged: seq<Match>)
    ensures merged == Merged(matches)
  {
    if matches == [] {
      return [];
    }
    var sorted := SortBy(matches, (m: Match) => m.start);
    merged := [];
    var current := sorted[0];
    var i := 1;
    while i < |sorted|
      invariant 1 <= i <= |sorted|
      invariant merged + MergeFrom(current, sorted[i..]) == Merged(matches)
    {
      var m := sorted[i];
      assert sorted[i..][1..] == sorted[i + 1..];
      if m.start <= current.end + MERGE_TOLERANCE {
        current := Join(current, m);
      } else {
        assert merged + ([current] + MergeFrom(m, sorted[i + 1..]))
            == (merged + [current]) + MergeFrom(m, sorted[i + 1..]);
        merged := merged + [current];
        current := m;
      }
      i := i + 1;
    }
    merged := merged + [current];
  }

  // ----- What the found matches are -----

  ghost predicate Within(m: Match, o: Match) {
    o.start <= m.start && m.end <= o.end && m.confidence <= o.confidence
  }

  ghost predicate HeldBySome(m: Match, outs: seq<Match>) {
    exists i :: 0 <= i < |outs| && Within(m, outs[i])
  }

  /** t is audio of some match, or trails one by no more than the merge tolerance. */
  ghost predicate NearSome(t: real, ms: seq<Match>) {
    exists i :: 0 <= i < |ms| && ms[i].start <= t <= ms[i].end + MERGE_TOLERANCE
  }

  lemma HeldByLonger(m: Match, a: seq<Match>, b: seq<Match>)
    requires HeldBySome(m, b)
    ensures HeldBySome(m, a + b)
  {
    var i :| 0 <= i < |b| && Within(m, b[i]);
    assert Within(m, (a + b)[|a| + i]);
  }

  lemma NearLonger(t: real, a: seq<Match>, b: seq<Match>)
    requires NearSome(t, b)
    ensures NearSome(t, a + b)
  {
    var i :| 0 <= i < |b| && b[i].start <= t <= b[i].end + MERGE_TOLERANCE;
    assert (a + b)[|a| + i] == b[i];
  }

  /** Every match lies in one merged match whose confidence is no lower. */
  lemma {:induction false} MergeFromHolds(current: Match, rest: seq<Match>, m: Match)
    requires m == current || m in rest
    requires forall k :: 0 <= k < |rest| ==> current.start <= rest[k].start
    requires forall j, k :: 0 <= j < k < |rest| ==> rest[j].start <= rest[k].start
    ensures HeldBySome(m, MergeFrom(current, rest))
    decreases |rest|
  {
    if rest == [] {
      assert Within(m, [current][0]);
    } else if rest[0].start <= current.end + MERGE_TOLERANCE {
      var joined := Join(current, rest[0]);
      if m == current || m == rest[0] {
        MergeFromHolds(joined, rest[1..], joined);
        var outs := MergeFrom(joined, rest[1..]);
        var i :| 0 <= i < |outs| && Within(joined, outs[i]);
        assert Within(m, outs[i]);
      } else {
        MergeFromHolds(joined, rest[1..], m);
      }
    } else if m == current {
      assert Within(m, MergeFrom(current, rest)[0]);
    } else {
      MergeFromHolds(rest[0], rest[1..], m);
      HeldByLonger(m, [current], MergeFrom(rest[0], rest[1..]));
    }
  }

  lemma NearJoined(current: Match, m: Match, u: real, seen: seq<Match>)
    requires m.start <= current.end + MERGE_TOLERANCE
    requires Join(current, m).start <= u <= Join(current, m).end + MERGE_TOLERANCE
    requires u <= current.end + MERGE_TOLERANCE ==> NearSome(u, seen)
    ensures NearSome(u, seen + [m])
  {
    if u <= current.end + MERGE_TOLERANCE {
      var i :| 0 <= i < |seen| && seen[i].start <= u <= seen[i].end + MERGE_TOLERANCE;
      assert (seen + [m])[i] == seen[i];
    } else {
      assert (seen + [m])[|seen|] == m;
    }
  }

  /** Merging adds no time further than the tolerance past an original match. */
  lemma {:induction false} MergeFromAddsLittle(current: Match, rest: seq<Match>, o: Match, t: real, seen: seq<Match>)
    requires forall k :: 0 <= k < |rest| ==> current.start <= rest[k].start
    requires forall j, k :: 0 <= j < k < |rest| ==> rest[j].start <= rest[k].start
    requires forall u: real :: current.start <= u <= current.end + MERGE_TOLERANCE ==> NearSome(u, seen)
    requires o in MergeFrom(current, rest) && o.start <= t <= o.end
    ensures NearSome(t, seen + rest)
    decreases |rest|
  {
    if rest == [] {
      assert seen + rest == seen;
    } else if rest[0].start <= current.end + MERGE_TOLERANCE {
      var joined := Join(current, rest[0]);
      forall u: real | joined.start <= u <= joined.end + MERGE_TOLERANCE ensures NearSome(u, seen + [rest[0]]) {
        NearJoined(current, rest[0], u, seen);
      }
      MergeFromAddsLittle(joined, rest[1..], o, t, seen + [rest[0]]);
      assert seen + [rest[0]] + rest[1..] == seen + rest;
    } else if o == current {
      assert NearSome(t, seen);
      var i :| 0 <= i < |seen| && seen[i].start <= t <= seen[i].end + MERGE_TOLERANCE;
      assert (seen + rest)[i] == seen[i];
    } else {
      forall u: real | rest[0].start <= u <= rest[0].end + MERGE_TOLERANCE ensures NearSome(u, [rest[0]]) {
        assert [rest[0]][0] == rest[0];
      }
      MergeFromAddsLittle(rest[0], rest[1..], o, t, [rest[0]]);
      assert [rest[0]] + rest[1..] == rest;
      NearLonger(t, seen, rest);
    }
  }

  ghost predicate Separated(ms: seq<Match>) {
    forall i, j :: 0 <= i < j < |ms| ==> ms[i].end + MERGE_TOLERANCE < ms[j].start
  }

  lemma {:induction false} MergeFromSeparates(current: Match, rest: seq<Match>)
    requires current.start <= current.end && forall k :: 0 <= k < |rest| ==> rest[k].start <= rest[k].end
    requires forall k :: 0 <= k < |rest| ==> current.start <= rest[k].start
    requires forall j, k :: 0 <= j < k < |rest| ==> rest[j].start <= rest[k].start
    ensures Separated(MergeFrom(current, rest))
    ensures forall o :: o in MergeFrom(current, rest) ==> current.start <= o.start <= o.end
    decreases |rest|
  {
    if rest != [] {
      if rest[0].start <= current.end + MERGE_TOLERANCE {
        MergeFromSeparates(Join(current, rest[0]), rest[1..]);
      } else {
        MergeFromSeparates(rest[0], rest[1..]);
      }
    }
  }

  /** The scan's result: separated matches that hold every walk match and reach little past them. */
  lemma FoundMatches(sc: Scan)
    requires ValidScan(sc)
    ensures var walk := Walk(sc, 0, 0.0);
      && Separated(Merged(walk))
      && (forall m :: m in walk ==> HeldBySome(m, Merged(walk)))
      && (forall o, t: real :: o in Merged(walk) && o.start <= t <= o.end ==> NearSome(t, walk))
  {
    hide Similarity, StepsLeft, StartIndex, EndIndex, Walk, MergeFrom;
    var walk := Walk(sc, 0, 0.0);
    if walk != [] {
      WalkMatchesFollow(sc, 0, 0.0);
      var key := (m: Match) => m.start;
      SortByKeepsSorted(walk, key);
      var first, rest := walk[0], walk[1..];
      assert Merged(walk) == MergeFrom(first, rest);
      MergeFromSeparates(first, rest);
      forall m | m in walk ensures HeldBySome(m, Merged(walk)) {
        assert walk == [first] + rest;
        MergeFromHolds(first, rest, m);
      }
      forall o, t: real | o in Merged(walk) && o.start <= t <= o.end ensures NearSome(t, walk) {
        forall u: real | first.start <= u <= first.end + MERGE_TOLERANCE ensures NearSome(u, [first]) {
          assert [first][0] == first;
        }
        MergeFromAddsLittle(first, rest, o, t, [first]);
        assert [first] + rest == walk;
      }
    }
  }

  // ----- What the merged matches are -----

  ghost predicate Empty(c: Option<string>) { c.None? || c.value == "" }

  /** The sponsor of the first match that has one. */
  ghost predicate FirstSponsor(sponsor: string, run: seq<Match>) {
    if forall k :: 0 <= k < |run| ==> run[k].sponsor == "" then sponsor == ""
    else exists k :: 0 <= k < |run| && run[k].sponsor == sponsor != ""
                     && forall l :: 0 <= l < k ==> run[l].sponsor == ""
  }

  /** The category of the first match that has one, or else of the last match. */
  ghost predicate FirstCategoryOf(category: Option<string>, run: seq<Match>)
    requires run != []
  {
    if forall k :: 0 <= k < |run| ==> Empty(run[k].category) then category == run[|run| - 1].category
    else
      exists k :: 0 <= k < |run| && run[k].category == category && !Empty(category)
                  && forall l :: 0 <= l < k ==> Empty(run[l].category)
  }

  /** Match k begins within the tolerance of the end of an earlier one. */
  ghost predicate Continues(run: seq<Match>, k: nat)
    requires k < |run|
  {
    exists l :: 0 <= l < k && run[k].start <= run[l].end + MERGE_TOLERANCE
  }

  ghost predicate LatestEnd(end: real, run: seq<Match>) {
    (forall k :: 0 <= k < |run| ==> run[k].end <= end) && exists k :: 0 <= k < |run| && run[k].end == end
  }

  ghost predicate BestConfidence(confidence: real, run: seq<Match>) {
    && (forall k :: 0 <= k < |run| ==> run[k].confidence <= confidence)
    && exists k :: 0 <= k < |run| && run[k].confidence == confidence
  }

  /** o is a run merged: the first match's pattern and start, the latest end, the best confidence, the first labels. */
  ghost predicate RunOf(o: Match, run: seq<Match>) {
    && run != [] && o.start == run[0].start && o.patternId == run[0].patternId
    && LatestEnd(o.end, run) && BestConfidence(o.confidence, run)
    && FirstSponsor(o.sponsor, run) && FirstCategoryOf(o.category, run)
    && forall k :: 0 < k < |run| ==> Continues(run, k)
  }

  ghost predicate RunBetween(ms: seq<Match>, cuts: seq<nat>, outs: seq<Match>, i: nat)
    requires i < |outs| && |cuts| == |outs| + 1
  {
    cuts[i] < cuts[i + 1] <= |ms| && RunOf(outs[i], ms[cuts[i]..cuts[i + 1]])
  }

  /** outs are the runs of ms between the cuts, each beginning past the tolerance of the one before. */
  ghost predicate MergesRuns(ms: seq<Match>, cuts: seq<nat>, outs: seq<Match>) {
    && |cuts| == |outs| + 1 && cuts[0] == 0 && cuts[|outs|] == |ms|
    && (forall i :: 0 <= i < |outs| ==> RunBetween(ms, cuts, outs, i))
    && (forall i :: 0 < i < |outs| ==> outs[i].start > outs[i - 1].end + MERGE_TOLERANCE)
  }

  lemma EndsJoin(o: Match, run: seq<Match>, m: Match)
    requires RunOf(o, run)
    ensures LatestEnd(Join(o, m).end, run + [m]) && BestConfidence(Join(o, m).confidence, run + [m])
  {
    hide FirstSponsor, FirstCategoryOf, Continues;
    var all := run + [m];
    assert all[|run|] == m;
    var i :| 0 <= i < |run| && run[i].end == o.end;
    assert all[i] == run[i];
    var j :| 0 <= j < |run| && run[j].confidence == o.confidence;
    assert all[j] == run[j];
  }

  lemma SponsorsJoin(o: Match, run: seq<Match>, m: Match)
    requires FirstSponsor(o.sponsor, run)
    ensures FirstSponsor(Join(o, m).sponsor, run + [m])
  {
    var all := run + [m];
    assert all[|run|] == m;
    assert forall k :: 0 <= k < |run| ==> all[k] == run[k];
    if o.sponsor != "" {
      var i :| 0 <= i < |run| && run[i].sponsor == o.sponsor && forall l :: 0 <= l < i ==> run[l].sponsor == "";
      assert all[i].sponsor == o.sponsor;
    }
  }

  lemma CategoriesJoin(o: Match, run: seq<Match>, m: Match)
    requires run != [] && FirstCategoryOf(o.category, run)
    ensures FirstCategoryOf(Join(o, m).category, run + [m])
  {
    var all := run + [m];
    assert all[|run|] == m;
    assert forall k :: 0 <= k < |run| ==> all[k] == run[k];
    if !Empty(o.category) {
      var i :| 0 <= i < |run| && run[i].category == o.category && forall l :: 0 <= l < i ==> Empty(run[l].category);
      assert all[i].category == o.category;
    }
  }

  lemma RunJoins(o: Match, run: seq<Match>, m: Match)
    requires RunOf(o, run) && m.start <= o.end + MERGE_TOLERANCE
    ensures RunOf(Join(o, m), run + [m])
  {
    EndsJoin(o, run, m);
    SponsorsJoin(o, run, m);
    CategoriesJoin(o, run, m);
    hide FirstSponsor, FirstCategoryOf, BestConfidence;
    var all := run + [m];
    forall k | 0 < k < |all| ensures Continues(all, k) {
      if k < |run| {
        assert Continues(run, k);
        var l :| 0 <= l < k && run[k].start <= run[l].end + MERGE_TOLERANCE;
        assert all[l] == run[l] && all[k] == run[k];
      } else {
        var l :| 0 <= l < |run| && run[l].end == o.end;
        assert all[l] == run[l] && all[k] == m;
      }
    }
  }

  lemma RunAlone(m: Match)
    ensures RunOf(m, [m])
  {
    assert [m][0] == m;
  }

  lemma RunThenRuns(o: Match, run: seq<Match>, rest: seq<Match>, cuts: seq<nat>, outs: seq<Match>)
    requires RunOf(o, run) && MergesRuns(rest, cuts, outs)
    requires outs != [] ==> outs[0].start > o.end + MERGE_TOLERANCE
    ensures MergesRuns(run + rest, [0] + seq(|cuts|, i requires 0 <= i < |cuts| => cuts[i] + |run|), [o] + outs)
  {
    hide RunOf;
    var moved := seq(|cuts|, i requires 0 <= i < |cuts| => cuts[i] + |run|);
    var all, ms, los := [o] + outs, run + rest, [0] + moved;
    RunIsSome(o, run);
    forall i: nat | i < |all| ensures RunBetween(ms, los, all, i) {
      if i == 0 {
        assert los[1] == cuts[0] + |run| && ms[0..|run|] == run;
      } else {
        assert RunBetween(rest, cuts, outs, i - 1);
        SliceOfSum(run, rest, cuts[i - 1], cuts[i]);
      }
    }
  }

  lemma SliceOfSum(a: seq<Match>, b: seq<Match>, lo: nat, hi: nat)
    requires lo <= hi <= |b|
    ensures (a + b)[lo + |a|..hi + |a|] == b[lo..hi]
  {
  }

  lemma RunIsSome(o: Match, run: seq<Match>)
    requires RunOf(o, run)
    ensures run != []
  {
  }

  /** Merging goes on with an open run: its result is that run with what joins it, and the later runs. */
  lemma {:induction false} MergeFromIsRuns(current: Match, run: seq<Match>, rest: seq<Match>) returns (cuts: seq<nat>)
    requires RunOf(current, run)
    ensures MergesRuns(run + rest, cuts, MergeFrom(current, rest))
    decreases |rest|
  {
    hide RunOf;
    if rest == [] {
      cuts := [0, |run|];
      RunIsSome(current, run);
      assert (run + rest)[0..|run|] == run;
    } else if rest[0].start <= current.end + MERGE_TOLERANCE {
      RunJoins(current, run, rest[0]);
      cuts := MergeFromIsRuns(Join(current, rest[0]), run + [rest[0]], rest[1..]);
      assert run + [rest[0]] + rest[1..] == run + rest;
    } else {
      RunAlone(rest[0]);
      cuts := MergeFromIsRuns(rest[0], [rest[0]], rest[1..]);
      assert [rest[0]] + rest[1..] == rest;
      FirstStarts(rest[0], rest[1..]);
      RunThenRuns(current, run, rest, cuts, MergeFrom(rest[0], rest[1..]));
      cuts := [0] + seq(|cuts|, i requires 0 <= i < |cuts| => cuts[i] + |run|);
    }
  }

  lemma {:induction false} FirstStarts(current: Match, rest: seq<Match>)
    ensures MergeFrom(current, rest) != [] && MergeFrom(current, rest)[0].start == current.start
    decreases |rest|
  {
    if rest != [] && rest[0].start <= current.end + MERGE_TOLERANCE {
      FirstStarts(Join(current, rest[0]), rest[1..]);
    }
  }

  lemma MergedIsRuns(ms: seq<Match>) returns (cuts: seq<nat>)
    ensures MergesRuns(SortBy(ms, (m: Match) => m.start), cuts, Merged(ms))
  {
    hide RunOf, MergeFrom;
    var sorted := SortBy(ms, (m: Match) => m.start);
    if ms == [] {
      cuts := [0];
    } else {
      RunAlone(sorted[0]);
      cuts := MergeFromIsRuns(sorted[0], [sorted[0]], sorted[1..]);
      assert [sorted[0]] + sorted[1..] == sorted;
    }
  }

  /** The finder's result: every hit of the step grid, merged run by run. */
  ghost predicate Finds(sc: Scan, matches: seq<Match>) {
    exists ms, ns, cuts :: FindsAll(sc, 0, 0.0, ms, ns) && MergesRuns(ms, cuts, matches)
  }

  lemma WalkIsSorted(sc: Scan)
    requires ValidScan(sc)
    ensures SortBy(Walk(sc, 0, 0.0), (m: Match) => m.start) == Walk(sc, 0, 0.0)
  {
    hide Walk, SortBy;
    WalkMatchesFollow(sc, 0, 0.0);
    SortByKeepsSorted(Walk(sc, 0, 0.0), (m: Match) => m.start);
  }

  lemma MergedWalkFinds(sc: Scan)
    requires ValidScan(sc)
    ensures Finds(sc, Merged(Walk(sc, 0, 0.0)))
  {
    hide *;
    var ms := Walk(sc, 0, 0.0);
    var ns := WalkFindsAll(sc, 0, 0.0);
    WalkIsSorted(sc);
    var cuts := MergedIsRuns(ms);
    FindsThese(sc, ms, ns, cuts, Merged(ms));
  }

  lemma FindsThese(sc: Scan, ms: seq<Match>, ns: seq<nat>, cuts: seq<nat>, matches: seq<Match>)
    requires FindsAll(sc, 0, 0.0, ms, ns) && MergesRuns(ms, cuts, matches)
    ensures Finds(sc, matches)
  {
    hide FindsAll, MergesRuns;
  }

  method FindMatchesFast(raw: seq<bv64>, fpDuration: real, patterns: seq<Pattern>, totalDuration: real,
                         stopAfter: Option<nat>) returns (matches: seq<Match>)
    requires forall p :: p in patterns ==> p.duration > 0.0
    ensures var sc := Scan(raw, IntsPerSecond(raw, fpDuration), patterns, totalDuration - MIN_SEGMENT_DURATION,
                          stopAfter);
      matches == Merged(Walk(sc, 0, 0.0)) && Finds(sc, matches)
  {
    hide Walk, Merged, Finds, FindsAll, MergesRuns;
    var sc := Scan(raw, IntsPerSecond(raw, fpDuration), patterns, totalDuration - MIN_SEGMENT_DURATION, stopAfter);
    var found := ScanBatched(sc);
    matches := MergeOverlappingMatches(found);
    MergedWalkFinds(sc);
  }
}
