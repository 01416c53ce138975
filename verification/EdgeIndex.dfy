/** The transcript index a review asks about edges: bisection and prefix maxima over speech units. */
module EdgeIndex {
  import opened Basics
  import opened Spans

  const SUPPORTED_EDGE_GAP_S := 0.3

  // ----- Bisection -----

  ghost predicate Ascending(a: seq<real>) {
    forall i, j :: 0 <= i < j < |a| ==> a[i] <= a[j]
  }

  /** bisect_left: the first index whose value is not below x. */
  function BisectLeft(a: seq<real>, x: real, lo: nat, hi: nat): (r: nat)
    requires lo <= hi <= |a| && Ascending(a)
    requires forall i :: 0 <= i < lo ==> a[i] < x
    requires forall i :: hi <= i < |a| ==> a[i] >= x
    ensures r <= |a|
    ensures forall i :: 0 <= i < r ==> a[i] < x
    ensures forall i :: r <= i < |a| ==> a[i] >= x
    decreases hi - lo
  {
    if lo == hi then lo
    else
      var mid := (lo + hi) / 2;
      if a[mid] < x then BisectLeft(a, x, mid + 1, hi) else BisectLeft(a, x, lo, mid)
  }

  /** bisect_right: the first index whose value is above x. */
  function BisectRight(a: seq<real>, x: real, lo: nat, hi: nat): (r: nat)
    requires lo <= hi <= |a| && Ascending(a)
    requires forall i :: 0 <= i < lo ==> a[i] <= x
    requires forall i :: hi <= i < |a| ==> a[i] > x
    ensures r <= |a|
    ensures forall i :: 0 <= i < r ==> a[i] <= x
    ensures forall i :: r <= i < |a| ==> a[i] > x
    decreases hi - lo
  {
    if lo == hi then lo
    else
      var mid := (lo + hi) / 2;
      if x < a[mid] then BisectRight(a, x, lo, mid) else BisectRight(a, x, mid + 1, hi)
  }

  // ----- Sorting spans as Python sorts tuples -----

  predicate LexLe(a: Span, b: Span) {
    a.lo < b.lo || (a.lo == b.lo && a.hi <= b.hi)
  }

  ghost predicate LexSorted(ss: seq<Span>) {
    forall i, j :: 0 <= i < j < |ss| ==> LexLe(ss[i], ss[j])
  }

  function InsertLex(s: Span, ss: seq<Span>): (r: seq<Span>)
    ensures |r| == |ss| + 1
  {
    if ss == [] || LexLe(s, ss[0]) then [s] + ss else [ss[0]] + InsertLex(s, ss[1..])
  }

  function SortLex(ss: seq<Span>): (r: seq<Span>)
    ensures |r| == |ss|
  {
    if ss == [] then [] else InsertLex(ss[0], SortLex(ss[1..]))
  }

  lemma {:induction false} InsertLexMembers(s: Span, ss: seq<Span>)
    ensures forall x :: x in InsertLex(s, ss) <==> x == s || x in ss
  {
    if ss != [] && !LexLe(s, ss[0]) {
      InsertLexMembers(s, ss[1..]);
    }
  }

  lemma {:induction false} InsertLexSorted(s: Span, ss: seq<Span>)
    requires LexSorted(ss)
    ensures LexSorted(InsertLex(s, ss))
  {
    if ss != [] && !LexLe(s, ss[0]) {
      InsertLexSorted(s, ss[1..]);
      InsertLexMembers(s, ss[1..]);
      var rest := InsertLex(s, ss[1..]);
      forall j | 0 <= j < |rest| ensures LexLe(ss[0], rest[j]) {
        assert rest[j] in rest;
      }
    }
  }

  lemma {:induction false} SortLexSorts(ss: seq<Span>)
    ensures LexSorted(SortLex(ss))
    ensures forall x :: x in SortLex(ss) <==> x in ss
  {
    if ss != [] {
      SortLexSorts(ss[1..]);
      InsertLexSorted(ss[0], SortLex(ss[1..]));
      InsertLexMembers(ss[0], SortLex(ss[1..]));
    }
  }

  // ----- The index -----

  function Los(ss: seq<Span>): (r: seq<real>)
    ensures |r| == |ss|
  {
    seq(|ss|, i requires 0 <= i < |ss| => ss[i].lo)
  }

  function His(ss: seq<Span>): (r: seq<real>)
    ensures |r| == |ss|
  {
    seq(|ss|, i requires 0 <= i < |ss| => ss[i].hi)
  }

  /** accumulate(xs, max): entry k is the largest of the first k + 1 values. */
  function PrefixMax(xs: seq<real>): (r: seq<real>)
    ensures |r| == |xs|
  {
    if xs == [] then []
    else
      var init := PrefixMax(xs[..|xs| - 1]);
      init + [if init == [] then xs[0] else MaxReal(init[|init| - 1], xs[|xs| - 1])]
  }

  function Identity(): real -> real { (x: real) => x }

  /** Each word once, as a set holds them. */
  function Distinct(ss: seq<Span>): (r: seq<Span>)
    ensures forall x :: x in r <==> x in ss
  {
    if ss == [] then []
    else if ss[0] in ss[1..] then Distinct(ss[1..])
    else [ss[0]] + Distinct(ss[1..])
  }

  datatype Index = Index(units: seq<Span>, los: seq<real>, maxHis: seq<real>, unitHis: seq<real>,
                         words: seq<Span>, wordHis: seq<real>)

  /** What building an index establishes, and every query relies on. */
  ghost predicate Indexed(ix: Index) {
    && LexSorted(ix.units) && ix.los == Los(ix.units) && ix.maxHis == PrefixMax(His(ix.units))
    && ix.unitHis == SortBy(His(ix.units), Identity()) && ix.wordHis == SortBy(His(ix.words), Identity())
    && Ascending(ix.los) && Ascending(ix.unitHis) && Ascending(ix.wordHis)
  }

  function BuildIndex(units: seq<Span>, words: seq<Span>): (ix: Index)
    ensures Indexed(ix)
    ensures forall u :: u in ix.units <==> u in units
    ensures forall w :: w in ix.words <==> w in words
  {
    var sorted := SortLex(units);
    var distinct := Distinct(words);
    SortLexSorts(units);
    LosAscend(sorted);
    SortedEndsAscend(sorted);
    SortedEndsAscend(distinct);
    Index(sorted, Los(sorted), PrefixMax(His(sorted)), SortBy(His(sorted), Identity()),
          distinct, SortBy(His(distinct), Identity()))
  }

  lemma LosAscend(ss: seq<Span>)
    requires LexSorted(ss)
    ensures Ascending(Los(ss))
  {
    forall i, j | 0 <= i < j < |ss| ensures Los(ss)[i] <= Los(ss)[j] {
      assert LexLe(ss[i], ss[j]);
    }
  }

  lemma SortedEndsAscend(ss: seq<Span>)
    ensures Ascending(SortBy(His(ss), Identity()))
  {
    SortByIsSorted(His(ss), Identity());
    var his := SortBy(His(ss), Identity());
    forall i, j | 0 <= i < j < |his| ensures his[i] <= his[j] {
      assert Identity()(his[i]) <= Identity()(his[j]);
    }
  }

  lemma {:induction false} PrefixMaxAbove(xs: seq<real>, k: nat, x: real)
    requires k < |xs|
    ensures PrefixMax(xs)[k] > x <==> exists i :: 0 <= i <= k && xs[i] > x
  {
    var init := xs[..|xs| - 1];
    if k < |xs| - 1 {
      PrefixMaxAbove(init, k, x);
      assert forall i :: 0 <= i <= k ==> init[i] == xs[i];
    } else if k > 0 {
      PrefixMaxAbove(init, k - 1, x);
      assert forall i :: 0 <= i <= k - 1 ==> init[i] == xs[i];
      assert PrefixMax(xs)[k] == MaxReal(PrefixMax(init)[k - 1], xs[k]);
      if PrefixMax(init)[k - 1] > x {
        var i :| 0 <= i <= k - 1 && init[i] > x;
        assert xs[i] > x;
      }
    }
  }

  /** A span whose end is h. */
  ghost predicate SomeEnd(ss: seq<Span>, h: real) { exists i :: 0 <= i < |ss| && ss[i].hi == h }

  lemma SortedEnds(ss: seq<Span>, h: real)
    ensures h in SortBy(His(ss), Identity()) <==> SomeEnd(ss, h)
  {
    SortByMembers(His(ss), Identity());
    if SomeEnd(ss, h) {
      var i :| 0 <= i < |ss| && ss[i].hi == h;
      assert His(ss)[i] == h;
    }
  }

  lemma SameEnds(a: seq<Span>, b: seq<Span>, h: real)
    requires forall x :: x in a <==> x in b
    ensures SomeEnd(a, h) <==> SomeEnd(b, h)
  {
    if SomeEnd(a, h) {
      var i :| 0 <= i < |a| && a[i].hi == h;
      assert a[i] in b;
    }
    if SomeEnd(b, h) {
      var i :| 0 <= i < |b| && b[i].hi == h;
      assert b[i] in a;
    }
  }

  // ----- End edges -----

  predicate EdgeMatches(value: real, at: real) { AbsReal(value - at) <= EDGE_TOLERANCE }

  function Filter(xs: seq<real>, at: real): seq<real> {
    if xs == [] then []
    else Filter(xs[..|xs| - 1], at) + (if EdgeMatches(xs[|xs| - 1], at) then [xs[|xs| - 1]] else [])
  }

  /** Sorted ends within tolerance of at: a widened bisect window, then the exact test. */
  function MatchingEnds(his: seq<real>, at: real): seq<real>
    requires Ascending(his)
  {
    var lo := BisectLeft(his, at - 2.0 * EDGE_TOLERANCE, 0, |his|);
    var hi := BisectRight(his, at + 2.0 * EDGE_TOLERANCE, 0, |his|);
    if lo <= hi then Filter(his[lo..hi], at) else []
  }

  lemma {:induction false} FilterKeeps(xs: seq<real>, at: real)
    requires Ascending(xs)
    ensures forall x :: x in Filter(xs, at) <==> x in xs && EdgeMatches(x, at)
    ensures Ascending(Filter(xs, at))
  {
    if xs != [] {
      var init := xs[..|xs| - 1];
      FilterKeeps(init, at);
      assert forall x :: x in xs <==> x in init || x == xs[|xs| - 1];
      forall i | 0 <= i < |Filter(init, at)| ensures Filter(init, at)[i] <= xs[|xs| - 1] {
        assert Filter(init, at)[i] in init;
      }
    }
  }

  lemma MatchingEndsAreAll(his: seq<real>, at: real)
    requires Ascending(his)
    ensures forall h :: h in MatchingEnds(his, at) <==> h in his && EdgeMatches(h, at)
    ensures Ascending(MatchingEnds(his, at))
  {
    hide BisectLeft, BisectRight, Filter;
    var lo := BisectLeft(his, at - 2.0 * EDGE_TOLERANCE, 0, |his|);
    var hi := BisectRight(his, at + 2.0 * EDGE_TOLERANCE, 0, |his|);
    assert hi < |his| ==> his[hi] > at + 2.0 * EDGE_TOLERANCE;
    assert lo <= hi;
    var window := his[lo..hi];
    FilterKeeps(window, at);
    forall h | h in his && EdgeMatches(h, at) ensures h in window {
      var i :| 0 <= i < |his| && his[i] == h;
      assert lo <= i < hi;
      assert window[i - lo] == h;
    }
  }

  predicate EndEdgeSupported(ix: Index, at: real, was: real)
    requires Indexed(ix)
  {
    var matched := MatchingEnds(ix.wordHis, at);
    if at >= was - EDGE_TOLERANCE || matched == [] then false
    else
      var edge := matched[|matched| - 1];
      var after := BisectRight(ix.los, edge - EDGE_TOLERANCE, 0, |ix.los|);
      var before := BisectLeft(ix.los, edge - EDGE_TOLERANCE, 0, |ix.los|);
      var crossed := before > 0 && ix.maxHis[before - 1] > edge + EDGE_TOLERANCE;
      !crossed && (after == |ix.los| || ix.los[after] - edge >= SUPPORTED_EDGE_GAP_S)
  }

  /** edge is the latest timed word end within tolerance of at. */
  ghost predicate LatestWordEnd(words: seq<Span>, at: real, edge: real) {
    && SomeEnd(words, edge) && EdgeMatches(edge, at)
    && forall h :: SomeEnd(words, h) && EdgeMatches(h, at) ==> h <= edge
  }

  predicate Straddles(u: Span, edge: real) {
    u.lo < edge - EDGE_TOLERANCE && u.hi > edge + EDGE_TOLERANCE
  }

  /** The plain statement: inward onto a word end, no unit across it, a pause before the next unit. */
  ghost predicate InwardOntoPause(units: seq<Span>, words: seq<Span>, at: real, was: real, edge: real) {
    && at < was - EDGE_TOLERANCE
    && LatestWordEnd(words, at, edge)
    && (forall u :: u in units ==> !Straddles(u, edge))
    && (forall u :: u in units && u.lo > edge - EDGE_TOLERANCE ==> u.lo - edge >= SUPPORTED_EDGE_GAP_S)
  }

  ghost predicate EndOnPause(units: seq<Span>, words: seq<Span>, at: real, was: real) {
    exists edge :: InwardOntoPause(units, words, at, was, edge)
  }

  lemma CrossedAgrees(ix: Index, units: seq<Span>, words: seq<Span>, edge: real)
    requires ix == BuildIndex(units, words)
    ensures var before := BisectLeft(ix.los, edge - EDGE_TOLERANCE, 0, |ix.los|);
      (before > 0 && ix.maxHis[before - 1] > edge + EDGE_TOLERANCE) <==> exists u :: u in units && Straddles(u, edge)
  {
    hide BisectLeft, PrefixMax, SortBy, BuildIndex;
    var his := His(ix.units);
    var before := BisectLeft(ix.los, edge - EDGE_TOLERANCE, 0, |ix.los|);
    if before > 0 {
      PrefixMaxAbove(his, before - 1, edge + EDGE_TOLERANCE);
      if ix.maxHis[before - 1] > edge + EDGE_TOLERANCE {
        var i :| 0 <= i <= before - 1 && his[i] > edge + EDGE_TOLERANCE;
        assert ix.los[i] < edge - EDGE_TOLERANCE;
        assert ix.units[i] in units && Straddles(ix.units[i], edge);
      }
    }
    if exists u :: u in units && Straddles(u, edge) {
      var u :| u in units && Straddles(u, edge);
      assert u in ix.units;
      var i :| 0 <= i < |ix.units| && ix.units[i] == u;
      assert ix.los[i] < edge - EDGE_TOLERANCE;
      assert i < before && his[i] > edge + EDGE_TOLERANCE;
    }
  }

  lemma GapAgrees(ix: Index, units: seq<Span>, words: seq<Span>, edge: real)
    requires ix == BuildIndex(units, words)
    ensures var after := BisectRight(ix.los, edge - EDGE_TOLERANCE, 0, |ix.los|);
      (after == |ix.los| || ix.los[after] - edge >= SUPPORTED_EDGE_GAP_S)
      <==> forall u :: u in units && u.lo > edge - EDGE_TOLERANCE ==> u.lo - edge >= SUPPORTED_EDGE_GAP_S
  {
    hide BisectRight, SortLex, PrefixMax, SortBy, Distinct;
    var after := BisectRight(ix.los, edge - EDGE_TOLERANCE, 0, |ix.los|);
    if after == |ix.los| || ix.los[after] - edge >= SUPPORTED_EDGE_GAP_S {
      forall u | u in units && u.lo > edge - EDGE_TOLERANCE ensures u.lo - edge >= SUPPORTED_EDGE_GAP_S {
        assert u in ix.units;
        var i :| 0 <= i < |ix.units| && ix.units[i] == u;
        assert ix.los[i] == u.lo;
        assert after <= i;
        assert ix.los[after] <= ix.los[i];
      }
    } else {
      assert ix.units[after] in units && ix.units[after].lo == ix.los[after];
    }
  }

  lemma LatestAgrees(ix: Index, units: seq<Span>, words: seq<Span>, at: real, edge: real)
    requires ix == BuildIndex(units, words)
    ensures var matched := MatchingEnds(ix.wordHis, at);
      LatestWordEnd(words, at, edge) <==> matched != [] && matched[|matched| - 1] == edge
  {
    hide MatchingEnds, BuildIndex, EdgeMatches;
    var matched := MatchingEnds(ix.wordHis, at);
    MatchingEndsAreAll(ix.wordHis, at);
    forall h ensures h in ix.wordHis <==> SomeEnd(words, h) {
      SortedEnds(ix.words, h);
      SameEnds(ix.words, words, h);
    }
    if LatestWordEnd(words, at, edge) {
      assert edge in matched;
      var i :| 0 <= i < |matched| && matched[i] == edge;
      assert matched[|matched| - 1] in matched;
    }
    if matched != [] && matched[|matched| - 1] == edge {
      assert edge in matched;
      forall h | SomeEnd(words, h) && EdgeMatches(h, at) ensures h <= edge {
        assert h in matched;
        var i :| 0 <= i < |matched| && matched[i] == h;
      }
    }
  }

  /** The index agrees with brute force over every unit and word. */
  lemma EndEdgeAgreesWithBruteForce(units: seq<Span>, words: seq<Span>, at: real, was: real)
    ensures EndEdgeSupported(BuildIndex(units, words), at, was)
      <==> EndOnPause(units, words, at, was)
  {
    hide BuildIndex, BisectLeft, BisectRight, LatestWordEnd, Straddles, MatchingEnds;
    var ix := BuildIndex(units, words);
    var matched := MatchingEnds(ix.wordHis, at);
    if matched != [] {
      var edge := matched[|matched| - 1];
      LatestAgrees(ix, units, words, at, edge);
      CrossedAgrees(ix, units, words, edge);
      GapAgrees(ix, units, words, edge);
      assert EndEdgeSupported(ix, at, was) <==> InwardOntoPause(units, words, at, was, edge);
    }
    if EndOnPause(units, words, at, was) {
      var edge :| InwardOntoPause(units, words, at, was, edge);
      LatestAgrees(ix, units, words, at, edge);
    }
  }

  // ----- Start edges: end edges on the negated timeline -----

  function Negate(s: Span): Span { Span(-s.hi, -s.lo) }

  function Negated(ss: seq<Span>): (r: seq<Span>)
    ensures |r| == |ss|
    ensures forall i :: 0 <= i < |ss| ==> r[i] == Negate(ss[i])
  {
    seq(|ss|, i requires 0 <= i < |ss| => Negate(ss[i]))
  }

  lemma NegatedMembers(ss: seq<Span>, s: Span)
    ensures Negate(s) in Negated(ss) <==> s in ss
    ensures Negate(Negate(s)) == s
  {
    if s in ss {
      var i :| 0 <= i < |ss| && ss[i] == s;
      assert Negated(ss)[i] == Negate(s);
    }
    if Negate(s) in Negated(ss) {
      var i :| 0 <= i < |ss| && Negated(ss)[i] == Negate(s);
      assert ss[i] == s;
    }
  }

  ghost predicate SomeStart(ss: seq<Span>, t: real) { exists i :: 0 <= i < |ss| && ss[i].lo == t }

  lemma NegatedEnds(ss: seq<Span>, h: real)
    ensures SomeEnd(Negated(ss), h) <==> SomeStart(ss, -h)
  {
    if SomeEnd(Negated(ss), h) {
      var i :| 0 <= i < |ss| && Negated(ss)[i].hi == h;
      assert ss[i].lo == -h;
    }
    if SomeStart(ss, -h) {
      var i :| 0 <= i < |ss| && ss[i].lo == -h;
      assert Negated(ss)[i].hi == h;
    }
  }

  /** The mirrored statement for a start edge: inward onto a word start, a pause after the unit before. */
  ghost predicate StartInwardOntoPause(units: seq<Span>, words: seq<Span>, at: real, was: real, edge: real) {
    && at > was + EDGE_TOLERANCE
    && SomeStart(words, edge) && EdgeMatches(edge, at)
    && (forall t :: SomeStart(words, t) && EdgeMatches(t, at) ==> edge <= t)
    && (forall u :: u in units ==> !Straddles(u, edge))
    && (forall u :: u in units && u.hi < edge + EDGE_TOLERANCE ==> edge - u.hi >= SUPPORTED_EDGE_GAP_S)
  }

  lemma NegatedWordsAndUnits(units: seq<Span>, words: seq<Span>)
    ensures forall h :: SomeEnd(Negated(words), h) <==> SomeStart(words, -h)
    ensures forall u :: Negate(u) in Negated(units) <==> u in units
  {
    hide SomeEnd, SomeStart, Negated;
    forall h ensures SomeEnd(Negated(words), h) <==> SomeStart(words, -h) {
      NegatedEnds(words, h);
    }
    forall u ensures Negate(u) in Negated(units) <==> u in units {
      NegatedMembers(units, u);
    }
  }

  lemma NegatedPauseIsPause(units: seq<Span>, words: seq<Span>, at: real, was: real, edge: real)
    requires InwardOntoPause(Negated(units), Negated(words), -at, -was, -edge)
    ensures StartInwardOntoPause(units, words, at, was, edge)
  {
    hide SomeEnd, SomeStart, Negated;
    NegatedWordsAndUnits(units, words);
    assert -(-edge) == edge;
    forall t | SomeStart(words, t) && EdgeMatches(t, at) ensures edge <= t {
      assert -(-t) == t;
      assert SomeEnd(Negated(words), -t) && EdgeMatches(-t, -at);
    }
    forall u | u in units
      ensures !Straddles(u, edge)
      ensures u.hi < edge + EDGE_TOLERANCE ==> edge - u.hi >= SUPPORTED_EDGE_GAP_S
    {
      assert Negate(u) in Negated(units);
    }
  }

  lemma PauseIsNegatedPause(units: seq<Span>, words: seq<Span>, at: real, was: real, edge: real)
    requires StartInwardOntoPause(units, words, at, was, edge)
    ensures InwardOntoPause(Negated(units), Negated(words), -at, -was, -edge)
  {
    hide SomeEnd, SomeStart, Negated;
    NegatedWordsAndUnits(units, words);
    assert -(-edge) == edge;
    forall u | u in Negated(units)
      ensures !Straddles(u, -edge)
      ensures u.lo > -edge - EDGE_TOLERANCE ==> u.lo + edge >= SUPPORTED_EDGE_GAP_S
    {
      NegatedMembers(units, Negate(u));
      assert Negate(u) in units;
    }
    assert forall h :: SomeEnd(Negated(words), h) && EdgeMatches(h, -at) ==> EdgeMatches(-h, at);
  }

  lemma NegatedPause(units: seq<Span>, words: seq<Span>, at: real, was: real, edge: real)
    ensures InwardOntoPause(Negated(units), Negated(words), -at, -was, -edge)
      <==> StartInwardOntoPause(units, words, at, was, edge)
  {
    hide InwardOntoPause, StartInwardOntoPause;
    if InwardOntoPause(Negated(units), Negated(words), -at, -was, -edge) {
      NegatedPauseIsPause(units, words, at, was, edge);
    }
    if StartInwardOntoPause(units, words, at, was, edge) {
      PauseIsNegatedPause(units, words, at, was, edge);
    }
  }

  ghost predicate StartOnPause(units: seq<Span>, words: seq<Span>, at: real, was: real) {
    exists edge :: StartInwardOntoPause(units, words, at, was, edge)
  }

  /** Asking about a start edge on the negated timeline answers the mirrored question. */
  lemma StartEdgeAgreesWithBruteForce(units: seq<Span>, words: seq<Span>, at: real, was: real)
    ensures EndEdgeSupported(BuildIndex(Negated(units), Negated(words)), -at, -was)
      <==> StartOnPause(units, words, at, was)
  {
    hide BuildIndex, InwardOntoPause, StartInwardOntoPause, EndEdgeSupported;
    var us, ws := Negated(units), Negated(words);
    EndEdgeAgreesWithBruteForce(us, ws, -at, -was);
    if EndOnPause(us, ws, -at, -was) {
      var edge :| InwardOntoPause(us, ws, -at, -was, edge);
      assert -(-edge) == edge;
      NegatedPause(units, words, at, was, -edge);
    }
    if StartOnPause(units, words, at, was) {
      var edge :| StartInwardOntoPause(units, words, at, was, edge);
      NegatedPause(units, words, at, was, edge);
    }
  }

  // ----- Stopping an unsupported edge at the word under the floor -----

  /** A unit that starts between the proposal and the floor and runs past the floor. */
  predicate UnderFloor(u: Span, proposed: real, floor: real) {
    proposed - EDGE_TOLERANCE <= u.lo < floor && u.hi > floor
  }

  /** The first unit from index i on that runs past the floor, stopping at the first that starts there. */
  function FirstPastFloor(units: seq<Span>, i: nat, floor: real): Option<Span>
    requires i <= |units|
    decreases |units| - i
  {
    if i == |units| || units[i].lo >= floor then None
    else if units[i].hi > floor then Some(units[i])
    else FirstPastFloor(units, i + 1, floor)
  }

  function EndCappedFloor(ix: Index, independent: seq<Span>, proposed: real, floor: real): Option<real>
    requires Indexed(ix)
  {
    if floor <= proposed then None
    else
      var first := BisectLeft(ix.los, proposed - EDGE_TOLERANCE, 0, |ix.los|);
      var straddler := FirstPastFloor(ix.units, first, floor);
      if straddler.None? || straddler.value !in ix.words then None
      else
        var wordLo := straddler.value.lo;
        var snap := first < |ix.units| && ix.units[first] == straddler.value
                    && wordLo - proposed < SUPPORTED_EDGE_GAP_S && MatchingEnds(ix.unitHis, proposed) != [];
        var capped := if snap then proposed else MaxReal(wordLo, proposed);
        if exists i :: 0 <= i < |independent| && OverlapSeconds(independent[i], Span(capped, floor)) > 0.0 then None
        else Some(capped)
  }

  method CappedFloor(ix: Index, independent: seq<Span>, proposed: real, floor: real) returns (r: Option<real>)
    requires Indexed(ix)
    ensures r == EndCappedFloor(ix, independent, proposed, floor)
  {
    hide BisectLeft, MatchingEnds, LexSorted, PrefixMax, SortBy;
    if floor <= proposed {
      return None;
    }
    var first := BisectLeft(ix.los, proposed - EDGE_TOLERANCE, 0, |ix.los|);
    var straddler: Option<Span> := None;
    var i := first;
    while i < |ix.units|
      invariant first <= i <= |ix.units| && straddler == None
      invariant FirstPastFloor(ix.units, first, floor) == FirstPastFloor(ix.units, i, floor)
    {
      if ix.units[i].lo >= floor {
        break;
      }
      if ix.units[i].hi > floor {
        straddler := Some(ix.units[i]);
        break;
      }
      i := i + 1;
    }
    if straddler.None? || straddler.value !in ix.words {
      return None;
    }
    var wordLo := straddler.value.lo;
    var snap := first < |ix.units| && ix.units[first] == straddler.value
                && wordLo - proposed < SUPPORTED_EDGE_GAP_S && MatchingEnds(ix.unitHis, proposed) != [];
    var capped := if snap then proposed else MaxReal(wordLo, proposed);
    if exists k :: 0 <= k < |independent| && OverlapSeconds(independent[k], Span(capped, floor)) > 0.0 {
      return None;
    }
    r := Some(capped);
  }

  /** u is the first, in tuple order, of all units under the floor. */
  ghost predicate FirstUnderFloor(units: seq<Span>, proposed: real, floor: real, u: Span) {
    && u in units && UnderFloor(u, proposed, floor)
    && forall v :: v in units && UnderFloor(v, proposed, floor) ==> LexLe(u, v)
  }

  /** No unit from the proposal on comes before u. */
  ghost predicate FirstFromProposal(units: seq<Span>, proposed: real, u: Span) {
    forall v :: v in units && v.lo >= proposed - EDGE_TOLERANCE ==> LexLe(u, v)
  }

  ghost predicate Untouched(independent: seq<Span>, lo: real, hi: real) {
    forall i :: 0 <= i < |independent| ==> OverlapSeconds(independent[i], Span(lo, hi)) == 0.0
  }

  /**
   * The capped floor by brute force: the word under the floor, or the proposal
   * itself when it lands on a nearby unit end.
   */
  ghost predicate CapFrom(units: seq<Span>, words: seq<Span>, independent: seq<Span>, proposed: real, floor: real,
                          u: Span, c: real)
  {
    && proposed < floor && FirstUnderFloor(units, proposed, floor, u) && u in words
    && c == (if FirstFromProposal(units, proposed, u) && u.lo - proposed < SUPPORTED_EDGE_GAP_S
                && SomeEndNear(units, proposed)
             then proposed else MaxReal(u.lo, proposed))
    && Untouched(independent, c, floor)
  }

  ghost predicate SomeEndNear(units: seq<Span>, at: real) {
    exists h :: SomeEnd(units, h) && EdgeMatches(h, at)
  }

  lemma {:induction false} FirstPastFloorIsFirst(units: seq<Span>, i: nat, floor: real)
    requires i <= |units| && LexSorted(units)
    ensures var r := FirstPastFloor(units, i, floor);
      && (r.Some? ==> exists k :: i <= k < |units| && units[k] == r.value && r.value.lo < floor && r.value.hi > floor)
      && (r.Some? ==> forall k :: i <= k < |units| && units[k].lo < floor && units[k].hi > floor ==>
                                    LexLe(r.value, units[k]))
      && (r.None? ==> forall k :: i <= k < |units| ==> units[k].lo >= floor || units[k].hi <= floor)
    decreases |units| - i
  {
    if i < |units| {
      if units[i].lo >= floor {
        assert forall k :: i < k < |units| ==> LexLe(units[i], units[k]);
      } else if units[i].hi > floor {
        assert units[i] == units[i];
      } else {
        FirstPastFloorIsFirst(units, i + 1, floor);
      }
    }
  }

  lemma FirstPastIsUnder(ix: Index, units: seq<Span>, words: seq<Span>, proposed: real, floor: real, u: Span)
    requires ix == BuildIndex(units, words)
    requires FirstPastFloor(ix.units, BisectLeft(ix.los, proposed - EDGE_TOLERANCE, 0, |ix.los|), floor) == Some(u)
    ensures FirstUnderFloor(units, proposed, floor, u)
  {
    hide BuildIndex, BisectLeft, FirstPastFloor, PrefixMax, SortBy;
    var first := BisectLeft(ix.los, proposed - EDGE_TOLERANCE, 0, |ix.los|);
    FirstPastFloorIsFirst(ix.units, first, floor);
    var k :| first <= k < |ix.units| && ix.units[k] == u && u.lo < floor && u.hi > floor;
    assert ix.los[k] >= proposed - EDGE_TOLERANCE;
    assert ix.units[k] in units;
    forall v | v in units && UnderFloor(v, proposed, floor) ensures LexLe(u, v) {
      assert v in ix.units;
      var m :| 0 <= m < |ix.units| && ix.units[m] == v;
      assert ix.los[m] == v.lo;
      assert m >= first;
    }
  }

  lemma StraddlerAgrees(ix: Index, units: seq<Span>, words: seq<Span>, proposed: real, floor: real, u: Span)
    requires ix == BuildIndex(units, words)
    ensures FirstPastFloor(ix.units, BisectLeft(ix.los, proposed - EDGE_TOLERANCE, 0, |ix.los|), floor) == Some(u)
      <==> FirstUnderFloor(units, proposed, floor, u)
  {
    hide BuildIndex, BisectLeft, FirstPastFloor, PrefixMax, SortBy;
    var first := BisectLeft(ix.los, proposed - EDGE_TOLERANCE, 0, |ix.los|);
    var r := FirstPastFloor(ix.units, first, floor);
    if r.Some? {
      FirstPastIsUnder(ix, units, words, proposed, floor, r.value);
    }
    if FirstUnderFloor(units, proposed, floor, u) {
      FirstPastFloorIsFirst(ix.units, first, floor);
      assert u in ix.units;
      var m :| 0 <= m < |ix.units| && ix.units[m] == u;
      assert ix.los[m] == u.lo;
      assert m >= first;
      assert LexLe(u, r.value) && LexLe(r.value, u);
    }
  }

  lemma FirstAgrees(ix: Index, units: seq<Span>, words: seq<Span>, proposed: real, u: Span)
    requires ix == BuildIndex(units, words) && u in units && u.lo >= proposed - EDGE_TOLERANCE
    ensures var first := BisectLeft(ix.los, proposed - EDGE_TOLERANCE, 0, |ix.los|);
      (first < |ix.units| && ix.units[first] == u) <==> FirstFromProposal(units, proposed, u)
  {
    hide BisectLeft, BuildIndex, PrefixMax, SortBy;
    var first := BisectLeft(ix.los, proposed - EDGE_TOLERANCE, 0, |ix.los|);
    assert forall k :: 0 <= k < |ix.units| ==> ix.los[k] == ix.units[k].lo;
    assert u in ix.units;
    var m :| 0 <= m < |ix.units| && ix.units[m] == u;
    assert m >= first;
    assert ix.los[first] >= proposed - EDGE_TOLERANCE;
    if ix.units[first] == u {
      forall v | v in units && v.lo >= proposed - EDGE_TOLERANCE ensures LexLe(u, v) {
        assert v in ix.units;
        var k :| 0 <= k < |ix.units| && ix.units[k] == v;
        assert k >= first;
        assert k > first ==> LexLe(ix.units[first], ix.units[k]);
      }
    }
    if FirstFromProposal(units, proposed, u) {
      assert LexLe(u, ix.units[first]);
      assert m > first ==> LexLe(ix.units[first], ix.units[m]);
    }
  }

  lemma NearEndAgrees(ix: Index, units: seq<Span>, words: seq<Span>, proposed: real)
    requires ix == BuildIndex(units, words)
    ensures MatchingEnds(ix.unitHis, proposed) != [] <==> SomeEndNear(units, proposed)
  {
    hide MatchingEnds, BuildIndex, PrefixMax, SortBy, EdgeMatches;
    var matched := MatchingEnds(ix.unitHis, proposed);
    MatchingEndsAreAll(ix.unitHis, proposed);
    if matched != [] {
      assert matched[0] in matched;
      SortedEnds(ix.units, matched[0]);
      SameEnds(ix.units, units, matched[0]);
    }
    if SomeEndNear(units, proposed) {
      var h :| SomeEnd(units, h) && EdgeMatches(h, proposed);
      SortedEnds(ix.units, h);
      SameEnds(ix.units, units, h);
      assert h in matched;
    }
  }

  lemma UntouchedAgrees(independent: seq<Span>, lo: real, hi: real)
    ensures (exists i :: 0 <= i < |independent| && OverlapSeconds(independent[i], Span(lo, hi)) > 0.0)
      <==> !Untouched(independent, lo, hi)
  {
  }

  /** The capped floor is the one brute force finds, and None exactly when brute force finds none. */
  lemma CappedFloorAgreesWithBruteForce(units: seq<Span>, words: seq<Span>, independent: seq<Span>,
                                        proposed: real, floor: real, c: real)
    ensures EndCappedFloor(BuildIndex(units, words), independent, proposed, floor) == Some(c)
      <==> exists u :: CapFrom(units, words, independent, proposed, floor, u, c)
  {
    hide BuildIndex, BisectLeft, MatchingEnds, FirstPastFloor, FirstUnderFloor, FirstFromProposal, SomeEndNear,
         Untouched;
    var ix := BuildIndex(units, words);
    var first := BisectLeft(ix.los, proposed - EDGE_TOLERANCE, 0, |ix.los|);
    var straddler := FirstPastFloor(ix.units, first, floor);
    if straddler.Some? {
      var u := straddler.value;
      StraddlerAgrees(ix, units, words, proposed, floor, u);
      UnderFloorBounds(units, proposed, floor, u);
      FirstAgrees(ix, units, words, proposed, u);
      NearEndAgrees(ix, units, words, proposed);
      UntouchedAgrees(independent, c, floor);
      assert EndCappedFloor(ix, independent, proposed, floor) == Some(c)
        ==> CapFrom(units, words, independent, proposed, floor, u, c);
    }
    if exists u :: CapFrom(units, words, independent, proposed, floor, u, c) {
      var u :| CapFrom(units, words, independent, proposed, floor, u, c);
      StraddlerAgrees(ix, units, words, proposed, floor, u);
      UnderFloorBounds(units, proposed, floor, u);
      FirstAgrees(ix, units, words, proposed, u);
      NearEndAgrees(ix, units, words, proposed);
      UntouchedAgrees(independent, c, floor);
    }
  }

  lemma UnderFloorBounds(units: seq<Span>, proposed: real, floor: real, u: Span)
    requires FirstUnderFloor(units, proposed, floor, u)
    ensures u in units && proposed - EDGE_TOLERANCE <= u.lo < floor < u.hi
  {
  }

  /** A capped floor lies from the proposal up to the floor, with no independent span between it and the floor. */
  lemma CappedFloorIsSafe(ix: Index, independent: seq<Span>, proposed: real, floor: real, t: real)
    requires Indexed(ix) && EndCappedFloor(ix, independent, proposed, floor).Some?
    ensures var c := EndCappedFloor(ix, independent, proposed, floor).value;
      proposed <= c < floor && (c <= t < floor ==> !Covers(independent, t))
  {
    hide BisectLeft, MatchingEnds;
    var first := BisectLeft(ix.los, proposed - EDGE_TOLERANCE, 0, |ix.los|);
    FirstPastFloorIsFirst(ix.units, first, floor);
    var c := EndCappedFloor(ix, independent, proposed, floor).value;
    forall i | 0 <= i < |independent| && c <= t < floor ensures !independent[i].Has(t) {
      assert OverlapSeconds(independent[i], Span(c, floor)) <= 0.0;
    }
  }
}
