/** Half-open time spans: subtraction and union, the two helpers every stage cuts audio with. */
module Spans {
  import opened Basics

  datatype Span = Span(lo: real, hi: real) {
    ghost predicate Has(t: real) { lo <= t < hi }
  }

  ghost predicate Covers(ss: seq<Span>, t: real) {
    exists i :: 0 <= i < |ss| && ss[i].Has(t)
  }

  ghost predicate Positive(ss: seq<Span>) {
    forall i :: 0 <= i < |ss| ==> ss[i].lo < ss[i].hi
  }

  /** Left to right without overlap. */
  ghost predicate InOrder(ss: seq<Span>) {
    forall i, j :: 0 <= i < j < |ss| ==> ss[i].hi <= ss[j].lo
  }

  predicate Overlap(a: Span, b: Span) {
    a.lo < b.hi && b.lo < a.hi
  }

  function OverlapSeconds(a: Span, b: Span): real {
    MaxReal(0.0, MinReal(a.hi, b.hi) - MaxReal(a.lo, b.lo))
  }

  /** The fraction of b that a covers; 0 for an empty b. */
  function OverlapRatio(a: Span, b: Span): real {
    if b.hi > b.lo then OverlapSeconds(a, b) / (b.hi - b.lo) else 0.0
  }

  /** At least half of w lies in s. */
  ghost predicate HalfIn(w: Span, s: Span) {
    2.0 * (MinReal(s.hi, w.hi) - MaxReal(s.lo, w.lo)) >= w.hi - w.lo
  }

  /** Covering half of real audio, told without the quotient. */
  lemma HalfIs(w: Span, s: Span)
    requires w.lo < w.hi
    ensures OverlapRatio(s, w) >= CORRECTION_MATCH_MIN_COVERAGE <==> HalfIn(w, s)
  {
    var length, shared := w.hi - w.lo, OverlapSeconds(s, w);
    HalfQuotient(shared, length);
  }

  lemma HalfQuotient(x: real, d: real)
    requires d > 0.0
    ensures x / d >= 0.5 <==> 2.0 * x >= d
  {
    assert x == (x / d) * d;
    if x / d >= 0.5 {
      Scaled(x / d, 0.5, d);
    } else {
      ProductPositive(0.5 - x / d, d);
      assert (0.5 - x / d) * d == 0.5 * d - x;
    }
  }

  lemma Scaled(a: real, b: real, d: real)
    requires a >= b && d > 0.0
    ensures a * d >= b * d
  {
  }

  lemma ProductPositive(a: real, d: real)
    requires a > 0.0 && d > 0.0
    ensures a * d > 0.0
  {
  }

  lemma CoversConcat(a: seq<Span>, b: seq<Span>, t: real)
    ensures Covers(a + b, t) <==> Covers(a, t) || Covers(b, t)
  {
    if Covers(a, t) {
      var i :| 0 <= i < |a| && a[i].Has(t);
      assert (a + b)[i].Has(t);
    }
    if Covers(b, t) {
      var i :| 0 <= i < |b| && b[i].Has(t);
      assert (a + b)[|a| + i].Has(t);
    }
  }

  lemma CoversOne(s: Span, t: real)
    ensures Covers([s], t) <==> s.Has(t)
  {
    assert [s][0] == s;
  }

  // ----- Subtraction -----

  /** What is left of one piece on either side of a cut. */
  function CutPiece(p: Span, cut: Span): seq<Span> {
    var left, right := Span(p.lo, MinReal(p.hi, cut.lo)), Span(MaxReal(p.lo, cut.hi), p.hi);
    (if left.hi > left.lo then [left] else []) + (if right.hi > right.lo then [right] else [])
  }

  function CutAll(pieces: seq<Span>, cut: Span): seq<Span> {
    if pieces == [] then [] else CutPiece(pieces[0], cut) + CutAll(pieces[1..], cut)
  }

  /** subtract_spans: removes every cut from the pieces. */
  function Subtract(pieces: seq<Span>, cuts: seq<Span>): seq<Span>
    decreases |cuts|
  {
    if cuts == [] then pieces else Subtract(CutAll(pieces, cuts[0]), cuts[1..])
  }

  lemma {:induction false} CutAllCovers(pieces: seq<Span>, cut: Span, t: real)
    ensures Covers(CutAll(pieces, cut), t) <==> Covers(pieces, t) && !cut.Has(t)
  {
    if pieces != [] {
      var p := pieces[0];
      CutAllCovers(pieces[1..], cut, t);
      CoversConcat(CutPiece(p, cut), CutAll(pieces[1..], cut), t);
      CoversConcat([p], pieces[1..], t);
      assert [p] + pieces[1..] == pieces;
      CoversOne(p, t);
      var left, right := Span(p.lo, MinReal(p.hi, cut.lo)), Span(MaxReal(p.lo, cut.hi), p.hi);
      CoversConcat(if left.hi > left.lo then [left] else [], if right.hi > right.lo then [right] else [], t);
      CoversOne(left, t);
      CoversOne(right, t);
    }
  }

  /** Subtraction is set difference on time, whatever the shape of the cuts. */
  lemma {:induction false} SubtractCovers(pieces: seq<Span>, cuts: seq<Span>, t: real)
    ensures Covers(Subtract(pieces, cuts), t) <==> Covers(pieces, t) && !Covers(cuts, t)
    decreases |cuts|
  {
    if cuts != [] {
      SubtractCovers(CutAll(pieces, cuts[0]), cuts[1..], t);
      CutAllCovers(pieces, cuts[0], t);
      CoversConcat([cuts[0]], cuts[1..], t);
      CoversOne(cuts[0], t);
      assert [cuts[0]] + cuts[1..] == cuts;
    }
  }

  /** s lies inside one of ss. */
  ghost predicate InsideSome(s: Span, ss: seq<Span>) {
    exists i :: 0 <= i < |ss| && ss[i].lo <= s.lo && s.hi <= ss[i].hi
  }

  lemma {:induction false} CutAllShape(pieces: seq<Span>, cut: Span)
    requires Positive(pieces)
    ensures Positive(CutAll(pieces, cut))
    ensures forall i :: 0 <= i < |CutAll(pieces, cut)| ==> InsideSome(CutAll(pieces, cut)[i], pieces)
  {
    if pieces != [] {
      CutAllShape(pieces[1..], cut);
      var head, rest := CutPiece(pieces[0], cut), CutAll(pieces[1..], cut);
      forall i | 0 <= i < |head + rest| ensures InsideSome((head + rest)[i], pieces) {
        if i < |head| {
          assert pieces[0].lo <= head[i].lo && head[i].hi <= pieces[0].hi;
        } else {
          var r := rest[i - |head|];
          assert InsideSome(r, pieces[1..]);
          var k :| 0 <= k < |pieces[1..]| && pieces[1..][k].lo <= r.lo && r.hi <= pieces[1..][k].hi;
          assert pieces[k + 1] == pieces[1..][k];
        }
      }
    }
  }

  /** Lists on either side of one instant join in order. */
  lemma InOrderConcat(a: seq<Span>, b: seq<Span>, t: real)
    requires InOrder(a) && InOrder(b)
    requires (forall i :: 0 <= i < |a| ==> a[i].hi <= t) && forall i :: 0 <= i < |b| ==> t <= b[i].lo
    ensures InOrder(a + b)
  {
  }

  lemma CutPieceInOrder(p: Span, cut: Span)
    requires cut.lo <= cut.hi
    ensures InOrder(CutPiece(p, cut)) && forall i :: 0 <= i < |CutPiece(p, cut)| ==> CutPiece(p, cut)[i].hi <= p.hi
  {
  }

  lemma {:induction false} CutAllInOrder(pieces: seq<Span>, cut: Span)
    requires Positive(pieces) && InOrder(pieces) && cut.lo <= cut.hi
    ensures InOrder(CutAll(pieces, cut))
  {
    if pieces != [] {
      var head, rest := CutPiece(pieces[0], cut), CutAll(pieces[1..], cut);
      CutAllInOrder(pieces[1..], cut);
      CutAllShape(pieces[1..], cut);
      CutPieceInOrder(pieces[0], cut);
      forall i | 0 <= i < |rest| ensures pieces[0].hi <= rest[i].lo {
        assert InsideSome(rest[i], pieces[1..]);
      }
      hide CutPiece, InOrder;
      InOrderConcat(head, rest, pieces[0].hi);
    }
  }

  lemma {:induction false} SubtractShape(pieces: seq<Span>, cuts: seq<Span>)
    requires Positive(pieces)
    ensures Positive(Subtract(pieces, cuts))
    ensures forall i :: 0 <= i < |Subtract(pieces, cuts)| ==> InsideSome(Subtract(pieces, cuts)[i], pieces)
    decreases |cuts|
  {
    if cuts == [] {
      forall i | 0 <= i < |pieces| ensures InsideSome(pieces[i], pieces) {
      }
    } else {
      var mid := CutAll(pieces, cuts[0]);
      CutAllShape(pieces, cuts[0]);
      SubtractShape(mid, cuts[1..]);
      var r := Subtract(mid, cuts[1..]);
      forall i | 0 <= i < |r| ensures InsideSome(r[i], pieces) {
        assert InsideSome(r[i], mid);
        var k :| 0 <= k < |mid| && mid[k].lo <= r[i].lo && r[i].hi <= mid[k].hi;
        assert InsideSome(mid[k], pieces);
      }
    }
  }

  /** Cutting keeps the pieces apart as long as no cut is inverted. */
  lemma {:induction false} SubtractInOrder(pieces: seq<Span>, cuts: seq<Span>)
    requires Positive(pieces) && InOrder(pieces)
    requires forall i :: 0 <= i < |cuts| ==> cuts[i].lo <= cuts[i].hi
    ensures InOrder(Subtract(pieces, cuts))
    decreases |cuts|
  {
    if cuts != [] {
      CutAllShape(pieces, cuts[0]);
      CutAllInOrder(pieces, cuts[0]);
      SubtractInOrder(CutAll(pieces, cuts[0]), cuts[1..]);
    }
  }

  ghost predicate EndsAt(ss: seq<Span>, t: real) { exists i :: 0 <= i < |ss| && ss[i].hi == t }

  ghost predicate StartsAt(ss: seq<Span>, t: real) { exists i :: 0 <= i < |ss| && ss[i].lo == t }

  lemma {:induction false} CutAllEdges(pieces: seq<Span>, cut: Span, i: nat)
    requires i < |CutAll(pieces, cut)|
    ensures var p := CutAll(pieces, cut)[i];
      (StartsAt(pieces, p.lo) || p.lo == cut.hi) && (EndsAt(pieces, p.hi) || p.hi == cut.lo)
  {
    var head := CutPiece(pieces[0], cut);
    if i < |head| {
      assert pieces[0].lo == head[i].lo || cut.hi == head[i].lo;
      assert pieces[0].hi == head[i].hi || cut.lo == head[i].hi;
    } else {
      CutAllEdges(pieces[1..], cut, i - |head|);
      var p := CutAll(pieces[1..], cut)[i - |head|];
      if StartsAt(pieces[1..], p.lo) {
        var k :| 0 <= k < |pieces[1..]| && pieces[1..][k].lo == p.lo;
        assert pieces[k + 1].lo == p.lo;
      }
      if EndsAt(pieces[1..], p.hi) {
        var k :| 0 <= k < |pieces[1..]| && pieces[1..][k].hi == p.hi;
        assert pieces[k + 1].hi == p.hi;
      }
    }
  }

  /** Each edge of what is left is an edge of an original piece or of a cut. */
  lemma {:induction false} SubtractEdges(pieces: seq<Span>, cuts: seq<Span>, i: nat)
    requires i < |Subtract(pieces, cuts)|
    ensures var p := Subtract(pieces, cuts)[i];
      (StartsAt(pieces, p.lo) || EndsAt(cuts, p.lo)) && (EndsAt(pieces, p.hi) || StartsAt(cuts, p.hi))
    decreases |cuts|
  {
    if cuts == [] {
      assert pieces[i].lo == pieces[i].lo;
    } else {
      var mid := CutAll(pieces, cuts[0]);
      SubtractEdges(mid, cuts[1..], i);
      var p := Subtract(pieces, cuts)[i];
      if StartsAt(mid, p.lo) {
        var k :| 0 <= k < |mid| && mid[k].lo == p.lo;
        CutAllEdges(pieces, cuts[0], k);
        assert p.lo == cuts[0].hi ==> EndsAt(cuts, p.lo);
      } else {
        var k :| 0 <= k < |cuts[1..]| && cuts[1..][k].hi == p.lo;
        assert cuts[k + 1].hi == p.lo;
      }
      if EndsAt(mid, p.hi) {
        var k :| 0 <= k < |mid| && mid[k].hi == p.hi;
        CutAllEdges(pieces, cuts[0], k);
        assert p.hi == cuts[0].lo ==> StartsAt(cuts, p.hi);
      } else {
        var k :| 0 <= k < |cuts[1..]| && cuts[1..][k].lo == p.hi;
        assert cuts[k + 1].lo == p.hi;
      }
    }
  }

  // ----- Union -----

  /** merge_runs on sorted spans: a span that starts within a run, or touches it, extends it. */
  function RunsFrom(run: Span, rest: seq<Span>): seq<Span>
    decreases |rest|
  {
    if rest == [] then [run]
    else if rest[0].lo <= run.hi then RunsFrom(Span(run.lo, MaxReal(run.hi, rest[0].hi)), rest[1..])
    else [run] + RunsFrom(rest[0], rest[1..])
  }

  function MergeRuns(ss: seq<Span>): seq<Span> {
    var sorted := SortBy(ss, (s: Span) => s.lo);
    if sorted == [] then [] else RunsFrom(sorted[0], sorted[1..])
  }

  lemma {:induction false} RunsFromCovers(run: Span, rest: seq<Span>, t: real)
    requires forall i :: 0 <= i < |rest| ==> run.lo <= rest[i].lo
    requires SortedBy(rest, (s: Span) => s.lo)
    ensures Covers(RunsFrom(run, rest), t) <==> run.Has(t) || Covers(rest, t)
    decreases |rest|
  {
    if rest == [] {
      CoversOne(run, t);
    } else {
      var head, tail := rest[0], rest[1..];
      CoversConcat([head], tail, t);
      CoversOne(head, t);
      assert [head] + tail == rest;
      if head.lo <= run.hi {
        RunsFromCovers(Span(run.lo, MaxReal(run.hi, head.hi)), tail, t);
      } else {
        RunsFromCovers(head, tail, t);
        CoversConcat([run], RunsFrom(head, tail), t);
        CoversOne(run, t);
      }
    }
  }

  /** A list with the same members covers the same time. */
  lemma SameMembersCover(a: seq<Span>, b: seq<Span>, t: real)
    requires forall s :: s in a <==> s in b
    ensures Covers(a, t) <==> Covers(b, t)
  {
    if Covers(a, t) {
      var i :| 0 <= i < |a| && a[i].Has(t);
      assert a[i] in b;
    }
    if Covers(b, t) {
      var i :| 0 <= i < |b| && b[i].Has(t);
      assert b[i] in a;
    }
  }

  /** Merging runs is union on time. */
  lemma MergeRunsCovers(ss: seq<Span>, t: real)
    ensures Covers(MergeRuns(ss), t) <==> Covers(ss, t)
  {
    var key := (s: Span) => s.lo;
    var sorted := SortBy(ss, key);
    SortByIsSorted(ss, key);
    SortByMembers(ss, key);
    SameMembersCover(ss, sorted, t);
    if sorted != [] {
      RunsFromCovers(sorted[0], sorted[1..], t);
      CoversConcat([sorted[0]], sorted[1..], t);
      CoversOne(sorted[0], t);
      assert [sorted[0]] + sorted[1..] == sorted;
    }
  }

  /** Runs come out left to right with time between them. */
  ghost predicate Apart(ss: seq<Span>) {
    forall i, j :: 0 <= i < j < |ss| ==> ss[i].hi < ss[j].lo
  }

  lemma {:induction false} RunsFromApart(run: Span, rest: seq<Span>)
    requires run.lo < run.hi && Positive(rest)
    requires forall i :: 0 <= i < |rest| ==> run.lo <= rest[i].lo
    requires SortedBy(rest, (s: Span) => s.lo)
    ensures Apart(RunsFrom(run, rest)) && Positive(RunsFrom(run, rest))
    ensures forall i :: 0 <= i < |RunsFrom(run, rest)| ==> run.lo <= RunsFrom(run, rest)[i].lo
    decreases |rest|
  {
    if rest != [] {
      if rest[0].lo <= run.hi {
        RunsFromApart(Span(run.lo, MaxReal(run.hi, rest[0].hi)), rest[1..]);
      } else {
        RunsFromApart(rest[0], rest[1..]);
      }
    }
  }

  lemma MergeRunsApart(ss: seq<Span>)
    requires Positive(ss)
    ensures Apart(MergeRuns(ss)) && Positive(MergeRuns(ss))
  {
    var key := (s: Span) => s.lo;
    var sorted := SortBy(ss, key);
    SortByIsSorted(ss, key);
    SortByMembers(ss, key);
    if sorted != [] {
      assert Positive(sorted) by {
        forall i | 0 <= i < |sorted| ensures sorted[i].lo < sorted[i].hi {
          assert sorted[i] in ss;
        }
      }
      RunsFromApart(sorted[0], sorted[1..]);
    }
  }

  // ----- Lengths -----

  function TotalLength(ss: seq<Span>): real {
    if ss == [] then 0.0 else TotalLength(ss[..|ss| - 1]) + (ss[|ss| - 1].hi - ss[|ss| - 1].lo)
  }
}
