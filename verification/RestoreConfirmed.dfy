/** Restoring user-confirmed audio that no surviving marker cuts. */
module RestoreConfirmed {
  import opened Basics
  import opened Spans

  const BOUNDS_TOLERANCE_S := 0.5

  /** A marker; userConfirmed stands for the stamps a restored span carries. */
  datatype Marker = Marker(span: Span, keepLike: bool, held: bool, wasCut: bool, userConfirmed: bool)

  datatype Correction = Correction(isConfirm: bool, autoFiled: bool, bounds: Span, confirmedSpan: Option<Span>)

  predicate Pending(m: Marker) { m.held && !m.wasCut }

  /**
   * What restoring reads: cuts already claimed, audio it must not enter, rejected
   * spans, the file, the excluded opening.
   */
  datatype Setting = Setting(prior: seq<Span>, barriers: seq<Span>, falsePositives: seq<Span>, duration: real,
                             excluded: real)

  /** The markers and the spans restored so far. */
  datatype State = State(all: seq<Marker>, restored: seq<Span>)

  // ----- Restoring one span -----

  predicate SpansMatch(a: Span, b: Span) {
    AbsReal(a.lo - b.lo) <= BOUNDS_TOLERANCE_S && AbsReal(a.hi - b.hi) <= BOUNDS_TOLERANCE_S
  }

  function FindMarker(all: seq<Marker>, r: Span, i: nat): (k: Option<nat>)
    requires i <= |all|
    ensures k.Some? ==> i <= k.value < |all| && SpansMatch(all[k.value].span, r)
    decreases |all| - i
  {
    if i == |all| then None else if SpansMatch(all[i].span, r) then Some(i) else FindMarker(all, r, i + 1)
  }

  function Restored(m: Marker, r: Span): Marker {
    m.(span := r, held := false, wasCut := true, userConfirmed := true)
  }

  /** The markers with one of them, found or new, standing for r. */
  function WithMarker(all: seq<Marker>, r: Span): seq<Marker> {
    var k := FindMarker(all, r, 0);
    if k.Some? then all[k.value := Restored(all[k.value], r)]
    else all + [Marker(r, false, false, true, true)]
  }

  predicate HoldsOver(m: Marker, r: Span) { Pending(m) && Overlap(m.span, r) }

  function LongPieces(m: Marker, pieces: seq<Span>): seq<Marker> {
    if pieces == [] then []
    else LongPieces(m, pieces[..|pieces| - 1])
         + (if pieces[|pieces| - 1].hi - pieces[|pieces| - 1].lo >= MERGE_GAP_SECONDS
            then [m.(span := pieces[|pieces| - 1])] else [])
  }

  /** What is left of the holds over r. */
  function Carved(all: seq<Marker>, r: Span): seq<Marker> {
    if all == [] then []
    else
      var m := all[|all| - 1];
      Carved(all[..|all| - 1], r) + (if HoldsOver(m, r) then LongPieces(m, CutPiece(m.span, r)) else [])
  }

  function Untouched(all: seq<Marker>, r: Span): seq<Marker> {
    if all == [] then []
    else Untouched(all[..|all| - 1], r) + (if HoldsOver(all[|all| - 1], r) then [] else [all[|all| - 1]])
  }

  function RestoreSpan(st: State, r: Span): State {
    var marked := WithMarker(st.all, r);
    State(Untouched(marked, r) + Carved(marked, r), st.restored + [r])
  }

  // ----- Restoring all corrections -----

  function RestorePieces(st: State, pieces: seq<Span>, excluded: real): State
    decreases |pieces|
  {
    if pieces == [] then st
    else
      var before := RestorePieces(st, pieces[..|pieces| - 1], excluded);
      var p := pieces[|pieces| - 1];
      var r := Span(MaxReal(p.lo, excluded), p.hi);
      if r.hi - r.lo < MERGE_GAP_SECONDS then before else RestoreSpan(before, r)
  }

  /** The audio a correction wants cut, inside the file. */
  function Wanted(c: Correction, env: Setting): Span {
    var s := if c.confirmedSpan.Some? then c.confirmedSpan.value else c.bounds;
    Span(MaxReal(0.0, s.lo), if env.duration > 0.0 then MinReal(s.hi, env.duration) else s.hi)
  }

  /** A user confirm of real audio that no rejected span covers by half. */
  predicate Restorable(c: Correction, env: Setting) {
    && c.isConfirm && !c.autoFiled && Wanted(c, env).lo < Wanted(c, env).hi
    && !exists i :: 0 <= i < |env.falsePositives|
         && OverlapRatio(env.falsePositives[i], Wanted(c, env)) >= CORRECTION_MATCH_MIN_COVERAGE
  }

  function Blocked(st: State, env: Setting): seq<Span> { env.prior + st.restored + env.barriers }

  function RestoreCorrection(st: State, c: Correction, env: Setting): State {
    if !Restorable(c, env) then st
    else RestorePieces(st, Subtract([Wanted(c, env)], Blocked(st, env)), env.excluded)
  }

  function RestoreAll(st: State, cs: seq<Correction>, env: Setting): State {
    if cs == [] then st else RestoreCorrection(RestoreAll(st, cs[..|cs| - 1], env), cs[|cs| - 1], env)
  }

  function KeptSpans(all: seq<Marker>): seq<Span> {
    if all == [] then []
    else KeptSpans(all[..|all| - 1]) + (if all[|all| - 1].keepLike then [all[|all| - 1].span] else [])
  }

  function SettingFor(all: seq<Marker>, cuts: seq<Span>, trims: seq<Span>, falsePositives: seq<Span>, duration: real,
                      excluded: real): Setting
  {
    Setting(cuts, trims + falsePositives + KeptSpans(all), falsePositives, duration, excluded)
  }

  function SpanStart(): Span -> real { (s: Span) => s.lo }

  function MarkerStart(): Marker -> real { (m: Marker) => m.span.lo }

  ghost predicate SpansByStart(ss: seq<Span>) { forall i, j :: 0 <= i < j < |ss| ==> ss[i].lo <= ss[j].lo }

  ghost predicate MarkersByStart(ms: seq<Marker>) {
    forall i, j :: 0 <= i < j < |ms| ==> ms[i].span.lo <= ms[j].span.lo
  }

  /** The episode's markers, edited in place. */
  class MarkerStore {
    var all: seq<Marker>

    constructor (markers: seq<Marker>)
      ensures all == markers
    {
      all := markers;
    }

    method Restore(r: Span)
      modifies this
      ensures forall restored :: RestoreSpan(State(old(all), restored), r) == State(all, restored + [r])
    {
      hide FindMarker, HoldsOver, Carved, Untouched;
      var k := FindMarker(all, r, 0);
      if k.Some? {
        all := all[k.value := Restored(all[k.value], r)];
      } else {
        all := all + [Marker(r, false, false, true, true)];
      }
      all := Untouched(all, r) + Carved(all, r);
    }

    /** Cuts confirmed audio the given cuts miss; returns all cuts in order. */
    method RestoreUncovered(cuts: seq<Span>, confirmed: seq<Correction>, falsePositives: seq<Span>, trims: seq<Span>,
                            duration: real, excluded: real) returns (result: seq<Span>)
      modifies this
      ensures var env := SettingFor(old(all), cuts, trims, falsePositives, duration, excluded);
        var end := RestoreAll(State(old(all), []), confirmed, env);
        if end.restored == [] then result == cuts && all == end.all
        else
          && result == SortBy(cuts + end.restored, SpanStart()) && all == SortBy(end.all, MarkerStart())
          && SpansByStart(result) && MarkersByStart(all)
    {
      hide RestoreSpan, Restorable;
      var env := SettingFor(all, cuts, trims, falsePositives, duration, excluded);
      ghost var first := State(all, []);
      var restored: seq<Span> := [];
      for i := 0 to |confirmed|
        invariant State(all, restored) == RestoreAll(first, confirmed[..i], env)
      {
        assert confirmed[..i + 1][..i] == confirmed[..i];
        var c := confirmed[i];
        if !Restorable(c, env) {
          continue;
        }
        ghost var before := State(all, restored);
        var pieces := Subtract([Wanted(c, env)], cuts + restored + env.barriers);
        for j := 0 to |pieces|
          invariant State(all, restored) == RestorePieces(before, pieces[..j], excluded)
        {
          assert pieces[..j + 1][..j] == pieces[..j];
          var lo := MaxReal(pieces[j].lo, excluded);
          if pieces[j].hi - lo < MERGE_GAP_SECONDS {
            continue;
          }
          Restore(Span(lo, pieces[j].hi));
          restored := restored + [Span(lo, pieces[j].hi)];
        }
        assert pieces[..|pieces|] == pieces;
      }
      assert confirmed[..|confirmed|] == confirmed;
      if restored == [] {
        return cuts;
      }
      SortByIsSorted(all, MarkerStart());
      SortByIsSorted(cuts + restored, SpanStart());
      all := SortBy(all, MarkerStart());
      result := SortBy(cuts + restored, SpanStart());
    }
  }
}
