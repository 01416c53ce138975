/** Which confirms are restored, from what, and exactly what one restored span does to the markers. */
module RestoreExactly {
  import opened Basics
  import opened Spans
  import opened RestoreConfirmed
  import opened RestoreConfirmedProofs

  // ----- Which confirms qualify -----

  /** w is the span a correction names, or its bounds, as far as the file goes. */
  ghost predicate Names(c: Correction, env: Setting, w: Span) {
    exists s: Span :: (c.confirmedSpan == Some(s) || (c.confirmedSpan.None? && c.bounds == s))
      && w.lo == MaxReal(s.lo, 0.0)
      && (env.duration > 0.0 ==> w.hi == MinReal(s.hi, env.duration)) && (env.duration <= 0.0 ==> w.hi == s.hi)
  }

  /** A person confirmed real audio, and no rejected span has half of it. */
  ghost predicate UserConfirms(c: Correction, env: Setting, w: Span) {
    c.isConfirm && !c.autoFiled && Names(c, env, w) && w.lo < w.hi
    && forall f :: f in env.falsePositives ==> !HalfIn(w, f)
  }

  lemma NamesOne(c: Correction, env: Setting, w: Span)
    ensures Names(c, env, w) <==> w == Wanted(c, env)
  {
    var s := if c.confirmedSpan.Some? then c.confirmedSpan.value else c.bounds;
    assert c.confirmedSpan == Some(s) || (c.confirmedSpan.None? && c.bounds == s);
  }

  /** The confirms that are restored, and the span each asks for. */
  lemma RestorableIs(c: Correction, env: Setting, w: Span)
    ensures Restorable(c, env) && w == Wanted(c, env) <==> UserConfirms(c, env, w)
  {
    NamesOne(c, env, w);
    hide Names, OverlapRatio, HalfIn, Wanted;
    if w == Wanted(c, env) && w.lo < w.hi {
      forall f ensures OverlapRatio(f, w) >= CORRECTION_MATCH_MIN_COVERAGE <==> HalfIn(w, f) {
        HalfIs(w, f);
      }
      assert forall i :: 0 <= i < |env.falsePositives| ==> env.falsePositives[i] in env.falsePositives;
    }
  }

  /** Every user-confirmed second is covered by cuts, barriers, the excluded opening, or a leftover under a second. */
  lemma ConfirmedSecondsAreCovered(all0: seq<Marker>, cs: seq<Correction>, env: Setting, k: nat, w: Span, t: real)
    requires k < |cs| && UserConfirms(cs[k], env, w) && w.Has(t)
    ensures var end := RestoreAll(State(all0, []), cs, env);
      Covers(Blocked(end, env), t) || t < env.excluded || InLeftover(w, Blocked(end, env), env.excluded, t)
  {
    hide UserConfirms, RestoreAll, Restorable, Wanted;
    RestorableIs(cs[k], env, w);
    ConfirmedAudioIsCovered(all0, cs, env, k, t);
  }

  ghost predicate AskedFor(cs: seq<Correction>, env: Setting, r: Span) {
    exists k, w :: 0 <= k < |cs| && UserConfirms(cs[k], env, w) && w.lo <= r.lo && r.hi <= w.hi && env.excluded <= r.lo
  }

  lemma AskedLonger(cs: seq<Correction>, c: Correction, env: Setting, r: Span)
    requires AskedFor(cs, env, r)
    ensures AskedFor(cs + [c], env, r)
  {
    var k, w :| 0 <= k < |cs| && UserConfirms(cs[k], env, w) && w.lo <= r.lo && r.hi <= w.hi && env.excluded <= r.lo;
    assert (cs + [c])[k] == cs[k];
  }

  lemma {:induction false} PiecesRestore(st: State, pieces: seq<Span>, excluded: real, i: nat)
    requires i < |RestorePieces(st, pieces, excluded).restored|
    ensures var r := RestorePieces(st, pieces, excluded).restored[i];
      || (i < |st.restored| && r == st.restored[i])
      || (exists p :: p in pieces && p.lo <= r.lo && r.hi == p.hi && excluded <= r.lo)
    decreases |pieces|
  {
    hide RestoreSpan;
    if pieces != [] {
      var n := |pieces| - 1;
      var before := RestorePieces(st, pieces[..n], excluded);
      StepRestores(before, Span(MaxReal(pieces[n].lo, excluded), pieces[n].hi));
      if i < |before.restored| {
        PiecesRestore(st, pieces[..n], excluded, i);
        assert forall p :: p in pieces[..n] ==> p in pieces;
      } else {
        assert pieces[n] in pieces;
      }
    }
  }

  /**
   * Only what a person confirmed is restored: each restored span lies in a confirm's span, past the excluded opening.
   */
  lemma {:induction false} OnlyConfirmsAreRestored(all0: seq<Marker>, cs: seq<Correction>, env: Setting, i: nat)
    requires i < |RestoreAll(State(all0, []), cs, env).restored|
    ensures AskedFor(cs, env, RestoreAll(State(all0, []), cs, env).restored[i])
    decreases |cs|
  {
    hide RestorePieces, Restorable, Wanted, UserConfirms, Subtract;
    var first := State(all0, []);
    if cs != [] {
      var init, c := cs[..|cs| - 1], cs[|cs| - 1];
      var before := RestoreAll(first, init, env);
      assert init + [c] == cs;
      RestorableIs(c, env, Wanted(c, env));
      if i < |before.restored| {
        OnlyConfirmsAreRestored(all0, init, env, i);
        RunOnlyGrows(first, cs, env, |init|);
        AskedLonger(init, c, env, before.restored[i]);
      } else {
        var w := Wanted(c, env);
        var pieces := Subtract([w], Blocked(before, env));
        PiecesRestore(before, pieces, env.excluded, i);
        var r := RestoreAll(first, cs, env).restored[i];
        var p :| p in pieces && p.lo <= r.lo && r.hi == p.hi && env.excluded <= r.lo;
        WantedIsReal(c, env);
        PieceInWhole(w, Blocked(before, env), p);
        assert cs[|cs| - 1] == c;
      }
    }
  }

  lemma PieceInWhole(w: Span, cuts: seq<Span>, p: Span)
    requires w.lo < w.hi && p in Subtract([w], cuts)
    ensures w.lo <= p.lo && p.hi <= w.hi
  {
    SubtractShape([w], cuts);
    var i :| 0 <= i < |Subtract([w], cuts)| && Subtract([w], cuts)[i] == p;
    assert InsideSome(p, [w]);
  }

  // ----- What one restored span does to the markers -----

  ghost predicate Matches(m: Marker, r: Span) {
    r.lo - 0.5 <= m.span.lo <= r.lo + 0.5 && r.hi - 0.5 <= m.span.hi <= r.hi + 0.5
  }

  ghost predicate FirstMatch(all: seq<Marker>, r: Span, i: nat) {
    i < |all| && Matches(all[i], r) && forall j :: 0 <= j < i ==> !Matches(all[j], r)
  }

  /** marked is the list with its first matching marker turned into the restored cut, or with a new one at the end. */
  ghost predicate Marked(all: seq<Marker>, r: Span, marked: seq<Marker>) {
    || (exists i: nat :: FirstMatch(all, r, i) && marked == all[i := Marker(r, all[i].keepLike, false, true, true)])
    || ((forall m :: m in all ==> !Matches(m, r)) && marked == all + [Marker(r, false, false, true, true)])
  }

  lemma MatchesIs(m: Marker, r: Span)
    ensures SpansMatch(m.span, r) <==> Matches(m, r)
  {
  }

  lemma {:induction false} FindMarkerIs(all: seq<Marker>, r: Span, i: nat)
    requires i <= |all| && forall j :: 0 <= j < i ==> !Matches(all[j], r)
    ensures var k := FindMarker(all, r, i);
      (k.Some? ==> FirstMatch(all, r, k.value)) && (k.None? ==> forall m :: m in all ==> !Matches(m, r))
    decreases |all| - i
  {
    hide SpansMatch, Matches;
    if i < |all| {
      MatchesIs(all[i], r);
      if !SpansMatch(all[i].span, r) {
        FindMarkerIs(all, r, i + 1);
      }
    }
  }

  lemma WithMarkerIs(all: seq<Marker>, r: Span)
    ensures Marked(all, r, WithMarker(all, r))
  {
    FindMarkerIs(all, r, 0);
    hide FindMarker, Matches;
    var k := FindMarker(all, r, 0);
    if k.Some? {
      assert FirstMatch(all, r, k.value);
    }
  }

  /** m is still pending review and reaches into r. */
  ghost predicate PendingOver(m: Marker, r: Span) { m.held && !m.wasCut && m.span.lo < r.hi && r.lo < m.span.hi }

  /** s is what is left of h before or after r, if it lasts a second. */
  ghost predicate LeftOf(h: Span, r: Span, s: Span) {
    && (s == Span(h.lo, MinReal(h.hi, r.lo)) || s == Span(MaxReal(h.lo, r.hi), h.hi))
    && s.hi - s.lo >= MERGE_GAP_SECONDS
  }

  lemma CutPieceIs(h: Span, r: Span, s: Span)
    ensures s in CutPiece(h, r) && s.hi - s.lo >= MERGE_GAP_SECONDS <==> LeftOf(h, r, s)
  {
  }

  /** After a restored span the markers are the marked ones but for pending holds over it, and what is left of those. */
  lemma RestoreEditsExactly(st: State, r: Span) returns (marked: seq<Marker>)
    ensures Marked(st.all, r, marked)
    ensures forall x :: x in RestoreSpan(st, r).all <==>
      || (x in marked && !PendingOver(x, r))
      || (exists h :: h in marked && PendingOver(h, r) && LeftOf(h.span, r, x.span) && x == h.(span := x.span))
  {
    marked := WithMarker(st.all, r);
    WithMarkerIs(st.all, r);
    hide WithMarker, CutPiece, Marked, LeftOf;
    UntouchedMembers(marked, r);
    CarvedMembers(marked, r);
    forall x
      ensures x in Carved(marked, r)
         <==> exists h :: h in marked && PendingOver(h, r) && LeftOf(h.span, r, x.span) && x == h.(span := x.span)
    {
      CarvedIs(marked, r, x);
    }
    forall m ensures HoldsOver(m, r) <==> PendingOver(m, r) {
    }
    hide HoldsOver, PendingOver;
  }

  lemma CarvedIs(all: seq<Marker>, r: Span, x: Marker)
    ensures x in Carved(all, r)
       <==> exists h :: h in all && PendingOver(h, r) && LeftOf(h.span, r, x.span) && x == h.(span := x.span)
  {
    CarvedMembers(all, r);
    hide CutPiece, LeftOf, Carved;
    forall h: Span
      ensures x.span in CutPiece(h, r) && x.span.hi - x.span.lo >= MERGE_GAP_SECONDS <==> LeftOf(h, r, x.span)
    {
      CutPieceIs(h, r, x.span);
    }
    if x in Carved(all, r) {
      var i :| 0 <= i < |all| && CutFrom(x, all[i], r);
      assert all[i] in all;
    }
    if h :| h in all && PendingOver(h, r) && LeftOf(h.span, r, x.span) && x == h.(span := x.span) {
      var i :| 0 <= i < |all| && all[i] == h;
      assert all[i].(span := x.span) in Carved(all, r);
    }
  }
}
