/** What restoring guarantees: where it cuts, what it leaves, and what becomes of held audio. */
module RestoreConfirmedProofs {
  import opened Basics
  import opened Spans
  import opened RestoreConfirmed

  // ----- Membership in the edited list -----

  lemma {:induction false} UntouchedMembers(all: seq<Marker>, r: Span)
    ensures forall m :: m in Untouched(all, r) <==> m in all && !HoldsOver(m, r)
  {
    hide HoldsOver;
    if all != [] {
      UntouchedMembers(all[..|all| - 1], r);
      assert all == all[..|all| - 1] + [all[|all| - 1]];
    }
  }

  lemma {:induction false} LongPiecesMembers(m: Marker, pieces: seq<Span>)
    ensures forall p :: p in LongPieces(m, pieces) ==>
      p == m.(span := p.span) && p.span in pieces && p.span.hi - p.span.lo >= MERGE_GAP_SECONDS
    ensures forall s :: s in pieces && s.hi - s.lo >= MERGE_GAP_SECONDS ==> m.(span := s) in LongPieces(m, pieces)
  {
    if pieces != [] {
      LongPiecesMembers(m, pieces[..|pieces| - 1]);
    }
  }

  /** p is what is left of hold m on one side of r. */
  ghost predicate CutFrom(p: Marker, m: Marker, r: Span) {
    && HoldsOver(m, r) && p == m.(span := p.span) && p.span in CutPiece(m.span, r)
    && p.span.hi - p.span.lo >= MERGE_GAP_SECONDS
  }

  lemma {:induction false} CarvedMembers(all: seq<Marker>, r: Span)
    ensures forall p :: p in Carved(all, r) ==> exists i :: 0 <= i < |all| && CutFrom(p, all[i], r)
    ensures forall i, s ::
      0 <= i < |all| && HoldsOver(all[i], r) && s in CutPiece(all[i].span, r) && s.hi - s.lo >= MERGE_GAP_SECONDS ==>
      all[i].(span := s) in Carved(all, r)
  {
    hide HoldsOver, CutPiece;
    if all != [] {
      var n := |all| - 1;
      CarvedMembers(all[..n], r);
      var tail := LongPieces(all[n], CutPiece(all[n].span, r));
      LongPiecesMembers(all[n], CutPiece(all[n].span, r));
      forall p | p in Carved(all, r) ensures exists i :: 0 <= i < |all| && CutFrom(p, all[i], r) {
        if p in Carved(all[..n], r) {
          var i :| 0 <= i < n && CutFrom(p, all[..n][i], r);
          assert CutFrom(p, all[i], r);
        } else {
          assert CutFrom(p, all[n], r);
        }
      }
      forall i, s | 0 <= i < |all| && HoldsOver(all[i], r) && s in CutPiece(all[i].span, r)
                    && s.hi - s.lo >= MERGE_GAP_SECONDS
        ensures all[i].(span := s) in Carved(all, r)
      {
        if i < n {
          assert all[..n][i] == all[i];
        }
      }
    }
  }

  // ----- One restored span -----

  ghost predicate FirstStart(all0: seq<Marker>, x: real) {
    exists i :: 0 <= i < |all0| && Pending(all0[i]) && all0[i].span.lo == x
  }

  ghost predicate FirstEnd(all0: seq<Marker>, x: real) {
    exists i :: 0 <= i < |all0| && Pending(all0[i]) && all0[i].span.hi == x
  }

  /** x is where held audio began originally, or where restored audio ends. */
  ghost predicate OpensAt(all0: seq<Marker>, restored: seq<Span>, x: real) {
    FirstStart(all0, x) || EndsAt(restored, x)
  }

  ghost predicate ClosesAt(all0: seq<Marker>, restored: seq<Span>, x: real) {
    FirstEnd(all0, x) || StartsAt(restored, x)
  }

  ghost predicate HeldAt(all: seq<Marker>, t: real) { exists m :: m in all && Pending(m) && m.span.Has(t) }

  /** s is a stretch under a second between restored audio or original hold edges. */
  ghost predicate SliverBetween(all0: seq<Marker>, restored: seq<Span>, s: Span) {
    s.hi - s.lo < MERGE_GAP_SECONDS && OpensAt(all0, restored, s.lo) && ClosesAt(all0, restored, s.hi)
  }

  ghost predicate InSliver(all0: seq<Marker>, restored: seq<Span>, t: real) {
    exists s :: SliverBetween(all0, restored, s) && s.Has(t)
  }

  ghost predicate Separate(restored: seq<Span>) {
    && (forall i :: 0 <= i < |restored| ==> restored[i].hi - restored[i].lo >= MERGE_GAP_SECONDS)
    && (forall i, j :: 0 <= i < j < |restored| ==> !Overlap(restored[i], restored[j]))
  }

  ghost predicate NoneHeldOver(all: seq<Marker>, restored: seq<Span>) {
    forall m, i :: m in all && 0 <= i < |restored| ==> !HoldsOver(m, restored[i])
  }

  ghost predicate EdgesKnown(all0: seq<Marker>, st: State) {
    forall m :: m in st.all && Pending(m) ==>
                  OpensAt(all0, st.restored, m.span.lo) && ClosesAt(all0, st.restored, m.span.hi)
  }

  ghost predicate HasCut(all: seq<Marker>, r: Span) {
    exists m :: m in all && m.span == r && m.wasCut && m.userConfirmed
  }

  ghost predicate AllCut(st: State) {
    forall i :: 0 <= i < |st.restored| ==> HasCut(st.all, st.restored[i])
  }

  /** What every restored span keeps true. */
  ghost predicate Sound(all0: seq<Marker>, st: State) {
    Separate(st.restored) && NoneHeldOver(st.all, st.restored) && EdgesKnown(all0, st) && AllCut(st)
  }

  /** r is long enough and clear of what is restored already. */
  ghost predicate Fits(restored: seq<Span>, r: Span) {
    r.hi - r.lo >= MERGE_GAP_SECONDS && forall i :: 0 <= i < |restored| ==> !Overlap(restored[i], r)
  }

  lemma EdgesGrow(all0: seq<Marker>, restored: seq<Span>, r: Span, x: real)
    ensures OpensAt(all0, restored, x) ==> OpensAt(all0, restored + [r], x)
    ensures ClosesAt(all0, restored, x) ==> ClosesAt(all0, restored + [r], x)
    ensures OpensAt(all0, restored + [r], r.hi) && ClosesAt(all0, restored + [r], r.lo)
  {
    var more := restored + [r];
    assert more[|restored|] == r;
    if EndsAt(restored, x) {
      var i :| 0 <= i < |restored| && restored[i].hi == x;
      assert more[i].hi == x;
    }
    if StartsAt(restored, x) {
      var i :| 0 <= i < |restored| && restored[i].lo == x;
      assert more[i].lo == x;
    }
  }

  /** Every marker after marking is an old one or stands for r, cut. */
  lemma WithMarkerMembers(all: seq<Marker>, r: Span)
    ensures forall m :: m in WithMarker(all, r) ==> m in all || (m.span == r && m.wasCut && m.userConfirmed)
    ensures HasCut(WithMarker(all, r), r)
    ensures forall m :: m in all ==> m in WithMarker(all, r) || SpansMatch(m.span, r)
  {
    var k := FindMarker(all, r, 0);
    var marked := WithMarker(all, r);
    if k.Some? {
      assert marked[k.value] == Restored(all[k.value], r);
      forall m | m in all ensures m in marked || SpansMatch(m.span, r) {
        var i :| 0 <= i < |all| && all[i] == m;
        assert i != k.value ==> marked[i] == m;
      }
    } else {
      assert marked[|all|] == Marker(r, false, false, true, true);
      assert forall m :: m in all ==> m in marked;
    }
  }

  /** A pending marker afterwards is an old one clear of r, or what is left of one. */
  lemma PendingAfter(st: State, r: Span, m: Marker)
    requires m in RestoreSpan(st, r).all && Pending(m)
    ensures (m in st.all && !HoldsOver(m, r)) || exists whole :: whole in st.all && CutFrom(m, whole, r)
  {
    hide HoldsOver, CutPiece, FindMarker, Carved, Untouched;
    var marked := WithMarker(st.all, r);
    WithMarkerMembers(st.all, r);
    UntouchedMembers(marked, r);
    CarvedMembers(marked, r);
    if m in Carved(marked, r) {
      var i :| 0 <= i < |marked| && CutFrom(m, marked[i], r);
      PendingOfCut(m, marked[i], r);
      assert marked[i] in st.all;
    }
  }

  lemma PendingOfCut(p: Marker, m: Marker, r: Span)
    requires CutFrom(p, m, r)
    ensures Pending(m) && Pending(p) && !Overlap(p.span, r)
    ensures m.span.lo <= p.span.lo && p.span.hi <= m.span.hi
    ensures p.span.lo == m.span.lo || p.span.lo == r.hi
    ensures p.span.hi == m.span.hi || p.span.hi == r.lo
  {
  }

  lemma StepKeepsHolds(all0: seq<Marker>, st: State, r: Span)
    requires Sound(all0, st) && Fits(st.restored, r)
    ensures NoneHeldOver(RestoreSpan(st, r).all, st.restored + [r]) && EdgesKnown(all0, RestoreSpan(st, r))
  {
    hide RestoreSpan, OpensAt, ClosesAt, CutFrom, HasCut;
    var next, more := RestoreSpan(st, r), st.restored + [r];
    assert next.restored == more by { StepRestores(st, r); }
    forall m | m in next.all && Pending(m)
      ensures forall i :: 0 <= i < |more| ==> !HoldsOver(m, more[i])
      ensures OpensAt(all0, more, m.span.lo) && ClosesAt(all0, more, m.span.hi)
    {
      PendingAfter(st, r, m);
      if m in st.all && !HoldsOver(m, r) {
        EdgesGrow(all0, st.restored, r, m.span.lo);
        EdgesGrow(all0, st.restored, r, m.span.hi);
      } else {
        var whole :| whole in st.all && CutFrom(m, whole, r);
        PendingOfCut(m, whole, r);
        EdgesGrow(all0, st.restored, r, whole.span.lo);
        EdgesGrow(all0, st.restored, r, whole.span.hi);
        forall i | 0 <= i < |more| ensures !HoldsOver(m, more[i]) {
          assert i < |st.restored| ==> !HoldsOver(whole, st.restored[i]);
        }
      }
    }
    forall m, i | m in next.all && 0 <= i < |more| ensures !HoldsOver(m, more[i]) {
      if Pending(m) {
      }
    }
  }

  lemma StepRestores(st: State, r: Span)
    ensures RestoreSpan(st, r).restored == st.restored + [r]
  {
  }

  lemma StepKeepsCuts(all0: seq<Marker>, st: State, r: Span)
    requires Sound(all0, st) && Fits(st.restored, r)
    ensures AllCut(RestoreSpan(st, r)) && Separate(st.restored + [r])
  {
    hide Carved, Untouched, FindMarker, NoneHeldOver, EdgesKnown;
    var next, more, marked := RestoreSpan(st, r), st.restored + [r], WithMarker(st.all, r);
    WithMarkerMembers(st.all, r);
    UntouchedMembers(marked, r);
    forall i | 0 <= i < |more| ensures HasCut(next.all, more[i]) {
      var m: Marker;
      if i < |st.restored| {
        assert HasCut(st.all, st.restored[i]) && !Overlap(st.restored[i], r);
        m :| m in st.all && m.span == st.restored[i] && m.wasCut && m.userConfirmed;
        assert !SpansMatch(m.span, r);
      } else {
        m :| m in marked && m.span == r && m.wasCut && m.userConfirmed;
      }
      assert m in Untouched(marked, r);
      assert m in next.all;
    }
  }

  lemma StepIsSound(all0: seq<Marker>, st: State, r: Span)
    requires Sound(all0, st) && Fits(st.restored, r)
    ensures Sound(all0, RestoreSpan(st, r))
  {
    hide RestoreSpan, NoneHeldOver, EdgesKnown, AllCut, Separate;
    StepKeepsHolds(all0, st, r);
    StepKeepsCuts(all0, st, r);
    StepRestores(st, r);
  }

  lemma CutPieceCovers(s: Span, r: Span, t: real)
    requires s.Has(t) && !r.Has(t) && Overlap(s, r)
    ensures exists p ::
      p in CutPiece(s, r) && p.Has(t) && (p.lo == s.lo || p.lo == r.hi) && (p.hi == s.hi || p.hi == r.lo)
  {
    var left, right := Span(s.lo, MinReal(s.hi, r.lo)), Span(MaxReal(s.lo, r.hi), s.hi);
    var ps := CutPiece(s, r);
    if t < r.lo {
      assert left in ps && left.Has(t);
    } else {
      assert right in ps && right.Has(t);
    }
  }

  lemma SliverWitness(all0: seq<Marker>, restored: seq<Span>, s: Span, t: real)
    requires SliverBetween(all0, restored, s) && s.Has(t)
    ensures InSliver(all0, restored, t)
  {
  }

  lemma SliverGrows(all0: seq<Marker>, restored: seq<Span>, r: Span, t: real)
    requires InSliver(all0, restored, t)
    ensures InSliver(all0, restored + [r], t)
  {
    var s :| SliverBetween(all0, restored, s) && s.Has(t);
    EdgesGrow(all0, restored, r, s.lo);
    EdgesGrow(all0, restored, r, s.hi);
    SliverWitness(all0, restored + [r], s, t);
  }

  /** Held audio stays held, is restored, or is a sliver. */
  ghost predicate Accounted(all0: seq<Marker>, st: State, t: real) {
    HeldAt(st.all, t) || Covers(st.restored, t) || InSliver(all0, st.restored, t)
  }

  lemma HeldAudioAfterStep(all0: seq<Marker>, st: State, r: Span, m: Marker, t: real)
    requires Sound(all0, st) && m in st.all && Pending(m) && m.span.Has(t)
    requires !r.Has(t) && r.hi - r.lo >= MERGE_GAP_SECONDS
    ensures HeldAt(RestoreSpan(st, r).all, t) || InSliver(all0, st.restored + [r], t)
  {
    hide Carved, Untouched, FindMarker, CutPiece, NoneHeldOver, AllCut, Separate, OpensAt, ClosesAt;
    var next, more, marked := RestoreSpan(st, r), st.restored + [r], WithMarker(st.all, r);
    EdgesGrow(all0, st.restored, r, m.span.lo);
    EdgesGrow(all0, st.restored, r, m.span.hi);
    WithMarkerMembers(st.all, r);
    UntouchedMembers(marked, r);
    CarvedMembers(marked, r);
    if m !in marked {
      var s := if t < r.lo then Span(m.span.lo, r.lo) else Span(r.hi, m.span.hi);
      assert SpansMatch(m.span, r);
      SliverWitness(all0, more, s, t);
    } else if HoldsOver(m, r) {
      CutPieceCovers(m.span, r, t);
      var p :| p in CutPiece(m.span, r) && p.Has(t)
        && (p.lo == m.span.lo || p.lo == r.hi) && (p.hi == m.span.hi || p.hi == r.lo);
      if p.hi - p.lo >= MERGE_GAP_SECONDS {
        var i :| 0 <= i < |marked| && marked[i] == m;
        assert marked[i].(span := p) in Carved(marked, r);
        assert m.(span := p) in next.all;
      } else {
        SliverWitness(all0, more, p, t);
      }
    } else {
      assert m in Untouched(marked, r);
      assert m in next.all;
    }
  }

  lemma StepAccounts(all0: seq<Marker>, st: State, r: Span, t: real)
    requires Sound(all0, st) && Fits(st.restored, r) && Accounted(all0, st, t)
    ensures Accounted(all0, RestoreSpan(st, r), t)
  {
    hide RestoreSpan, Sound, InSliver;
    StepRestores(st, r);
    CoversConcat(st.restored, [r], t);
    CoversOne(r, t);
    if InSliver(all0, st.restored, t) {
      SliverGrows(all0, st.restored, r, t);
    } else if HeldAt(st.all, t) && !r.Has(t) {
      var m :| m in st.all && Pending(m) && m.span.Has(t);
      HeldAudioAfterStep(all0, st, r, m, t);
    }
  }

  // ----- A whole run -----

  ghost predicate NotInverted(ss: seq<Span>) {
    forall i :: 0 <= i < |ss| ==> ss[i].lo <= ss[i].hi
  }

  /** No restored span shares time with any of the given ones. */
  ghost predicate ClearOf(restored: seq<Span>, others: seq<Span>) {
    forall i, j :: 0 <= i < |restored| && 0 <= j < |others| && others[j].lo < others[j].hi ==>
                     !Overlap(restored[i], others[j])
  }

  /** after is before with spans added that each lie inside a piece. */
  ghost predicate GrewInside(before: seq<Span>, after: seq<Span>, pieces: seq<Span>) {
    before <= after && forall i :: |before| <= i < |after| ==> InsideSome(after[i], pieces)
  }

  lemma InsideLonger(s: Span, a: seq<Span>, p: Span)
    requires InsideSome(s, a)
    ensures InsideSome(s, a + [p])
  {
    var i :| 0 <= i < |a| && a[i].lo <= s.lo && s.hi <= a[i].hi;
    assert (a + [p])[i] == a[i];
  }

  /** The last piece shares no time with what was restored before it. */
  lemma PieceIsFree(first: seq<Span>, restored: seq<Span>, pieces: seq<Span>, r: Span)
    requires pieces != [] && InOrder(pieces) && GrewInside(first, restored, pieces[..|pieces| - 1])
    requires forall i :: 0 <= i < |first| ==> !Overlap(first[i], pieces[|pieces| - 1])
    requires pieces[|pieces| - 1].lo <= r.lo && r.hi <= pieces[|pieces| - 1].hi
    ensures forall i :: 0 <= i < |restored| ==> !Overlap(restored[i], r)
  {
    var n := |pieces| - 1;
    forall i | 0 <= i < |restored| ensures !Overlap(restored[i], r) {
      if i < |first| {
        assert restored[i] == first[i];
      } else {
        var k :| 0 <= k < n && pieces[..n][k].lo <= restored[i].lo && restored[i].hi <= pieces[..n][k].hi;
        assert pieces[k].hi <= pieces[n].lo;
      }
    }
  }

  /** Growth inside the first pieces is growth inside all, and what lies in the last piece may join it. */
  lemma GrowsOn(first: seq<Span>, restored: seq<Span>, init: seq<Span>, p: Span, r: Span)
    requires GrewInside(first, restored, init)
    ensures GrewInside(first, restored, init + [p])
    ensures p.lo <= r.lo && r.hi <= p.hi ==> GrewInside(first, restored + [r], init + [p])
  {
    forall i | |first| <= i < |restored| ensures InsideSome(restored[i], init + [p]) {
      InsideLonger(restored[i], init, p);
    }
    assert (init + [p])[|init|] == p;
  }

  /** Restoring the rest of the next piece keeps everything sound. */
  lemma NextPieceIsSound(all0: seq<Marker>, first: seq<Span>, before: State, pieces: seq<Span>, r: Span, t: real)
    requires Sound(all0, before) && r.hi - r.lo >= MERGE_GAP_SECONDS
    requires pieces != [] && InOrder(pieces) && GrewInside(first, before.restored, pieces[..|pieces| - 1])
    requires forall i :: 0 <= i < |first| ==> !Overlap(first[i], pieces[|pieces| - 1])
    requires pieces[|pieces| - 1].lo <= r.lo && r.hi <= pieces[|pieces| - 1].hi
    ensures var end := RestoreSpan(before, r);
      && end.restored == before.restored + [r] && Sound(all0, end)
      && (Accounted(all0, before, t) ==> Accounted(all0, end, t))
  {
    hide Sound, Accounted, RestoreSpan, Overlap, InOrder, GrewInside;
    PieceIsFree(first, before.restored, pieces, r);
    StepRestores(before, r);
    StepIsSound(all0, before, r);
    if Accounted(all0, before, t) {
      StepAccounts(all0, before, r, t);
    }
  }

  lemma {:induction false} PiecesAreSound(all0: seq<Marker>, st: State, pieces: seq<Span>, excluded: real, t: real)
    requires Sound(all0, st) && Positive(pieces) && InOrder(pieces)
    requires forall i, k :: 0 <= i < |st.restored| && 0 <= k < |pieces| ==> !Overlap(st.restored[i], pieces[k])
    ensures var end := RestorePieces(st, pieces, excluded);
      && Sound(all0, end) && GrewInside(st.restored, end.restored, pieces)
      && (Accounted(all0, st, t) ==> Accounted(all0, end, t))
    decreases |pieces|
  {
    hide Sound, Accounted, RestoreSpan, Overlap, InsideSome;
    if pieces != [] {
      var n := |pieces| - 1;
      var init, p := pieces[..n], pieces[n];
      PiecesAreSound(all0, st, init, excluded, t);
      hide GrewInside, InOrder, Positive;
      var before := RestorePieces(st, init, excluded);
      var r := Span(MaxReal(p.lo, excluded), p.hi);
      assert pieces == init + [p];
      GrowsOn(st.restored, before.restored, init, p, r);
      if r.hi - r.lo >= MERGE_GAP_SECONDS {
        NextPieceIsSound(all0, st.restored, before, pieces, r, t);
      }
    }
  }

  /** What is left after subtracting shares no time with what was subtracted. */
  lemma PiecesAvoid(whole: seq<Span>, cuts: seq<Span>, s: Span, c: Span)
    requires InsideSome(s, Subtract(whole, cuts)) && c in cuts && c.lo < c.hi && s.lo < s.hi
    ensures !Overlap(s, c)
  {
    var t := MaxReal(s.lo, c.lo);
    var pieces := Subtract(whole, cuts);
    SubtractCovers(whole, cuts, t);
    var i :| 0 <= i < |pieces| && pieces[i].lo <= s.lo && s.hi <= pieces[i].hi;
    var j :| 0 <= j < |cuts| && cuts[j] == c;
    assert c.Has(t) ==> Covers(cuts, t);
    assert pieces[i].Has(t) ==> Covers(pieces, t);
  }

  lemma CorrectionIsSound(all0: seq<Marker>, st: State, c: Correction, env: Setting, t: real)
    requires Sound(all0, st) && NotInverted(env.prior) && NotInverted(env.barriers)
    requires ClearOf(st.restored, env.prior + env.barriers)
    ensures var end := RestoreCorrection(st, c, env);
      && Sound(all0, end) && ClearOf(end.restored, env.prior + env.barriers) && st.restored <= end.restored
      && (Accounted(all0, st, t) ==> Accounted(all0, end, t))
  {
    hide Accounted, RestorePieces, NoneHeldOver, EdgesKnown, AllCut, Subtract, Restorable;
    if Restorable(c, env) {
      WantedIsReal(c, env);
      var whole, cuts := [Wanted(c, env)], Blocked(st, env);
      var pieces := Subtract(whole, cuts);
      SubtractShape(whole, cuts);
      SubtractInOrder(whole, cuts);
      forall i, k | 0 <= i < |st.restored| && 0 <= k < |pieces| ensures !Overlap(st.restored[i], pieces[k]) {
        assert cuts[|env.prior| + i] == st.restored[i];
        assert pieces[k].lo <= pieces[k].lo && pieces[k].hi <= pieces[k].hi;
        PiecesAvoid(whole, cuts, pieces[k], st.restored[i]);
      }
      PiecesAreSound(all0, st, pieces, env.excluded, t);
      var end := RestorePieces(st, pieces, env.excluded);
      var others := env.prior + env.barriers;
      forall i, j | 0 <= i < |end.restored| && 0 <= j < |others| && others[j].lo < others[j].hi
        ensures !Overlap(end.restored[i], others[j])
      {
        if i >= |st.restored| {
          BlockedHas(st, env, others[j]);
          PiecesAvoid(whole, cuts, end.restored[i], others[j]);
        }
      }
    }
  }

  lemma WantedIsReal(c: Correction, env: Setting)
    requires Restorable(c, env)
    ensures Wanted(c, env).lo < Wanted(c, env).hi
  {
  }

  lemma BlockedHas(st: State, env: Setting, c: Span)
    requires c in env.prior + env.barriers
    ensures c in Blocked(st, env)
  {
  }

  lemma {:induction false} RunIsSound(all0: seq<Marker>, cs: seq<Correction>, env: Setting, t: real)
    requires NotInverted(env.prior) && NotInverted(env.barriers)
    ensures var end := RestoreAll(State(all0, []), cs, env);
      && Sound(all0, end) && ClearOf(end.restored, env.prior + env.barriers)
      && (HeldAt(all0, t) ==> Accounted(all0, end, t))
  {
    hide RestoreCorrection, Sound, ClearOf;
    var first := State(all0, []);
    if cs == [] {
      FirstIsSound(all0, env);
    } else {
      RunIsSound(all0, cs[..|cs| - 1], env, t);
      CorrectionIsSound(all0, RestoreAll(first, cs[..|cs| - 1], env), cs[|cs| - 1], env, t);
    }
  }

  lemma FirstIsSound(all0: seq<Marker>, env: Setting)
    ensures Sound(all0, State(all0, [])) && ClearOf([], env.prior + env.barriers)
  {
    forall m | m in all0 && Pending(m) ensures OpensAt(all0, [], m.span.lo) && ClosesAt(all0, [], m.span.hi) {
      var i :| 0 <= i < |all0| && all0[i] == m;
      assert FirstStart(all0, m.span.lo) && FirstEnd(all0, m.span.hi);
    }
  }

  /** Restored spans last a second, share no time with each other, prior cuts or barriers, and each is a cut marker. */
  lemma RestoredSpansAreClear(all0: seq<Marker>, cs: seq<Correction>, env: Setting, i: nat)
    requires NotInverted(env.prior) && NotInverted(env.barriers)
    requires i < |RestoreAll(State(all0, []), cs, env).restored|
    ensures var end := RestoreAll(State(all0, []), cs, env);
      && end.restored[i].hi - end.restored[i].lo >= MERGE_GAP_SECONDS
      && (forall j :: 0 <= j < |end.restored| && j != i ==> !Overlap(end.restored[i], end.restored[j]))
      && (forall c :: c in env.prior + env.barriers && c.lo < c.hi ==> !Overlap(end.restored[i], c))
      && HasCut(end.all, end.restored[i])
  {
    hide RestoreAll, HasCut, NoneHeldOver, EdgesKnown;
    RunIsSound(all0, cs, env, 0.0);
  }

  /** No marker pending review overlaps restored audio. */
  lemma NoHoldOverRestored(all0: seq<Marker>, cs: seq<Correction>, env: Setting, m: Marker, i: nat)
    requires NotInverted(env.prior) && NotInverted(env.barriers)
    requires var end := RestoreAll(State(all0, []), cs, env); m in end.all && Pending(m) && i < |end.restored|
    ensures !Overlap(m.span, RestoreAll(State(all0, []), cs, env).restored[i])
  {
    hide RestoreAll, AllCut, EdgesKnown, Separate;
    RunIsSound(all0, cs, env, 0.0);
    var end := RestoreAll(State(all0, []), cs, env);
    assert !HoldsOver(m, end.restored[i]);
  }

  /** Audio that was held is still held, restored, or a sliver under a second between restored audio and hold edges. */
  lemma HeldAudioIsAccounted(all0: seq<Marker>, cs: seq<Correction>, env: Setting, t: real)
    requires NotInverted(env.prior) && NotInverted(env.barriers)
    requires HeldAt(all0, t)
    ensures Accounted(all0, RestoreAll(State(all0, []), cs, env), t)
  {
    hide RestoreAll, Accounted;
    RunIsSound(all0, cs, env, t);
  }

  // ----- Confirmed audio -----

  /**
   * s is confirmed audio too short to restore: under a second between blocked audio,
   * the excluded opening or its own ends.
   */
  ghost predicate LeftoverOf(w: Span, blocked: seq<Span>, excluded: real, s: Span) {
    && s.hi - s.lo < MERGE_GAP_SECONDS
    && (s.lo == w.lo || s.lo == excluded || EndsAt(blocked, s.lo))
    && (s.hi == w.hi || StartsAt(blocked, s.hi))
  }

  ghost predicate InLeftover(w: Span, blocked: seq<Span>, excluded: real, t: real) {
    exists s :: LeftoverOf(w, blocked, excluded, s) && s.Has(t)
  }

  ghost predicate ShortPieceHas(pieces: seq<Span>, excluded: real, t: real) {
    exists k :: 0 <= k < |pieces| && pieces[k].Has(t)
                && pieces[k].hi - MaxReal(pieces[k].lo, excluded) < MERGE_GAP_SECONDS
  }

  lemma {:induction false} PiecesGetCovered(st: State, pieces: seq<Span>, excluded: real, t: real)
    requires Covers(pieces, t) && t >= excluded
    ensures Covers(RestorePieces(st, pieces, excluded).restored, t) || ShortPieceHas(pieces, excluded, t)
    decreases |pieces|
  {
    var n := |pieces| - 1;
    var init, p := pieces[..n], pieces[n];
    var before := RestorePieces(st, init, excluded);
    var r := Span(MaxReal(p.lo, excluded), p.hi);
    CoversConcat(init, [p], t);
    CoversOne(p, t);
    assert init + [p] == pieces;
    if r.hi - r.lo >= MERGE_GAP_SECONDS {
      StepRestores(before, r);
      CoversConcat(before.restored, [r], t);
      CoversOne(r, t);
    }
    if !p.Has(t) {
      PiecesGetCovered(st, init, excluded, t);
      if ShortPieceHas(init, excluded, t) {
        var k :| 0 <= k < |init| && init[k].Has(t) && init[k].hi - MaxReal(init[k].lo, excluded) < MERGE_GAP_SECONDS;
        assert pieces[k] == init[k];
      }
    } else if r.hi - r.lo < MERGE_GAP_SECONDS {
      assert pieces[n] == p;
    }
  }

  lemma {:induction false} RestoredOnlyGrows(st: State, pieces: seq<Span>, excluded: real)
    ensures st.restored <= RestorePieces(st, pieces, excluded).restored
    decreases |pieces|
  {
    hide RestoreSpan;
    if pieces != [] {
      var init, p := pieces[..|pieces| - 1], pieces[|pieces| - 1];
      RestoredOnlyGrows(st, init, excluded);
      StepRestores(RestorePieces(st, init, excluded), Span(MaxReal(p.lo, excluded), p.hi));
    }
  }

  lemma {:induction false} RunOnlyGrows(st: State, cs: seq<Correction>, env: Setting, k: nat)
    requires k <= |cs|
    ensures RestoreAll(st, cs[..k], env).restored <= RestoreAll(st, cs, env).restored
    decreases |cs|
  {
    hide RestorePieces, Restorable;
    if k < |cs| {
      var n := |cs| - 1;
      RunOnlyGrows(st, cs[..n], env, k);
      assert cs[..n][..k] == cs[..k];
      var before := RestoreAll(st, cs[..n], env);
      RestoredOnlyGrows(before, Subtract([Wanted(cs[n], env)], Blocked(before, env)), env.excluded);
    } else {
      assert cs[..k] == cs;
    }
  }

  lemma BlockedGrows(a: State, b: State, env: Setting, x: real)
    requires a.restored <= b.restored
    ensures EndsAt(Blocked(a, env), x) ==> EndsAt(Blocked(b, env), x)
    ensures StartsAt(Blocked(a, env), x) ==> StartsAt(Blocked(b, env), x)
    ensures Covers(Blocked(a, env), x) ==> Covers(Blocked(b, env), x)
  {
    var p, q := Blocked(a, env), Blocked(b, env);
    forall s | s in p ensures s in q {
      if s in env.prior {
      } else if s in a.restored {
        var i :| 0 <= i < |a.restored| && a.restored[i] == s;
        assert b.restored[i] == s;
      } else {
        assert s in env.barriers;
      }
    }
    if EndsAt(p, x) {
      var i :| 0 <= i < |p| && p[i].hi == x;
      assert p[i] in q;
    }
    if StartsAt(p, x) {
      var i :| 0 <= i < |p| && p[i].lo == x;
      assert p[i] in q;
    }
    if Covers(p, x) {
      var i :| 0 <= i < |p| && p[i].Has(x);
      assert p[i] in q;
    }
  }

  lemma LeftoverGrows(w: Span, a: State, b: State, env: Setting, t: real)
    requires a.restored <= b.restored && InLeftover(w, Blocked(a, env), env.excluded, t)
    ensures InLeftover(w, Blocked(b, env), env.excluded, t)
  {
    hide Blocked;
    var s :| LeftoverOf(w, Blocked(a, env), env.excluded, s) && s.Has(t);
    BlockedGrows(a, b, env, s.lo);
    BlockedGrows(a, b, env, s.hi);
    assert LeftoverOf(w, Blocked(b, env), env.excluded, s);
  }

  lemma CorrectionCovers(st: State, c: Correction, env: Setting, t: real)
    requires Restorable(c, env) && Wanted(c, env).Has(t) && t >= env.excluded
    ensures Covers(Blocked(RestoreCorrection(st, c, env), env), t)
      || InLeftover(Wanted(c, env), Blocked(st, env), env.excluded, t)
  {
    hide RestorePieces, Restorable;
    var w, cuts := Wanted(c, env), Blocked(st, env);
    var pieces := Subtract([w], cuts);
    var end := RestoreCorrection(st, c, env);
    SubtractCovers([w], cuts, t);
    CoversOne(w, t);
    RestoredOnlyGrows(st, pieces, env.excluded);
    if Covers(cuts, t) {
      BlockedGrows(st, end, env, t);
    } else {
      PiecesGetCovered(st, pieces, env.excluded, t);
      if Covers(end.restored, t) {
        CoversConcat(env.prior, end.restored, t);
        CoversConcat(env.prior + end.restored, env.barriers, t);
      } else {
        var k :| 0 <= k < |pieces| && pieces[k].Has(t)
          && pieces[k].hi - MaxReal(pieces[k].lo, env.excluded) < MERGE_GAP_SECONDS;
        SubtractEdges([w], cuts, k);
        assert LeftoverOf(w, cuts, env.excluded, Span(MaxReal(pieces[k].lo, env.excluded), pieces[k].hi));
      }
    }
  }

  /** Every restorable confirm ends up covered by cuts, barriers, the excluded opening, or leftovers under a second. */
  lemma ConfirmedAudioIsCovered(all0: seq<Marker>, cs: seq<Correction>, env: Setting, k: nat, t: real)
    requires k < |cs| && Restorable(cs[k], env) && Wanted(cs[k], env).Has(t)
    ensures var end := RestoreAll(State(all0, []), cs, env);
      || Covers(Blocked(end, env), t) || t < env.excluded
      || InLeftover(Wanted(cs[k], env), Blocked(end, env), env.excluded, t)
  {
    hide RestoreCorrection, Restorable, Blocked, InLeftover;
    if t >= env.excluded {
      var first := State(all0, []);
      var before, after := RestoreAll(first, cs[..k], env), RestoreAll(first, cs[..k + 1], env);
      var end := RestoreAll(first, cs, env);
      assert cs[..k + 1][..k] == cs[..k];
      RunOnlyGrows(first, cs, env, k);
      RunOnlyGrows(first, cs, env, k + 1);
      CorrectionCovers(before, cs[k], env, t);
      if Covers(Blocked(after, env), t) {
        BlockedGrows(after, end, env, t);
      } else {
        LeftoverGrows(Wanted(cs[k], env), before, end, env, t);
      }
    }
  }
}
