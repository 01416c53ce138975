/** Audio a user trimmed out of an approval, with newer decisions taking precedence. */
module KeepRanges {
  import opened Basics
  import opened Spans

  /** A saved correction, newest first in a list; a bound that is not a finite number leaves None. */
  datatype Correction = Correction(autoFiled: bool, bounds: Option<Span>, approved: Option<Span>)

  /** A user's decision about a real span; pass-2 auto-approvals carry no authority here. */
  predicate Counts(c: Correction) {
    !c.autoFiled && c.bounds.Some? && c.bounds.value.lo < c.bounds.value.hi
  }

  /** The approval names its own span, so the rest of the bounds is trimmed out. */
  predicate NamesSpan(c: Correction) {
    c.approved.Some? && c.approved.value.lo < c.approved.value.hi
  }

  function ApprovedSpan(c: Correction): Span
    requires Counts(c)
  {
    if NamesSpan(c) then c.approved.value else c.bounds.value
  }

  function NonEmpty(s: Span): seq<Span> { if s.hi > s.lo then [s] else [] }

  /** What one correction adds to the protected audio, given the approvals newer than it. */
  function TrimmedOut(c: Correction, newer: seq<Span>): seq<Span>
    requires Counts(c)
  {
    if !NamesSpan(c) then []
    else
      var b, a := c.bounds.value, c.approved.value;
      Subtract(NonEmpty(Span(b.lo, MinReal(b.hi, a.lo))), newer)
      + Subtract(NonEmpty(Span(MaxReal(b.lo, a.hi), b.hi)), newer)
  }

  function Approvals(cs: seq<Correction>): seq<Span> {
    if cs == [] then []
    else Approvals(cs[..|cs| - 1]) + (if Counts(cs[|cs| - 1]) then [ApprovedSpan(cs[|cs| - 1])] else [])
  }

  function Protected(cs: seq<Correction>): seq<Span> {
    if cs == [] then []
    else
      var init, last := cs[..|cs| - 1], cs[|cs| - 1];
      Protected(init) + (if Counts(last) then TrimmedOut(last, Approvals(init)) else [])
  }

  method UserTrimmedKeepRanges(corrections: seq<Correction>) returns (ranges: seq<Span>)
    ensures ranges == MergeRuns(Protected(corrections))
  {
    hide MergeRuns;
    var kept: seq<Span> := [];
    var newerApprovals: seq<Span> := [];
    for i := 0 to |corrections|
      invariant kept == Protected(corrections[..i])
      invariant newerApprovals == Approvals(corrections[..i])
    {
      assert corrections[..i + 1][..i] == corrections[..i];
      var c := corrections[i];
      if !Counts(c) {
        continue;
      }
      if NamesSpan(c) {
        var b, a := c.bounds.value, c.approved.value;
        var before := Subtract(NonEmpty(Span(b.lo, MinReal(b.hi, a.lo))), newerApprovals);
        var after := Subtract(NonEmpty(Span(MaxReal(b.lo, a.hi), b.hi)), newerApprovals);
        assert kept + before + after == kept + (before + after);
        kept := kept + before + after;
        newerApprovals := newerApprovals + [a];
      } else {
        newerApprovals := newerApprovals + [c.bounds.value];
      }
    }
    assert corrections[..|corrections|] == corrections;
    ranges := MergeRuns(kept);
  }

  // ----- The newest decision about an instant wins -----

  /** A user approved a span with t: the one the approval names, or failing that its bounds. */
  ghost predicate Approves(c: Correction, t: real) {
    && !c.autoFiled && c.bounds.Some? && c.bounds.value.lo < c.bounds.value.hi
    && if c.approved.Some? && c.approved.value.lo < c.approved.value.hi
       then c.approved.value.lo <= t < c.approved.value.hi
       else c.bounds.value.lo <= t < c.bounds.value.hi
  }

  /** A user approved a span that leaves out t, which the bounds had. */
  ghost predicate TrimsOut(c: Correction, t: real) {
    && !c.autoFiled && c.bounds.Some? && c.bounds.value.lo <= t < c.bounds.value.hi
    && c.approved.Some? && c.approved.value.lo < c.approved.value.hi
    && (t < c.approved.value.lo || c.approved.value.hi <= t)
  }

  ghost predicate Mentions(c: Correction, t: real) {
    Approves(c, t) || TrimsOut(c, t)
  }

  /** Correction k is the newest one that says anything about t. */
  ghost predicate NewestAbout(cs: seq<Correction>, k: int, t: real) {
    0 <= k < |cs| && Mentions(cs[k], t) && forall j :: 0 <= j < k ==> !Mentions(cs[j], t)
  }

  ghost predicate NewestTrimsOut(cs: seq<Correction>, t: real) {
    exists k :: NewestAbout(cs, k, t) && TrimsOut(cs[k], t)
  }

  lemma NonEmptyCovers(s: Span, t: real)
    ensures Covers(NonEmpty(s), t) <==> s.Has(t)
  {
    CoversOne(s, t);
  }

  lemma TrimmedOutCovers(c: Correction, newer: seq<Span>, t: real)
    requires Counts(c)
    ensures Covers(TrimmedOut(c, newer), t) <==> TrimsOut(c, t) && !Covers(newer, t)
  {
    if NamesSpan(c) {
      var b, a := c.bounds.value, c.approved.value;
      var before, after := NonEmpty(Span(b.lo, MinReal(b.hi, a.lo))), NonEmpty(Span(MaxReal(b.lo, a.hi), b.hi));
      CoversConcat(Subtract(before, newer), Subtract(after, newer), t);
      SubtractCovers(before, newer, t);
      SubtractCovers(after, newer, t);
      NonEmptyCovers(Span(b.lo, MinReal(b.hi, a.lo)), t);
      NonEmptyCovers(Span(MaxReal(b.lo, a.hi), b.hi), t);
    }
  }

  ghost predicate SomeApproves(cs: seq<Correction>, t: real) {
    exists j :: 0 <= j < |cs| && Approves(cs[j], t)
  }

  lemma {:induction false} ApprovalsCover(cs: seq<Correction>, t: real)
    ensures Covers(Approvals(cs), t) <==> SomeApproves(cs, t)
  {
    if cs != [] {
      var init, last := cs[..|cs| - 1], cs[|cs| - 1];
      ApprovalsCover(init, t);
      if Counts(last) {
        CoversConcat(Approvals(init), [ApprovedSpan(last)], t);
        CoversOne(ApprovedSpan(last), t);
      } else {
        assert Approvals(cs) == Approvals(init);
      }
      if SomeApproves(init, t) {
        var j :| 0 <= j < |init| && Approves(init[j], t);
        assert Approves(cs[j], t);
      }
      if Approves(last, t) {
        assert Approves(cs[|cs| - 1], t);
      }
      if SomeApproves(cs, t) {
        var j :| 0 <= j < |cs| && Approves(cs[j], t);
        assert j < |init| ==> Approves(init[j], t);
      }
    }
  }

  ghost predicate Silent(cs: seq<Correction>, t: real) {
    forall j :: 0 <= j < |cs| ==> !Mentions(cs[j], t)
  }

  lemma NewestExtends(cs: seq<Correction>, t: real)
    requires cs != []
    ensures var init, last := cs[..|cs| - 1], cs[|cs| - 1];
      NewestTrimsOut(cs, t) <==> NewestTrimsOut(init, t) || (Silent(init, t) && TrimsOut(last, t))
  {
    var init, last := cs[..|cs| - 1], cs[|cs| - 1];
    if NewestTrimsOut(init, t) {
      var k :| NewestAbout(init, k, t) && TrimsOut(init[k], t);
      assert NewestAbout(cs, k, t);
    }
    if Silent(init, t) && TrimsOut(last, t) {
      assert NewestAbout(cs, |init|, t);
    }
    if NewestTrimsOut(cs, t) {
      var k :| NewestAbout(cs, k, t) && TrimsOut(cs[k], t);
      if k < |init| {
        assert NewestAbout(init, k, t);
      }
    }
  }

  /** Whoever is mentioned first decides: trimmed out, or approved. */
  lemma {:induction false} SomeoneDecides(cs: seq<Correction>, t: real)
    ensures NewestTrimsOut(cs, t) || SomeApproves(cs, t) || Silent(cs, t)
    ensures Silent(cs, t) ==> !SomeApproves(cs, t)
  {
    if cs != [] {
      var init, last := cs[..|cs| - 1], cs[|cs| - 1];
      SomeoneDecides(init, t);
      NewestExtends(cs, t);
      if SomeApproves(init, t) {
        var j :| 0 <= j < |init| && Approves(init[j], t);
        assert Approves(cs[j], t);
      }
      assert Approves(last, t) ==> Approves(cs[|cs| - 1], t);
    }
  }

  lemma {:induction false} ProtectedIsNewest(cs: seq<Correction>, t: real)
    ensures Covers(Protected(cs), t) <==> NewestTrimsOut(cs, t)
  {
    hide Approves, TrimsOut, TrimmedOut;
    if cs != [] {
      var init, last := cs[..|cs| - 1], cs[|cs| - 1];
      ProtectedIsNewest(init, t);
      NewestExtends(cs, t);
      SomeoneDecides(init, t);
      ApprovalsCover(init, t);
      if Counts(last) {
        CoversConcat(Protected(init), TrimmedOut(last, Approvals(init)), t);
        TrimmedOutCovers(last, Approvals(init), t);
      } else {
        assert Protected(cs) == Protected(init);
        NotTrimming(last, t);
      }
    }
  }

  lemma NotTrimming(c: Correction, t: real)
    requires !Counts(c)
    ensures !TrimsOut(c, t)
  {
  }

  /** An instant is kept exactly when the newest correction that mentions it trims it out. */
  lemma KeptIsLastWriterWins(cs: seq<Correction>, t: real)
    ensures Covers(MergeRuns(Protected(cs)), t) <==> NewestTrimsOut(cs, t)
  {
    hide Protected, MergeRuns, NewestTrimsOut;
    MergeRunsCovers(Protected(cs), t);
    ProtectedIsNewest(cs, t);
  }

  lemma {:induction false} ProtectedPositive(cs: seq<Correction>)
    ensures Positive(Protected(cs))
  {
    if cs != [] {
      var init, last := cs[..|cs| - 1], cs[|cs| - 1];
      ProtectedPositive(init);
      if Counts(last) && NamesSpan(last) {
        var b, a := last.bounds.value, last.approved.value;
        SubtractShape(NonEmpty(Span(b.lo, MinReal(b.hi, a.lo))), Approvals(init));
        SubtractShape(NonEmpty(Span(MaxReal(b.lo, a.hi), b.hi)), Approvals(init));
      }
    }
  }

  /** The ranges come out non-empty, in order and apart, as the trim split assumes. */
  lemma KeepRangesApart(cs: seq<Correction>)
    ensures Apart(MergeRuns(Protected(cs))) && Positive(MergeRuns(Protected(cs)))
  {
    ProtectedPositive(cs);
    MergeRunsApart(Protected(cs));
  }
}
