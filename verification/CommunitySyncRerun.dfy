/** What the counters count, and running the same manifest again. */
module CommunitySyncRerun {
  import opened Basics
  import opened CommunitySync
  import opened CommunitySyncProofs
  import opened CommunitySyncRows

  // ----- What the counters count -----

  function Tallied(es: seq<Entry>, snapshot: seq<Row>, accepted: set<string>, fetch: string -> Option<Payload>,
                   o: Outcome): nat
  {
    if es == [] then 0
    else
      var e := es[|es| - 1];
      Tallied(es[..|es| - 1], snapshot, accepted, fetch, o)
      + (if OutcomeOf(e, Lookup(snapshot, e.cid), accepted, fetch) == o then 1 else 0)
  }

  /** Each counter of the entry phase grows by the entries with that outcome, and every entry has one. */
  lemma {:induction false} CountersAreTallies(st: State, snapshot: seq<Row>, es: seq<Entry>, accepted: set<string>,
                                              fetch: string -> Option<Payload>)
    ensures var c := ApplyEntries(st, snapshot, es, accepted, fetch).counts;
            && c.inserts == st.counts.inserts + Tallied(es, snapshot, accepted, fetch, Inserted)
            && c.updates == st.counts.updates + Tallied(es, snapshot, accepted, fetch, Updated)
            && c.skips == st.counts.skips + Tallied(es, snapshot, accepted, fetch, Skipped)
            && c.errors == st.counts.errors + Tallied(es, snapshot, accepted, fetch, Failed)
            && c.filtered == st.counts.filtered + Tallied(es, snapshot, accepted, fetch, FilteredOut)
            && c.deletes == st.counts.deletes
    ensures var c := ApplyEntries(st, snapshot, es, accepted, fetch).counts;
            c.inserts + c.updates + c.skips + c.errors + c.filtered
              == st.counts.inserts + st.counts.updates + st.counts.skips + st.counts.errors + st.counts.filtered + |es|
  {
    hide OutcomeOf, Lookup, Write, Gate;
    if es != [] {
      CountersAreTallies(st, snapshot, es[..|es| - 1], accepted, fetch);
    }
  }

  lemma {:induction false} TalliedZero(es: seq<Entry>, snapshot: seq<Row>, accepted: set<string>,
                                       fetch: string -> Option<Payload>, o: Outcome)
    ensures Tallied(es, snapshot, accepted, fetch, o) == 0
      <==> forall i :: 0 <= i < |es| ==> OutcomeOf(es[i], Lookup(snapshot, es[i].cid), accepted, fetch) != o
  {
    hide OutcomeOf, Lookup;
    if es != [] {
      var n := |es| - 1;
      TalliedZero(es[..n], snapshot, accepted, fetch, o);
      assert forall i :: 0 <= i < n ==> es[..n][i] == es[i];
    }
  }

  /** Every manifest item is counted once; the rest of skips are synced rows the delete phase passed over. */
  lemma EveryEntryIsCounted(rows: seq<Row>, m: Manifest, accepted: set<string>, fetch: string -> Option<Payload>)
    ensures var c := Run(rows, m, accepted, fetch).counts;
            var mid := EntryPhase(rows, m, accepted, fetch).rows;
            var incoming := Ids(Usable(m));
            c.inserts + c.updates + c.skips + c.errors + c.filtered
              == |m| + SkippedDeletes(mid, incoming, AllowDeletes(mid, incoming))
  {
    hide Usable, ApplyEntries, CountWhere, Tallied, AllowDeletes, Without, AbsentCount, SkippedDeletes;
    var es := Usable(m);
    CountersAreTallies(State(rows, Counts(0, 0, 0, 0, |m| - |es|, 0)), rows, es, accepted, fetch);
  }

  lemma {:induction false} CountsAgree(a: seq<Row>, b: seq<Row>, p: Row -> bool)
    requires |a| == |b| && forall i :: 0 <= i < |a| ==> p(a[i]) == p(b[i])
    ensures CountWhere(a, p) == CountWhere(b, p)
  {
    if a != [] {
      CountsAgree(a[..|a| - 1], b[..|b| - 1], p);
    }
  }

  // ----- A second run inserts and deletes nothing, whatever the manifest -----

  lemma LookupFinds(rows: seq<Row>, cid: string)
    ensures Lookup(rows, cid).Some? <==> exists k :: 0 <= k < |rows| && HasCid(rows[k], cid)
    ensures FindFirst(rows, cid).Some? <==> Lookup(rows, cid).Some?
  {
    if k :| 0 <= k < |rows| && HasCid(rows[k], cid) {
      assert rows[k] in rows;
    }
    if Lookup(rows, cid).Some? {
      var k :| 0 <= k < |rows| && rows[k] == Lookup(rows, cid).value;
    }
  }

  /** An id with a row keeps one. */
  lemma StaysFound(a: seq<Row>, b: seq<Row>, touched: set<string>, cid: string)
    requires Extends(a, b, touched) && Lookup(a, cid).Some?
    ensures Lookup(b, cid).Some?
  {
    LookupFinds(a, cid);
    var k :| 0 <= k < |a| && HasCid(a[k], cid);
    assert Kept(a[k], b[k], touched);
    LookupFinds(b, cid);
  }

  /** An entry that does not insert leaves the table its size; one that inserts leaves its id a row. */
  lemma EntrySizes(st: State, snapshot: seq<Row>, e: Entry, seen: set<string>, accepted: set<string>,
                   fetch: string -> Option<Payload>)
    requires DistinctIds(st.rows) && Extends(snapshot, st.rows, seen)
    ensures var o := OutcomeOf(e, Lookup(snapshot, e.cid), accepted, fetch);
            var r := ApplyEntry(st, snapshot, e, accepted, fetch).rows;
            (o != Inserted ==> |r| == |st.rows|) && (o == Inserted ==> Lookup(r, e.cid).Some?)
  {
    hide OutcomeOf, Extends, Lookup, FindFirst, Gate, DistinctIds, Import;
    var x := Lookup(snapshot, e.cid);
    var o := OutcomeOf(e, x, accepted, fetch);
    var gated := Gate(st.rows, x, accepted);
    GateExtends(st.rows, snapshot, e.cid, seen, accepted);
    UpdatesHaveRow(e, x, accepted, fetch);
    if o == Updated {
      StaysFound(snapshot, st.rows, seen, e.cid);
      StaysFound(st.rows, gated, {e.cid}, e.cid);
    }
    WritesHavePayload(e, x, accepted, fetch);
    if o == Inserted || o == Updated {
      ImportSizes(gated, e.cid, PayloadOf(e, fetch).value, e.version, HashOf(e));
    }
  }

  lemma UpdatesHaveRow(e: Entry, x: Option<Row>, accepted: set<string>, fetch: string -> Option<Payload>)
    ensures OutcomeOf(e, x, accepted, fetch) == Updated ==> x.Some?
    ensures OutcomeOf(e, x, accepted, fetch) == Inserted ==> x.None?
  {
  }

  lemma ImportSizes(rows: seq<Row>, cid: string, p: Payload, version: int, hash: Option<string>)
    requires DistinctIds(rows)
    ensures var r := Import(rows, cid, p, version, hash);
            Lookup(r, cid).Some? && (Lookup(rows, cid).Some? ==> |r| == |rows|)
  {
    hide Lookup, FindFirst, Extends;
    LookupFinds(rows, cid);
    var r := Import(rows, cid, p, version, hash);
    if Lookup(rows, cid).Some? {
      ImportExtends(rows, cid, p, version, hash);
      StaysFound(rows, r, {cid}, cid);
    } else {
      assert HasCid(r[|rows|], cid);
      LookupFinds(r, cid);
    }
  }

  lemma {:induction false} EntriesKeepSize(st: State, snapshot: seq<Row>, es: seq<Entry>, accepted: set<string>,
                                           fetch: string -> Option<Payload>)
    requires DistinctIds(snapshot) && st.rows == snapshot
    requires forall i :: 0 <= i < |es| ==> OutcomeOf(es[i], Lookup(snapshot, es[i].cid), accepted, fetch) != Inserted
    ensures |ApplyEntries(st, snapshot, es, accepted, fetch).rows| == |snapshot|
  {
    hide ApplyEntry, OutcomeOf, Lookup, Extends, DistinctIds;
    if es != [] {
      var n := |es| - 1;
      assert forall i :: 0 <= i < n ==> es[..n][i] == es[i];
      EntriesKeepSize(st, snapshot, es[..n], accepted, fetch);
      EntriesExtend(st, snapshot, es[..n], accepted, fetch);
      EntrySizes(ApplyEntries(st, snapshot, es[..n], accepted, fetch), snapshot, es[n], Ids(es[..n]), accepted, fetch);
    }
  }

  lemma {:induction false} InsertedIsFound(st: State, snapshot: seq<Row>, es: seq<Entry>, i: nat, accepted: set<string>,
                                           fetch: string -> Option<Payload>)
    requires DistinctIds(snapshot) && st.rows == snapshot && i < |es|
    requires OutcomeOf(es[i], Lookup(snapshot, es[i].cid), accepted, fetch) == Inserted
    ensures Lookup(ApplyEntries(st, snapshot, es, accepted, fetch).rows, es[i].cid).Some?
    decreases |es|
  {
    hide ApplyEntry, OutcomeOf, Lookup, Extends, DistinctIds;
    var n := |es| - 1;
    var front := es[..n];
    EntriesExtend(st, snapshot, front, accepted, fetch);
    var mid := ApplyEntries(st, snapshot, front, accepted, fetch);
    if i == n {
      EntrySizes(mid, snapshot, es[n], Ids(front), accepted, fetch);
    } else {
      assert front[i] == es[i];
      InsertedIsFound(st, snapshot, front, i, accepted, fetch);
      EntryExtends(mid, snapshot, es[n], Ids(front), accepted, fetch);
      StaysFound(mid.rows, ApplyEntry(mid, snapshot, es[n], accepted, fetch).rows, {es[n].cid}, es[i].cid);
    }
  }

  lemma IncomingStaysFound(mid: seq<Row>, incoming: set<string>, cid: string)
    requires Lookup(mid, cid).Some? && cid in incoming
    ensures Lookup(Without(mid, incoming), cid).Some?
  {
    hide Without;
    var x := Lookup(mid, cid).value;
    var r := Without(mid, incoming);
    WithoutKeepsTheRest(mid, incoming);
    assert x in r;
    var k :| 0 <= k < |r| && r[k] == x;
    LookupFinds(r, cid);
  }

  /** What a first run could insert has a row after it. */
  lemma NothingLeftToInsert(rows: seq<Row>, m: Manifest, accepted: set<string>, fetch: string -> Option<Payload>,
                            i: nat)
    requires DistinctIds(rows) && i < |Usable(m)|
    ensures var e := Usable(m)[i];
            OutcomeOf(e, Lookup(Run(rows, m, accepted, fetch).rows, e.cid), accepted, fetch) != Inserted
  {
    hide Usable, Lookup, ApplyEntries, OutcomeOf, Extends, DistinctIds, Without, CountWhere, SkippedDeletes,
         AllowDeletes,
      AbsentCount;
    var es := Usable(m);
    var e := es[i];
    var start := State(rows, Counts(0, 0, 0, 0, |m| - |es|, 0));
    var mid := ApplyEntries(start, rows, es, accepted, fetch).rows;
    var first := Run(rows, m, accepted, fetch).rows;
    assert first == if AllowDeletes(mid, Ids(es)) then Without(mid, Ids(es)) else mid;
    EntriesExtend(start, rows, es, accepted, fetch);
    if OutcomeOf(e, Lookup(first, e.cid), accepted, fetch) == Inserted {
      UpdatesHaveRow(e, Lookup(first, e.cid), accepted, fetch);
      if Lookup(rows, e.cid).Some? {
        StaysFound(rows, mid, Ids(es), e.cid);
      } else {
        InsertedIsFound(start, rows, es, i, accepted, fetch);
      }
      IncomingStaysFound(mid, Ids(es), e.cid);
      assert false;
    }
  }

  /** Deletes of a second run: what the first one did about absent rows, it keeps doing. */
  lemma SecondDeletes(mid: seq<Row>, kept: seq<Row>, again: seq<Row>, incoming: set<string>)
    requires kept == if AllowDeletes(mid, incoming) then Without(mid, incoming) else mid
    requires Extends(kept, again, incoming) && |again| == |kept|
    ensures AllowDeletes(again, incoming) ==> AbsentCount(again, incoming) == 0
  {
    hide Without, CountWhere;
    var absent := (r: Row) => Absent(r, incoming);
    forall i | 0 <= i < |kept| ensures SameKeys(kept[i], again[i]) {
      assert Kept(kept[i], again[i], incoming);
    }
    CountsAgree(kept, again, absent);
    CountsAgree(kept, again, (r: Row) => Counted(r));
    if AllowDeletes(mid, incoming) {
      WithoutKeepsTheRest(mid, incoming);
      CountBounds(kept, absent);
    }
  }

  /** Applying any manifest a second time, repeated ids and all, inserts nothing and deletes nothing. */
  lemma RerunAddsAndDropsNothing(rows: seq<Row>, m: Manifest, accepted: set<string>, fetch: string -> Option<Payload>)
    requires DistinctIds(rows)
    ensures var c := Run(Run(rows, m, accepted, fetch).rows, m, accepted, fetch).counts;
            c.inserts == 0 && c.deletes == 0
  {
    hide Usable, Lookup, ApplyEntries, OutcomeOf, Extends, DistinctIds, Tallied, Without, CountWhere, SkippedDeletes,
      AllowDeletes, AbsentCount;
    var es := Usable(m);
    var zero := Counts(0, 0, 0, 0, |m| - |es|, 0);
    var mid := ApplyEntries(State(rows, zero), rows, es, accepted, fetch).rows;
    var first := Run(rows, m, accepted, fetch).rows;
    EntriesExtend(State(rows, zero), rows, es, accepted, fetch);
    WithoutKeepsDistinct(mid, Ids(es));
    var start := State(first, zero);
    var st := ApplyEntries(start, first, es, accepted, fetch);
    EntriesExtend(start, first, es, accepted, fetch);
    forall i | 0 <= i < |es| ensures OutcomeOf(es[i], Lookup(first, es[i].cid), accepted, fetch) != Inserted {
      NothingLeftToInsert(rows, m, accepted, fetch, i);
    }
    EntriesKeepSize(start, first, es, accepted, fetch);
    SecondDeletes(mid, first, st.rows, Ids(es));
    CountersAreTallies(start, first, es, accepted, fetch);
    TalliedZero(es, first, accepted, fetch, Inserted);
  }

  // ----- What a second run updates -----

  lemma OutcomeIgnoresId(e: Entry, a: Option<Row>, b: Option<Row>, accepted: set<string>,
                         fetch: string -> Option<Payload>)
    requires SameButId(a, b)
    ensures OutcomeOf(e, a, accepted, fetch) == OutcomeOf(e, b, accepted, fetch)
  {
  }

  /**
   * A second run updates nothing exactly when no entry would update the row its id's
   * own entries make of the row before.
   */
  lemma RerunUpdatesExactly(rows: seq<Row>, m: Manifest, accepted: set<string>, fetch: string -> Option<Payload>)
    requires DistinctIds(rows) && DistinctCids(rows)
    ensures var es := Usable(m);
            Run(Run(rows, m, accepted, fetch).rows, m, accepted, fetch).counts.updates == 0
            <==> forall i :: 0 <= i < |es| ==>
                   var own := OwnRow(es, es[i].cid, Lookup(rows, es[i].cid), accepted, fetch);
                   OutcomeOf(es[i], own, accepted, fetch) != Updated
  {
    hide Usable, Lookup, ApplyEntries, OutcomeOf, OwnRow, DistinctIds, DistinctCids, Tallied, Without, CountWhere,
      SkippedDeletes, AllowDeletes, AbsentCount;
    var es := Usable(m);
    var first := Run(rows, m, accepted, fetch).rows;
    RunLooksUp(rows, m, accepted, fetch);
    forall i | 0 <= i < |es|
      ensures OutcomeOf(es[i], Lookup(first, es[i].cid), accepted, fetch)
           == OutcomeOf(es[i], OwnRow(es, es[i].cid, Lookup(rows, es[i].cid), accepted, fetch), accepted, fetch)
    {
      var own := OwnRow(es, es[i].cid, Lookup(rows, es[i].cid), accepted, fetch);
      assert es[i].cid in Ids(es);
      if Lookup(rows, es[i].cid).None? {
        OutcomeIgnoresId(es[i], own, Lookup(first, es[i].cid), accepted, fetch);
      }
    }
    CountersAreTallies(State(first, Counts(0, 0, 0, 0, |m| - |es|, 0)), first, es, accepted, fetch);
    TalliedZero(es, first, accepted, fetch, Updated);
  }

  predicate DistinctEntries(es: seq<Entry>) {
    forall i, j :: 0 <= i < j < |es| ==> es[i].cid != es[j].cid
  }

  lemma {:induction false} OwnRowOfOther(es: seq<Entry>, cid: string, x: Option<Row>, accepted: set<string>,
                                         fetch: string -> Option<Payload>)
    requires forall i :: 0 <= i < |es| ==> es[i].cid != cid
    ensures OwnRow(es, cid, x, accepted, fetch) == x
  {
    if es != [] {
      OwnRowOfOther(es[..|es| - 1], cid, x, accepted, fetch);
    }
  }

  lemma {:induction false} OwnRowOfOne(es: seq<Entry>, i: nat, x: Option<Row>, accepted: set<string>,
                                       fetch: string -> Option<Payload>)
    requires DistinctEntries(es) && i < |es|
    ensures OwnRow(es, es[i].cid, x, accepted, fetch) == OwnStep(es[i], x, x, accepted, fetch)
  {
    hide OwnStep;
    var n := |es| - 1;
    if i == n {
      OwnRowOfOther(es[..n], es[n].cid, x, accepted, fetch);
    } else {
      assert es[..n][i] == es[i];
      OwnRowOfOne(es[..n], i, x, accepted, fetch);
    }
  }

  /** An inline body that carries the stored hash passes the version gate but is never written. */
  predicate Stuck(e: Entry, x: Option<Row>, accepted: set<string>) {
    && e.source.Inline? && x.Some?
    && Normalize(x.value.category) in accepted && !x.value.isProtected
    && e.version > VersionOf(x.value.version)
    && e.source.data.complete && e.source.data.hash.Some? && e.source.data.hash == x.value.hash
  }

  lemma OneEntryAgain(e: Entry, x: Option<Row>, accepted: set<string>, fetch: string -> Option<Payload>)
    ensures OutcomeOf(e, OwnStep(e, x, x, accepted, fetch), accepted, fetch) == Updated <==> Stuck(e, x, accepted)
  {
    match e.source
    case Inline(data) =>
    case Thin(hash, path) =>
  }

  /** With distinct ids: exactly when no inline entry carried, at a higher version, the hash its row already had. */
  lemma RerunIsQuiet(rows: seq<Row>, m: Manifest, accepted: set<string>, fetch: string -> Option<Payload>)
    requires DistinctIds(rows) && DistinctCids(rows) && DistinctEntries(Usable(m))
    ensures var es := Usable(m);
            Run(Run(rows, m, accepted, fetch).rows, m, accepted, fetch).counts.updates == 0
            <==> forall i :: 0 <= i < |es| ==> !Stuck(es[i], Lookup(rows, es[i].cid), accepted)
  {
    hide Usable, Lookup, OutcomeOf, OwnRow, OwnStep, DistinctIds, DistinctCids, Run, Stuck;
    var es := Usable(m);
    RerunUpdatesExactly(rows, m, accepted, fetch);
    forall i | 0 <= i < |es|
      ensures OutcomeOf(es[i], OwnRow(es, es[i].cid, Lookup(rows, es[i].cid), accepted, fetch), accepted, fetch)
              == Updated
         <==> Stuck(es[i], Lookup(rows, es[i].cid), accepted)
    {
      OwnRowOfOne(es, i, Lookup(rows, es[i].cid), accepted, fetch);
      OneEntryAgain(es[i], Lookup(rows, es[i].cid), accepted, fetch);
    }
  }

  // ----- What the conditions above are for -----

  const PAGES: string -> Option<Payload> := (path: string) => Some(Payload(true, None, None, path))

  lemma TwoEntries(st: State, snapshot: seq<Row>, a: Entry, b: Entry, accepted: set<string>,
                   fetch: string -> Option<Payload>)
    ensures Usable([Some(a), Some(b)]) == [a, b]
    ensures ApplyEntries(st, snapshot, [a, b], accepted, fetch)
         == ApplyEntry(ApplyEntry(st, snapshot, a, accepted, fetch), snapshot, b, accepted, fetch)
  {
    hide ApplyEntry;
    var m: Manifest := [Some(a), Some(b)];
    assert m[..1] == [Some(a)] && m[..1][..0] == [];
    assert Usable(m[..1]) == [a];
    assert [a, b][..1] == [a] && [a][..0] == [];
    assert ApplyEntries(st, snapshot, [a], accepted, fetch) == ApplyEntry(st, snapshot, a, accepted, fetch);
  }

  const FIRST := Entry("a", 1, Thin("h", "p"))
  const SECOND := Entry("a", 1, Thin("g", "p"))
  const WITH_FIRST := Row(1, true, Some("a"), false, true, NoReason, None, 1, Some("h"), "p")
  const WITH_SECOND := WITH_FIRST.(hash := Some("g"))

  const HELD := WITH_FIRST.(body := "q")
  const NEWER := Entry("a", 2, Inline(Payload(true, None, Some("h"), "p")))

  /** A newer inline body under the hash its row already has: it still counts as an update on a second run. */
  lemma SameHashKeepsUpdating()
    ensures var m := [Some(NEWER)];
            Run(Run([HELD], m, {"sponsor"}, PAGES).rows, m, {"sponsor"}, PAGES).counts.updates != 0
  {
    hide Run, OutcomeOf;
    var m: Manifest := [Some(NEWER)];
    assert m[..0] == [];
    assert Usable(m) == [NEWER];
    assert Lookup([HELD], "a") == Some(HELD);
    assert Stuck(Usable(m)[0], Lookup([HELD], Usable(m)[0].cid), {"sponsor"});
    RerunIsQuiet([HELD], m, {"sponsor"}, PAGES);
  }

  lemma RepeatedIdsFirstRun(zero: Counts)
    requires zero == Counts(0, 0, 0, 0, 0, 0)
    ensures ApplyEntry(ApplyEntry(State([], zero), [], FIRST, {"sponsor"}, PAGES), [], SECOND, {"sponsor"}, PAGES)
         == State([WITH_SECOND], zero.(inserts := 2))
  {
    var s1 := ApplyEntry(State([], zero), [], FIRST, {"sponsor"}, PAGES);
    assert s1 == State([WITH_FIRST], zero.(inserts := 1));
    assert "g" != "h" by { assert "g"[0] != "h"[0]; }
    assert FindFirst([WITH_FIRST], "a") == Some(WITH_FIRST);
    assert Put([WITH_FIRST], WITH_SECOND) == [WITH_SECOND];
  }

  lemma RepeatedIdsSecondRun(zero: Counts)
    requires zero == Counts(0, 0, 0, 0, 0, 0)
    ensures var rows := [WITH_SECOND];
            var st := ApplyEntry(State(rows, zero), rows, FIRST, {"sponsor"}, PAGES);
            ApplyEntry(st, rows, SECOND, {"sponsor"}, PAGES).counts == zero.(updates := 1, skips := 1)
  {
    assert "g" != "h" by { assert "g"[0] != "h"[0]; }
    assert Lookup([WITH_SECOND], "a") == Some(WITH_SECOND);
    assert OutcomeOf(FIRST, Some(WITH_SECOND), {"sponsor"}, PAGES) == Updated;
    assert OutcomeOf(SECOND, Some(WITH_SECOND), {"sponsor"}, PAGES) == Skipped;
  }

  /** Two thin entries for one id with different hashes: the second run still finds a hash to change. */
  lemma RepeatedIdsKeepUpdating()
    ensures var m := [Some(FIRST), Some(SECOND)];
            var first := Run([], m, {"sponsor"}, PAGES);
            && first.counts.inserts == 2
            && Run(first.rows, m, {"sponsor"}, PAGES).counts.updates == 1
  {
    hide ApplyEntry, ApplyEntries, Usable, Ids, AllowDeletes, SkippedDeletes, AbsentCount, Without;
    var m: Manifest := [Some(FIRST), Some(SECOND)];
    var zero := Counts(0, 0, 0, 0, 0, 0);
    TwoEntries(State([], zero), [], FIRST, SECOND, {"sponsor"}, PAGES);
    RepeatedIdsFirstRun(zero);
    var rows := Run([], m, {"sponsor"}, PAGES).rows;
    DeletesAreGuarded([], m, {"sponsor"}, PAGES);
    CountBounds([WITH_SECOND], (r: Row) => Counted(r));
    assert rows == [WITH_SECOND];
    TwoEntries(State(rows, zero), rows, FIRST, SECOND, {"sponsor"}, PAGES);
    RepeatedIdsSecondRun(zero);
  }
}
