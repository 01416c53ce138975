/** What every sync run keeps, what it may delete, and what a second run does. */
module CommunitySyncProofs {
  import opened Basics
  import opened CommunitySync

  ghost predicate DistinctIds(rows: seq<Row>) {
    forall i, j :: 0 <= i < j < |rows| ==> rows[i].id != rows[j].id
  }

  ghost predicate DistinctCids(rows: seq<Row>) {
    forall i, j :: 0 <= i < j < |rows| && rows[i].cid.Some? ==> rows[i].cid != rows[j].cid
  }

  // ----- What the entry phase may do to the table -----

  predicate SameKeys(x: Row, y: Row) {
    x.id == y.id && x.community == y.community && x.cid == y.cid && x.isProtected == y.isProtected
  }

  predicate SameBody(x: Row, y: Row) {
    x.category == y.category && x.version == y.version && x.hash == y.hash && x.body == y.body
  }

  /** y is row x after entries for the ids in touched. */
  predicate Kept(x: Row, y: Row, touched: set<string>) {
    SameKeys(x, y) && (x.isProtected ==> SameBody(x, y)) && (x.cid.None? || x.cid.value !in touched ==> x == y)
  }

  predicate Imported(y: Row, touched: set<string>) {
    y.community && !y.isProtected && y.cid.Some? && y.cid.value in touched
  }

  ghost predicate Extends(a: seq<Row>, b: seq<Row>, touched: set<string>) {
    && |a| <= |b|
    && (forall i :: 0 <= i < |a| ==> Kept(a[i], b[i], touched))
    && forall i :: |a| <= i < |b| ==> Imported(b[i], touched)
  }

  lemma ExtendsTrans(a: seq<Row>, b: seq<Row>, c: seq<Row>, s: set<string>, t: set<string>)
    requires Extends(a, b, s) && Extends(b, c, t)
    ensures Extends(a, c, s + t)
  {
    forall i | 0 <= i < |a| ensures Kept(a[i], c[i], s + t) {
      assert Kept(a[i], b[i], s) && Kept(b[i], c[i], t);
    }
    forall i | |a| <= i < |c| ensures Imported(c[i], s + t) {
      if i < |b| {
        assert Imported(b[i], s) && Kept(b[i], c[i], t);
      }
    }
  }

  /** Within distinct ids, a write through one row's id touches that row alone. */
  lemma GateExtends(rows: seq<Row>, snapshot: seq<Row>, cid: string, seen: set<string>, accepted: set<string>)
    requires DistinctIds(rows) && Extends(snapshot, rows, seen)
    ensures var r := Gate(rows, Lookup(snapshot, cid), accepted);
            |r| == |rows| && DistinctIds(r) && Extends(rows, r, {cid})
  {
    var existing := Lookup(snapshot, cid);
    var r := Gate(rows, existing, accepted);
    if existing.Some? {
      var k :| 0 <= k < |snapshot| && snapshot[k] == existing.value;
      assert Kept(snapshot[k], rows[k], seen);
      forall i | 0 <= i < |rows| ensures Kept(rows[i], r[i], {cid}) {
        assert i != k ==> rows[i].id != rows[k].id;
      }
    }
  }

  lemma ImportExtends(rows: seq<Row>, cid: string, p: Payload, version: int, hash: Option<string>)
    requires DistinctIds(rows)
    ensures var r := Import(rows, cid, p, version, hash); DistinctIds(r) && Extends(rows, r, {cid})
  {
    var live := FindFirst(rows, cid);
    var r := Import(rows, cid, p, version, hash);
    if live.Some? {
      var k :| 0 <= k < |rows| && rows[k] == live.value;
      forall i | 0 <= i < |rows| ensures Kept(rows[i], r[i], {cid}) {
        assert i != k ==> rows[i].id != rows[k].id;
      }
    } else {
      assert forall i :: 0 <= i < |rows| ==> r[i] == rows[i];
    }
  }

  lemma EntryExtends(st: State, snapshot: seq<Row>, e: Entry, seen: set<string>, accepted: set<string>,
                     fetch: string -> Option<Payload>)
    requires DistinctIds(st.rows) && Extends(snapshot, st.rows, seen)
    ensures var r := ApplyEntry(st, snapshot, e, accepted, fetch).rows;
            DistinctIds(r) && Extends(st.rows, r, {e.cid})
  {
    hide Gate, Import, OutcomeOf, Extends;
    var existing := Lookup(snapshot, e.cid);
    var outcome := OutcomeOf(e, existing, accepted, fetch);
    var gated := Gate(st.rows, existing, accepted);
    GateExtends(st.rows, snapshot, e.cid, seen, accepted);
    Reflexive(gated, {e.cid});
    if outcome == Inserted || outcome == Updated {
      match e.source
      case Inline(data) => ImportExtends(gated, e.cid, data, e.version, data.hash);
      case Thin(hash, path) =>
        if fetch(path).Some? {
          ImportExtends(gated, e.cid, fetch(path).value, e.version, Some(hash));
        }
    }
    var r := Write(gated, e, outcome, fetch);
    ExtendsTrans(st.rows, gated, r, {e.cid}, {e.cid});
    assert {e.cid} + {e.cid} == {e.cid};
  }

  lemma Reflexive(rows: seq<Row>, touched: set<string>)
    ensures Extends(rows, rows, touched)
  {
  }

  lemma IdsSnoc(es: seq<Entry>)
    requires es != []
    ensures Ids(es) == Ids(es[..|es| - 1]) + {es[|es| - 1].cid}
  {
    var front := es[..|es| - 1];
    forall c | c in Ids(es) ensures c in Ids(front) + {es[|es| - 1].cid} {
      var i :| 0 <= i < |es| && es[i].cid == c;
      if i < |front| {
        assert front[i].cid == c;
      }
    }
    forall c | c in Ids(front) ensures c in Ids(es) {
      var i :| 0 <= i < |front| && front[i].cid == c;
      assert es[i].cid == c;
    }
  }

  /** The entry phase keeps every row and its keys, freezes protected bodies, and adds only rows for manifest ids. */
  lemma {:induction false} EntriesExtend(st: State, snapshot: seq<Row>, es: seq<Entry>, accepted: set<string>,
                                         fetch: string -> Option<Payload>)
    requires DistinctIds(st.rows) && st.rows == snapshot
    ensures var r := ApplyEntries(st, snapshot, es, accepted, fetch).rows;
            DistinctIds(r) && Extends(snapshot, r, Ids(es))
  {
    hide ApplyEntry, Extends;
    if es == [] {
      Reflexive(snapshot, Ids(es));
    } else {
      var front := es[..|es| - 1];
      var e := es[|es| - 1];
      EntriesExtend(st, snapshot, front, accepted, fetch);
      var mid := ApplyEntries(st, snapshot, front, accepted, fetch);
      EntryExtends(mid, snapshot, e, Ids(front), accepted, fetch);
      ExtendsTrans(snapshot, mid.rows, ApplyEntry(mid, snapshot, e, accepted, fetch).rows, Ids(front), {e.cid});
      IdsSnoc(es);
    }
  }

  // ----- The delete phase -----

  lemma {:induction false} WithoutKeepsTheRest(rows: seq<Row>, incoming: set<string>)
    ensures forall x :: x in Without(rows, incoming) <==> x in rows && !Absent(x, incoming)
    ensures |Without(rows, incoming)| == |rows| - AbsentCount(rows, incoming)
  {
    if rows != [] {
      var n := |rows| - 1;
      WithoutKeepsTheRest(rows[..n], incoming);
      assert rows == rows[..n] + [rows[n]];
      assert AbsentCount(rows, incoming)
          == AbsentCount(rows[..n], incoming) + (if Absent(rows[n], incoming) then 1 else 0);
    }
  }

  lemma {:induction false} WithoutKeepsDistinct(rows: seq<Row>, incoming: set<string>)
    ensures DistinctIds(rows) ==> DistinctIds(Without(rows, incoming))
    ensures DistinctCids(rows) ==> DistinctCids(Without(rows, incoming))
  {
    if rows != [] {
      var n := |rows| - 1;
      var front := Without(rows[..n], incoming);
      WithoutKeepsDistinct(rows[..n], incoming);
      WithoutKeepsTheRest(rows[..n], incoming);
      assert DistinctIds(rows) ==> DistinctIds(rows[..n]);
      assert DistinctCids(rows) ==> DistinctCids(rows[..n]);
      hide DistinctIds, DistinctCids;
      DistinctWithLast(rows, front);
    }
  }

  lemma DistinctWithLast(rows: seq<Row>, front: seq<Row>)
    requires rows != [] && forall x :: x in front ==> x in rows[..|rows| - 1]
    ensures DistinctIds(rows) && DistinctIds(front) ==> DistinctIds(front + [rows[|rows| - 1]])
    ensures DistinctCids(rows) && DistinctCids(front) ==> DistinctCids(front + [rows[|rows| - 1]])
  {
    var n := |rows| - 1;
    forall i | 0 <= i < |front| ensures exists k :: 0 <= k < n && rows[k] == front[i] {
      assert front[i] in front;
      var k :| 0 <= k < n && rows[..n][k] == front[i];
      assert rows[k] == front[i];
    }
  }

  lemma {:induction false} CountBounds(rows: seq<Row>, p: Row -> bool)
    ensures CountWhere(rows, p) <= |rows|
    ensures CountWhere(rows, p) == 0 <==> forall x :: x in rows ==> !p(x)
  {
    if rows != [] {
      var n := |rows| - 1;
      CountBounds(rows[..n], p);
      assert rows == rows[..n] + [rows[n]];
    }
  }

  // ----- One run, seen from outside -----

  function EntryPhase(rows: seq<Row>, m: Manifest, accepted: set<string>, fetch: string -> Option<Payload>): State {
    ApplyEntries(State(rows, Counts(0, 0, 0, 0, |m| - |Usable(m)|, 0)), rows, Usable(m), accepted, fetch)
  }

  lemma {:induction false} EntriesNeverDelete(st: State, snapshot: seq<Row>, es: seq<Entry>, accepted: set<string>,
                                              fetch: string -> Option<Payload>)
    ensures ApplyEntries(st, snapshot, es, accepted, fetch).counts.deletes == st.counts.deletes
  {
    if es != [] {
      EntriesNeverDelete(st, snapshot, es[..|es| - 1], accepted, fetch);
    }
  }

  /** Deletes are the rows lost; at most half of the counted rows, none for a manifest without a usable entry. */
  lemma DeletesAreGuarded(rows: seq<Row>, m: Manifest, accepted: set<string>, fetch: string -> Option<Payload>)
    ensures var mid := EntryPhase(rows, m, accepted, fetch).rows;
            var r := Run(rows, m, accepted, fetch);
            && |r.rows| == |mid| - r.counts.deletes
            && 2 * r.counts.deletes <= Total(mid)
            && (Usable(m) == [] ==> r.counts.deletes == 0)
            && (r.counts.deletes > 0 ==> r.rows == Without(mid, Ids(Usable(m))))
            && (r.counts.deletes == 0 ==> r.rows == mid)
  {
    hide Usable, ApplyEntries, Without, CountWhere, SkippedDeletes;
    var es := Usable(m);
    var st := EntryPhase(rows, m, accepted, fetch);
    var incoming := Ids(es);
    EntriesNeverDelete(State(rows, Counts(0, 0, 0, 0, |m| - |es|, 0)), rows, es, accepted, fetch);
    WithoutKeepsTheRest(st.rows, incoming);
    NothingAbsent(st.rows, incoming);
    assert es == [] ==> incoming == {};
  }

  lemma {:induction false} NothingAbsent(rows: seq<Row>, incoming: set<string>)
    ensures AbsentCount(rows, incoming) == 0 ==> Without(rows, incoming) == rows
  {
    if rows != [] {
      var n := |rows| - 1;
      NothingAbsent(rows[..n], incoming);
      assert rows == rows[..n] + [rows[n]];
      assert AbsentCount(rows, incoming)
          == AbsentCount(rows[..n], incoming) + (if Absent(rows[n], incoming) then 1 else 0);
    }
  }

  /**
   * A row the run started with survives unless the delete phase was allowed and it is a
   * synced, unprotected row the manifest lacks.
   */
  lemma RunKeepsRow(rows: seq<Row>, m: Manifest, accepted: set<string>, fetch: string -> Option<Payload>, k: nat)
    requires DistinctIds(rows) && k < |rows|
    ensures DistinctIds(Run(rows, m, accepted, fetch).rows)
    ensures var incoming := Ids(Usable(m));
            var r := Run(rows, m, accepted, fetch);
            (exists y :: y in r.rows && Kept(rows[k], y, incoming))
              <==> !(Absent(rows[k], incoming) && r.counts.deletes > 0)
  {
    hide Usable, Lookup, CountWhere, ApplyEntries, Without;
    var es := Usable(m);
    var incoming := Ids(es);
    var start := State(rows, Counts(0, 0, 0, 0, |m| - |es|, 0));
    var st := ApplyEntries(start, rows, es, accepted, fetch);
    EntriesExtend(start, rows, es, accepted, fetch);
    DeletesAreGuarded(rows, m, accepted, fetch);
    WithoutKeepsTheRest(st.rows, incoming);
    WithoutKeepsDistinct(st.rows, incoming);
    var r := Run(rows, m, accepted, fetch);
    assert Kept(rows[k], st.rows[k], incoming);
    if Absent(rows[k], incoming) && r.counts.deletes > 0 {
      forall y | y in r.rows ensures !Kept(rows[k], y, incoming) {
        assert !Absent(y, incoming);
      }
    } else {
      assert st.rows[k] in r.rows;
    }
  }

  // ----- Protected rows over any sequence of runs -----

  datatype Sync = Sync(manifest: Manifest, accepted: set<string>, fetch: string -> Option<Payload>)

  function Runs(rows: seq<Row>, log: seq<Sync>): seq<Row> {
    if log == [] then rows
    else
      var last := log[|log| - 1];
      Run(Runs(rows, log[..|log| - 1]), last.manifest, last.accepted, last.fetch).rows
  }

  /** Whatever the manifests carry, a protected row is never deleted or re-imported: only its activity may change. */
  lemma {:induction false} ProtectedRowSurvives(rows: seq<Row>, log: seq<Sync>, x: Row)
    requires DistinctIds(rows) && x in rows && x.isProtected
    ensures DistinctIds(Runs(rows, log))
    ensures exists y :: y in Runs(rows, log) && SameKeys(x, y) && SameBody(x, y)
  {
    hide Run, Ids;
    if log == [] {
    } else {
      ProtectedRowSurvives(rows, log[..|log| - 1], x);
      var before := Runs(rows, log[..|log| - 1]);
      var last := log[|log| - 1];
      var y :| y in before && SameKeys(x, y) && SameBody(x, y);
      var k :| 0 <= k < |before| && before[k] == y;
      RunKeepsRow(before, last.manifest, last.accepted, last.fetch, k);
      var z :| z in Run(before, last.manifest, last.accepted, last.fetch).rows
               && Kept(y, z, Ids(Usable(last.manifest)));
      assert z in Runs(rows, log) && SameKeys(x, z) && SameBody(x, z);
    }
  }
}
