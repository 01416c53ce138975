/** The table after a run, id by id. */
module CommunitySyncRows {
  import opened Basics
  import opened CommunitySync
  import opened CommunitySyncProofs

  // ----- What the entries of one id do to its row -----

  function PayloadOf(e: Entry, fetch: string -> Option<Payload>): Option<Payload> {
    match e.source
    case Inline(data) => Some(data)
    case Thin(_, path) => fetch(path)
  }

  function HashOf(e: Entry): Option<string> {
    match e.source
    case Inline(data) => data.hash
    case Thin(hash, _) => Some(hash)
  }

  /** The category gate: x, the row before the run, decides; y, the row by now, is switched. */
  function GatedRow(x: Row, y: Row, accepted: set<string>): Row {
    if Normalize(x.category) !in accepted then
      if x.active then y.(active := false, reason := CategoryFiltered) else y
    else if !x.active && x.reason == CategoryFiltered then y.(active := true, reason := NoReason)
    else y
  }

  function NewRow(id: nat, cid: string, p: Payload, version: int, hash: Option<string>): Row {
    Row(id, true, Some(cid), false, true, NoReason, PayloadCategory(p), VersionOf(version), hash, p.body)
  }

  function ImportedRow(x: Row, p: Payload, version: int, hash: Option<string>): Row {
    if x.isProtected then x
    else if hash.Some? && hash == x.hash then x
    else if hash.None? && VersionOf(version) <= VersionOf(x.version) then x
    else x.(body := p.body, version := VersionOf(version), hash := hash,
            category := if p.category.Some? then p.category.value else x.category)
  }

  /** What an entry makes of its id's row y, when x was the row before the run; a new row's id is left at 0. */
  function OwnStep(e: Entry, x: Option<Row>, y: Option<Row>, accepted: set<string>,
                   fetch: string -> Option<Payload>): Option<Row>
  {
    var g := if x.Some? && y.Some? then Some(GatedRow(x.value, y.value, accepted)) else y;
    var o := OutcomeOf(e, x, accepted, fetch);
    var p := PayloadOf(e, fetch);
    if (o != Inserted && o != Updated) || p.None? then g
    else if g.None? then Some(NewRow(0, e.cid, p.value, e.version, HashOf(e)))
    else Some(ImportedRow(g.value, p.value, e.version, HashOf(e)))
  }

  /** The row of an id after a run, from its row x before it and its own entries alone. */
  function OwnRow(es: seq<Entry>, cid: string, x: Option<Row>, accepted: set<string>,
                  fetch: string -> Option<Payload>): Option<Row>
  {
    if es == [] then x
    else
      var before := OwnRow(es[..|es| - 1], cid, x, accepted, fetch);
      if es[|es| - 1].cid == cid then OwnStep(es[|es| - 1], x, before, accepted, fetch) else before
  }

  predicate SameButId(a: Option<Row>, b: Option<Row>) {
    if a.Some? then b.Some? && a.value.(id := b.value.id) == b.value else b.None?
  }

  /** own describes y: exactly for a row that was there before, but for the id of a new one. */
  predicate Describes(x: Option<Row>, own: Option<Row>, y: Option<Row>) {
    if x.Some? then y == own else SameButId(own, y)
  }

  // ----- Lookups -----

  lemma LookupIs(rows: seq<Row>, cid: string, k: nat)
    requires DistinctCids(rows) && k < |rows| && HasCid(rows[k], cid)
    ensures Lookup(rows, cid) == FindFirst(rows, cid) == Some(rows[k])
  {
    var r := Lookup(rows, cid);
    var f := FindFirst(rows, cid);
    assert rows[k] in rows;
    assert r.Some? && f.Some?;
    var i :| 0 <= i < |rows| && rows[i] == r.value;
    var j :| 0 <= j < |rows| && rows[j] == f.value;
  }

  lemma LookupAgree(rows: seq<Row>, cid: string)
    requires DistinctCids(rows)
    ensures Lookup(rows, cid) == FindFirst(rows, cid)
  {
    if exists k :: 0 <= k < |rows| && HasCid(rows[k], cid) {
      var k :| 0 <= k < |rows| && HasCid(rows[k], cid);
      LookupIs(rows, cid, k);
    } else {
      assert forall x :: x in rows ==> !HasCid(x, cid);
    }
  }

  /** Ids no entry touched look the same afterwards. */
  lemma UntouchedLooksTheSame(a: seq<Row>, b: seq<Row>, touched: set<string>, cid: string)
    requires Extends(a, b, touched) && DistinctCids(b) && cid !in touched
    ensures Lookup(a, cid) == Lookup(b, cid)
  {
    var x := Lookup(a, cid);
    if x.Some? {
      var k :| 0 <= k < |a| && a[k] == x.value;
      assert Kept(a[k], b[k], touched);
      LookupIs(b, cid, k);
    } else {
      forall i | 0 <= i < |b| ensures !HasCid(b[i], cid) {
        if i < |a| {
          assert Kept(a[i], b[i], touched) && a[i] in a;
        } else {
          assert Imported(b[i], touched);
        }
      }
    }
  }

  /** The gate switches the row the batch lookup found, as it is by now. */
  lemma GateLookup(rows: seq<Row>, snapshot: seq<Row>, seen: set<string>, cid: string, accepted: set<string>)
    requires DistinctIds(rows) && DistinctCids(rows) && Extends(snapshot, rows, seen)
    ensures var x, y := Lookup(snapshot, cid), Lookup(rows, cid);
            var r := Gate(rows, x, accepted);
            && DistinctIds(r) && DistinctCids(r) && (x.Some? ==> y.Some?)
            && Lookup(r, cid) == (if x.Some? then Some(GatedRow(x.value, y.value, accepted)) else y)
  {
    hide Gate, DistinctIds, DistinctCids, GatedRow;
    var x := Lookup(snapshot, cid);
    if x.Some? {
      var k :| 0 <= k < |snapshot| && snapshot[k] == x.value;
      assert Kept(snapshot[k], rows[k], seen);
      SwitchLookup(rows, k, cid, x.value, accepted);
    } else {
      NoGate(rows, accepted);
    }
  }

  lemma NoGate(rows: seq<Row>, accepted: set<string>)
    ensures Gate(rows, None, accepted) == rows
  {
  }

  lemma SwitchLookup(rows: seq<Row>, k: nat, cid: string, x: Row, accepted: set<string>)
    requires DistinctIds(rows) && DistinctCids(rows) && k < |rows| && HasCid(rows[k], cid) && rows[k].id == x.id
    ensures var r := Gate(rows, Some(x), accepted);
            && DistinctIds(r) && DistinctCids(r)
            && Lookup(rows, cid) == Some(rows[k]) && Lookup(r, cid) == Some(GatedRow(x, rows[k], accepted))
  {
    hide Lookup, FindFirst;
    LookupIs(rows, cid, k);
    var r := Gate(rows, Some(x), accepted);
    assert forall i :: 0 <= i < |rows| && i != k ==> r[i] == rows[i];
    assert r[k] == GatedRow(x, rows[k], accepted);
    LookupIs(r, cid, k);
  }

  lemma InsertLookup(rows: seq<Row>, row: Row, cid: string)
    requires DistinctCids(rows) && Lookup(rows, cid).None? && HasCid(row, cid)
    ensures DistinctCids(rows + [row]) && Lookup(rows + [row], cid) == Some(row)
  {
    hide Lookup;
    var r := rows + [row];
    assert forall i :: 0 <= i < |rows| ==> r[i] == rows[i] && rows[i] in rows;
    LookupIs(r, cid, |rows|);
  }

  lemma UpdateLookup(rows: seq<Row>, cid: string, p: Payload, version: int, hash: Option<string>)
    requires DistinctIds(rows) && DistinctCids(rows)
    requires Lookup(rows, cid).Some?
    ensures var r := Import(rows, cid, p, version, hash);
            DistinctCids(r) && Lookup(r, cid) == Some(ImportedRow(Lookup(rows, cid).value, p, version, hash))
  {
    hide Lookup, FindFirst;
    LookupAgree(rows, cid);
    var r := Import(rows, cid, p, version, hash);
    var k :| 0 <= k < |rows| && rows[k] == Lookup(rows, cid).value;
    assert r[k] == ImportedRow(rows[k], p, version, hash);
    assert forall i :: 0 <= i < |rows| && i != k ==> r[i] == rows[i];
    LookupIs(r, cid, k);
  }

  lemma ImportLookup(rows: seq<Row>, cid: string, p: Payload, version: int, hash: Option<string>)
    requires DistinctIds(rows) && DistinctCids(rows)
    ensures var x := Lookup(rows, cid);
            var r := Import(rows, cid, p, version, hash);
            && DistinctCids(r)
            && (x.None? ==> SameButId(Some(NewRow(0, cid, p, version, hash)), Lookup(r, cid)))
            && (x.Some? ==> Lookup(r, cid) == Some(ImportedRow(x.value, p, version, hash)))
  {
    hide ImportedRow;
    var x := Lookup(rows, cid);
    LookupAgree(rows, cid);
    if x.Some? {
      UpdateLookup(rows, cid, p, version, hash);
    } else {
      InsertLookup(rows, NewRow(NextId(rows), cid, p, version, hash), cid);
    }
  }

  lemma WritesHavePayload(e: Entry, x: Option<Row>, accepted: set<string>, fetch: string -> Option<Payload>)
    ensures var o := OutcomeOf(e, x, accepted, fetch);
            o == Inserted || o == Updated ==> PayloadOf(e, fetch).Some?
  {
  }

  // ----- The entry phase -----

  lemma EntryLooksUp(st: State, snapshot: seq<Row>, e: Entry, seen: set<string>, accepted: set<string>,
                     fetch: string -> Option<Payload>)
    requires DistinctIds(st.rows) && DistinctCids(st.rows) && Extends(snapshot, st.rows, seen)
    ensures var r := ApplyEntry(st, snapshot, e, accepted, fetch).rows;
            var x, y, z := Lookup(snapshot, e.cid), Lookup(st.rows, e.cid), Lookup(r, e.cid);
            && DistinctCids(r) && (x.Some? ==> y.Some?)
            && Describes(y, OwnStep(e, x, y, accepted, fetch), z)
  {
    hide Gate, Import, OutcomeOf, Extends, Lookup, FindFirst, DistinctIds, DistinctCids, ImportedRow, NewRow, GatedRow;
    var x := Lookup(snapshot, e.cid);
    var o := OutcomeOf(e, x, accepted, fetch);
    GateLookup(st.rows, snapshot, seen, e.cid, accepted);
    WritesHavePayload(e, x, accepted, fetch);
    if o == Inserted || o == Updated {
      ImportLookup(Gate(st.rows, x, accepted), e.cid, PayloadOf(e, fetch).value, e.version, HashOf(e));
    }
  }

  lemma StepIgnoresId(e: Entry, x: Option<Row>, a: Option<Row>, b: Option<Row>, accepted: set<string>,
                      fetch: string -> Option<Payload>)
    requires SameButId(a, b)
    ensures SameButId(OwnStep(e, x, a, accepted, fetch), OwnStep(e, x, b, accepted, fetch))
  {
    hide OutcomeOf, GatedRow, ImportedRow;
    if a.Some? {
      if x.Some? {
        GateIgnoresId(x.value, a.value, b.value, accepted);
      }
      var p := PayloadOf(e, fetch);
      if p.Some? {
        ImportIgnoresId(a.value, b.value, p.value, e.version, HashOf(e));
        if x.Some? {
          ImportIgnoresId(GatedRow(x.value, a.value, accepted), GatedRow(x.value, b.value, accepted), p.value,
                          e.version, HashOf(e));
        }
      }
    }
  }

  lemma GateIgnoresId(x: Row, a: Row, b: Row, accepted: set<string>)
    requires a.(id := b.id) == b
    ensures SameButId(Some(GatedRow(x, a, accepted)), Some(GatedRow(x, b, accepted)))
  {
  }

  lemma ImportIgnoresId(a: Row, b: Row, p: Payload, version: int, hash: Option<string>)
    requires a.(id := b.id) == b
    ensures SameButId(Some(ImportedRow(a, p, version, hash)), Some(ImportedRow(b, p, version, hash)))
  {
  }

  /** The table after the entries of any manifest: each id's row is what its own entries make of it. */
  lemma {:induction false} EntriesLookUp(st: State, snapshot: seq<Row>, es: seq<Entry>, cid: string,
                                         accepted: set<string>,
                                         fetch: string -> Option<Payload>)
    requires DistinctIds(snapshot) && DistinctCids(snapshot) && st.rows == snapshot
    ensures var r := ApplyEntries(st, snapshot, es, accepted, fetch).rows;
            var x := Lookup(snapshot, cid);
            DistinctCids(r) && Describes(x, OwnRow(es, cid, x, accepted, fetch), Lookup(r, cid))
  {
    hide ApplyEntry, Extends, Lookup, OwnStep, DistinctIds, DistinctCids;
    if es != [] {
      var front, e := es[..|es| - 1], es[|es| - 1];
      EntriesLookUp(st, snapshot, front, cid, accepted, fetch);
      EntriesExtend(st, snapshot, front, accepted, fetch);
      var mid := ApplyEntries(st, snapshot, front, accepted, fetch);
      EntryExtends(mid, snapshot, e, Ids(front), accepted, fetch);
      EntryLooksUp(mid, snapshot, e, Ids(front), accepted, fetch);
      if e.cid == cid {
        var x := Lookup(snapshot, cid);
        var own := OwnRow(front, cid, x, accepted, fetch);
        if x.None? {
          StepIgnoresId(e, x, own, Lookup(mid.rows, cid), accepted, fetch);
        }
      } else {
        UntouchedLooksTheSame(mid.rows, ApplyEntry(mid, snapshot, e, accepted, fetch).rows, {e.cid}, cid);
      }
    }
  }

  /** An entry's row outlives the delete phase. */
  lemma IncomingSurvives(mid: seq<Row>, incoming: set<string>, cid: string)
    requires DistinctCids(mid) && cid in incoming
    ensures Lookup(Without(mid, incoming), cid) == Lookup(mid, cid)
  {
    hide Without;
    var x := Lookup(mid, cid);
    var r := Without(mid, incoming);
    WithoutKeepsTheRest(mid, incoming);
    WithoutKeepsDistinct(mid, incoming);
    if x.Some? {
      assert x.value in r;
      var k :| 0 <= k < |r| && r[k] == x.value;
      LookupIs(r, cid, k);
    }
  }

  /** After a whole run, every id of the manifest has the row its own entries make, and ids stay distinct. */
  lemma RunLooksUp(rows: seq<Row>, m: Manifest, accepted: set<string>, fetch: string -> Option<Payload>)
    requires DistinctIds(rows) && DistinctCids(rows)
    ensures var es := Usable(m);
            var r := Run(rows, m, accepted, fetch).rows;
            && DistinctIds(r) && DistinctCids(r)
            && forall cid :: cid in Ids(es) ==>
                 Describes(Lookup(rows, cid), OwnRow(es, cid, Lookup(rows, cid), accepted, fetch), Lookup(r, cid))
  {
    hide Usable, Lookup, ApplyEntries, OwnRow, Describes, Extends, DistinctIds, DistinctCids, Without, CountWhere,
      SkippedDeletes, AllowDeletes, AbsentCount, Ids;
    var es := Usable(m);
    var start := State(rows, Counts(0, 0, 0, 0, |m| - |es|, 0));
    var mid := ApplyEntries(start, rows, es, accepted, fetch).rows;
    EntriesExtend(start, rows, es, accepted, fetch);
    EntriesLookUp(start, rows, es, "", accepted, fetch);
    WithoutKeepsDistinct(mid, Ids(es));
    forall cid | cid in Ids(es)
      ensures Lookup(Without(mid, Ids(es)), cid) == Lookup(mid, cid)
      ensures Describes(Lookup(rows, cid), OwnRow(es, cid, Lookup(rows, cid), accepted, fetch), Lookup(mid, cid))
    {
      EntriesLookUp(start, rows, es, cid, accepted, fetch);
      IncomingSurvives(mid, Ids(es), cid);
    }
  }
}
