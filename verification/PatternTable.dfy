/** The pattern table as the sync updates it, row by row. */
module PatternTable {
  import opened Basics
  import opened CommunitySync
  import opened CommunitySyncProofs

  /** The database's delete by primary key. */
  function DropId(rows: seq<Row>, id: nat): seq<Row> {
    if rows == [] then [] else (if rows[0].id == id then [] else [rows[0]]) + DropId(rows[1..], id)
  }

  lemma {:induction false} DropIdOfNone(rows: seq<Row>, id: nat)
    requires forall x :: x in rows ==> x.id != id
    ensures DropId(rows, id) == rows
  {
    if rows != [] {
      DropIdOfNone(rows[1..], id);
    }
  }

  lemma {:induction false} DropIdAt(before: seq<Row>, x: Row, rest: seq<Row>)
    requires forall y :: y in before || y in rest ==> y.id != x.id
    ensures DropId(before + [x] + rest, x.id) == before + rest
  {
    var rows := before + [x] + rest;
    if before == [] {
      assert rows[1..] == rest;
      DropIdOfNone(rest, x.id);
    } else {
      assert rows[1..] == before[1..] + [x] + rest;
      DropIdAt(before[1..], x, rest);
    }
  }

  lemma {:induction false} AbsentAreCounted(rows: seq<Row>, incoming: set<string>)
    ensures AbsentCount(rows, incoming) <= Total(rows)
  {
    if rows != [] {
      AbsentAreCounted(rows[..|rows| - 1], incoming);
    }
  }

  /** The table once the delete phase has passed the first i rows. */
  ghost function Left(all: seq<Row>, i: nat, incoming: set<string>, allow: bool): seq<Row>
    requires i <= |all|
  {
    (if allow then Without(all[..i], incoming) else all[..i]) + all[i..]
  }

  lemma LeftEnds(all: seq<Row>, incoming: set<string>, allow: bool)
    ensures Left(all, 0, incoming, allow) == all
    ensures Left(all, |all|, incoming, allow) == if allow then Without(all, incoming) else all
    ensures all[..0] == [] && all[..|all|] == all
    ensures AbsentCount([], incoming) == SkippedDeletes([], incoming, allow) == 0
  {
    assert all[..0] == [] && all[..|all|] == all;
  }

  lemma CountsGrow(all: seq<Row>, i: nat, incoming: set<string>, allow: bool)
    requires i < |all|
    ensures var x := all[i];
            var skipped := x.community && x.cid.Some? && x.cid.value !in incoming && (x.isProtected || !allow);
            && AbsentCount(all[..i + 1], incoming)
                 == AbsentCount(all[..i], incoming) + (if Absent(x, incoming) then 1 else 0)
            && SkippedDeletes(all[..i + 1], incoming, allow)
                 == SkippedDeletes(all[..i], incoming, allow) + (if skipped then 1 else 0)
  {
    assert all[..i + 1][..i] == all[..i];
  }

  /** What passing row i adds to the counters and does to the table. */
  lemma DeleteStep(all: seq<Row>, i: nat, incoming: set<string>, allow: bool)
    requires DistinctIds(all) && i < |all|
    ensures var x := all[i];
            var skipped := x.community && x.cid.Some? && x.cid.value !in incoming && (x.isProtected || !allow);
            && AbsentCount(all[..i + 1], incoming)
                 == AbsentCount(all[..i], incoming) + (if Absent(x, incoming) then 1 else 0)
            && SkippedDeletes(all[..i + 1], incoming, allow)
                 == SkippedDeletes(all[..i], incoming, allow) + (if skipped then 1 else 0)
            && Left(all, i + 1, incoming, allow)
                 == if allow && Absent(x, incoming) then DropId(Left(all, i, incoming, allow), x.id)
                    else Left(all, i, incoming, allow)
  {
    CountsGrow(all, i, incoming, allow);
    hide DropId, CountWhere, AbsentCount, SkippedDeletes;
    var x := all[i];
    assert all[..i + 1][..i] == all[..i];
    assert all[i..] == [x] + all[i + 1..];
    assert all[..i + 1] + all[i + 1..] == all == all[..i] + all[i..];
    var front := Without(all[..i], incoming);
    WithoutKeepsTheRest(all[..i], incoming);
    assert front + all[i..] == front + [x] + all[i + 1..];
    DropIdAt(front, x, all[i + 1..]);
  }

  /** The manifest items that can be applied, and how many cannot. */
  method CollectUsable(m: Manifest) returns (valid: seq<Entry>, errors: nat)
    ensures valid == Usable(m) && errors == |m| - |valid|
  {
    valid, errors := [], 0;
    for i := 0 to |m|
      invariant valid == Usable(m[..i]) && errors == i - |valid|
    {
      assert m[..i + 1][..i] == m[..i];
      if m[i].None? {
        errors := errors + 1;
      } else {
        valid := valid + [m[i].value];
      }
    }
    assert m[..|m|] == m;
  }

  class PatternDb {
    var rows: seq<Row>

    constructor ()
      ensures rows == []
    {
      rows := [];
    }

    /** The branches an entry takes, with the writes each makes. */
    method ApplyOne(e: Entry, existing: Option<Row>, accepted: set<string>, fetch: string -> Option<Payload>)
      returns (outcome: Outcome)
      modifies this
      ensures outcome == OutcomeOf(e, existing, accepted, fetch)
      ensures rows == Write(Gate(old(rows), existing, accepted), e, outcome, fetch)
    {
      if existing.Some? {
        var x := existing.value;
        if Normalize(x.category) !in accepted {
          if x.active {
            rows := SetActive(rows, x.id, false);
          }
          return FilteredOut;
        }
        if !x.active && x.reason == CategoryFiltered {
          rows := SetActive(rows, x.id, true);
        }
      }
      match e.source {
        case Inline(data) =>
          if existing.None? {
            if Normalize(PayloadCategory(data)) !in accepted {
              return FilteredOut;
            }
          } else if existing.value.isProtected || e.version <= VersionOf(existing.value.version) {
            return Skipped;
          }
          if !data.complete {
            return Failed;
          }
          rows := Import(rows, e.cid, data, e.version, data.hash);
        case Thin(hash, path) =>
          if existing.Some? {
            if existing.value.isProtected || existing.value.hash == Some(hash) {
              return Skipped;
            }
          }
          var got := fetch(path);
          if got.None? {
            return Failed;
          }
          if existing.None? && Normalize(PayloadCategory(got.value)) !in accepted {
            return FilteredOut;
          }
          if !got.value.complete {
            return Failed;
          }
          rows := Import(rows, e.cid, got.value, e.version, Some(hash));
      }
      return if existing.None? then Inserted else Updated;
    }

    /** How many synced, unprotected rows there are, and how many of them the manifest lacks. */
    method CountAbsent(incoming: set<string>) returns (absent: nat, total: nat)
      ensures absent == AbsentCount(rows, incoming) && total == Total(rows)
    {
      absent, total := 0, 0;
      for i := 0 to |rows|
        invariant absent == AbsentCount(rows[..i], incoming) && total == Total(rows[..i])
      {
        assert rows[..i + 1][..i] == rows[..i];
        if rows[i].community && rows[i].cid.Some? && !rows[i].isProtected {
          total := total + 1;
          if rows[i].cid.value !in incoming {
            absent := absent + 1;
          }
        }
      }
      assert rows[..|rows|] == rows;
    }

    /** Decides once whether to delete, then goes through the rows. */
    method DeleteAbsent(incoming: set<string>, before: Counts) returns (counts: Counts)
      requires DistinctIds(rows)
      modifies this
      ensures State(rows, counts) == Reconcile(State(old(rows), before), incoming)
      ensures DistinctIds(rows)
    {
      hide CountWhere, Without, DropId, Total, AbsentCount, SkippedDeletes, Left, DistinctIds;
      var all := rows;
      var absent, total := CountAbsent(incoming);
      var allow := true;
      if absent > 0 && (incoming == {} || (total > 0 && 2 * absent > total)) {
        allow := false;
      }
      AbsentAreCounted(all, incoming);
      assert allow == AllowDeletes(all, incoming);

      var deletes, skips := 0, 0;
      LeftEnds(all, incoming, allow);
      for i := 0 to |all|
        invariant rows == Left(all, i, incoming, allow)
        invariant deletes == if allow then AbsentCount(all[..i], incoming) else 0
        invariant skips == SkippedDeletes(all[..i], incoming, allow)
      {
        DeleteStep(all, i, incoming, allow);
        var row := all[i];
        if row.community && row.cid.Some? && row.cid.value !in incoming {
          if row.isProtected || !allow {
            skips := skips + 1;
          } else {
            rows := DropId(rows, row.id);
            deletes := deletes + 1;
          }
        }
      }
      WithoutKeepsDistinct(all, incoming);
      counts := before.(deletes := before.deletes + deletes, skips := before.skips + skips);
    }

    /** Goes through the entries, each against the table as the run found it. */
    method ApplyInTurn(valid: seq<Entry>, before: Counts, accepted: set<string>, fetch: string -> Option<Payload>)
      returns (counts: Counts)
      modifies this
      ensures State(rows, counts) == ApplyEntries(State(old(rows), before), old(rows), valid, accepted, fetch)
    {
      hide Gate, Write, OutcomeOf, Import, Lookup;
      var snapshot := rows;
      ghost var start := State(snapshot, before);
      counts := before;
      for i := 0 to |valid|
        invariant State(rows, counts) == ApplyEntries(start, snapshot, valid[..i], accepted, fetch)
      {
        assert valid[..i + 1][..i] == valid[..i];
        var outcome := ApplyOne(valid[i], Lookup(snapshot, valid[i].cid), accepted, fetch);
        counts := Tally(counts, outcome);
      }
      assert valid[..|valid|] == valid;
    }

    /** One sync run: collect, apply entry by entry against the snapshot, then delete what the manifest lacks. */
    method ApplyManifest(m: Manifest, accepted: set<string>, fetch: string -> Option<Payload>) returns (counts: Counts)
      requires DistinctIds(rows)
      modifies this
      ensures State(rows, counts) == Run(old(rows), m, accepted, fetch)
      ensures DistinctIds(rows)
    {
      hide ApplyEntries, Usable, Reconcile, Extends, DistinctIds, Ids;
      var valid, errors := CollectUsable(m);
      counts := Counts(0, 0, 0, 0, errors, 0);
      ghost var start := State(rows, counts);
      counts := ApplyInTurn(valid, counts, accepted, fetch);
      EntriesExtend(start, start.rows, valid, accepted, fetch);
      counts := DeleteAbsent(Ids(valid), counts);
    }
  }
}
