/** Reconciling the community pattern table with a published manifest. */
module CommunitySync {
  import opened Basics

  datatype Reason = NoReason | CategoryFiltered | OtherReason

  /** A row of the pattern table; cid is None for rows that carry no community id. */
  datatype Row = Row(id: nat, community: bool, cid: Option<string>, isProtected: bool, active: bool, reason: Reason,
                     category: Option<string>, version: int, hash: Option<string>, body: string)

  /** A pattern body; complete when it has every required field, category None when it has no such key. */
  datatype Payload = Payload(complete: bool, category: Option<Option<string>>, hash: Option<string>, body: string)

  datatype Source = Inline(data: Payload) | Thin(hash: string, path: string)

  datatype Entry = Entry(cid: string, version: int, source: Source)

  /** Manifest entries in order; None is one that cannot be applied. */
  type Manifest = seq<Option<Entry>>

  datatype Counts = Counts(inserts: nat, updates: nat, deletes: nat, skips: nat, errors: nat, filtered: nat)

  const SEGMENT_CATEGORIES := {"sponsor", "cross_promo", "self_promo", "interaction", "intro", "outro", "recap"}

  function Normalize(category: Option<string>): string {
    if category.Some? && category.value in SEGMENT_CATEGORIES then category.value else "sponsor"
  }

  function PayloadCategory(p: Payload): Option<string> {
    if p.category.Some? then p.category.value else None
  }

  /** A missing or zero version counts as 1. */
  function VersionOf(v: int): int { if v == 0 then 1 else v }

  // ----- The table -----

  predicate HasCid(row: Row, cid: string) { row.cid == Some(cid) }

  /** The batch lookup's dictionary keeps the last row of an id. */
  function Lookup(rows: seq<Row>, cid: string): (r: Option<Row>)
    ensures r.Some? ==> r.value in rows && HasCid(r.value, cid)
    ensures r.None? ==> forall x :: x in rows ==> !HasCid(x, cid)
  {
    if rows == [] then None
    else if HasCid(rows[|rows| - 1], cid) then Some(rows[|rows| - 1])
    else Lookup(rows[..|rows| - 1], cid)
  }

  /** The single lookup returns the first row of an id. */
  function FindFirst(rows: seq<Row>, cid: string): (r: Option<Row>)
    ensures r.Some? ==> r.value in rows && HasCid(r.value, cid)
    ensures r.None? ==> forall x :: x in rows ==> !HasCid(x, cid)
  {
    if rows == [] then None else if HasCid(rows[0], cid) then Some(rows[0]) else FindFirst(rows[1..], cid)
  }

  /** Writes row over the one with its id. */
  function Put(rows: seq<Row>, row: Row): (r: seq<Row>)
    ensures |r| == |rows|
    ensures forall i :: 0 <= i < |rows| ==> r[i] == if rows[i].id == row.id then row else rows[i]
  {
    seq(|rows|, i requires 0 <= i < |rows| => if rows[i].id == row.id then row else rows[i])
  }

  function SetActive(rows: seq<Row>, id: nat, active: bool): (r: seq<Row>)
    ensures |r| == |rows|
    ensures forall i :: 0 <= i < |rows| ==> r[i] == if rows[i].id == id
      then rows[i].(active := active, reason := if active then NoReason else CategoryFiltered) else rows[i]
  {
    seq(|rows|, i requires 0 <= i < |rows| => if rows[i].id == id
      then rows[i].(active := active, reason := if active then NoReason else CategoryFiltered) else rows[i])
  }

  function NextId(rows: seq<Row>): (r: nat)
    ensures forall x :: x in rows ==> x.id < r
  {
    if rows == [] then 1
    else
      var rest := NextId(rows[1..]);
      assert forall x :: x in rows ==> x == rows[0] || x in rows[1..];
      if rest > rows[0].id then rest else rows[0].id + 1
  }

  /** import_community_pattern for a complete payload: insert, gated update, or nothing on a protected row. */
  function Import(rows: seq<Row>, cid: string, p: Payload, version: int, hash: Option<string>): seq<Row> {
    var live := FindFirst(rows, cid);
    if live.None? then
      rows + [Row(NextId(rows), true, Some(cid), false, true, NoReason, PayloadCategory(p), VersionOf(version), hash,
                  p.body)]
    else
      var x := live.value;
      if x.isProtected then rows
      else if hash.Some? && hash == x.hash then rows
      else if hash.None? && VersionOf(version) <= VersionOf(x.version) then rows
      else Put(rows, x.(body := p.body, version := VersionOf(version), hash := hash,
                        category := if p.category.Some? then p.category.value else x.category))
  }

  // ----- One entry -----

  datatype Outcome = Inserted | Updated | Skipped | Failed | FilteredOut

  /** What an entry comes to; only the snapshot row and the payload decide. */
  function OutcomeOf(e: Entry, existing: Option<Row>, accepted: set<string>,
                     fetch: string -> Option<Payload>): Outcome {
    if existing.Some? && Normalize(existing.value.category) !in accepted then FilteredOut
    else
      match e.source
      case Inline(data) =>
        if existing.None? then
          if Normalize(PayloadCategory(data)) !in accepted then FilteredOut
          else if data.complete then Inserted else Failed
        else if existing.value.isProtected then Skipped
        else if e.version > VersionOf(existing.value.version) then (if data.complete then Updated else Failed)
        else Skipped
      case Thin(hash, path) =>
        if existing.Some? && (existing.value.isProtected || existing.value.hash == Some(hash)) then Skipped
        else
          var got := fetch(path);
          if got.None? then Failed
          else if existing.None? && Normalize(PayloadCategory(got.value)) !in accepted then FilteredOut
          else if !got.value.complete then Failed
          else if existing.None? then Inserted else Updated
  }

  /** The category gate's own write: rows outside the accepted categories go inactive, and come back when accepted. */
  function Gate(rows: seq<Row>, existing: Option<Row>, accepted: set<string>): seq<Row> {
    if existing.None? then rows
    else
      var x := existing.value;
      if Normalize(x.category) !in accepted then (if x.active then SetActive(rows, x.id, false) else rows)
      else if !x.active && x.reason == CategoryFiltered then SetActive(rows, x.id, true)
      else rows
  }

  function Write(rows: seq<Row>, e: Entry, outcome: Outcome, fetch: string -> Option<Payload>): seq<Row> {
    if outcome != Inserted && outcome != Updated then rows
    else
      match e.source
      case Inline(data) => Import(rows, e.cid, data, e.version, data.hash)
      case Thin(hash, path) =>
        var got := fetch(path);
        if got.None? then rows else Import(rows, e.cid, got.value, e.version, Some(hash))
  }

  function Tally(c: Counts, o: Outcome): Counts {
    match o
    case Inserted => c.(inserts := c.inserts + 1)
    case Updated => c.(updates := c.updates + 1)
    case Skipped => c.(skips := c.skips + 1)
    case Failed => c.(errors := c.errors + 1)
    case FilteredOut => c.(filtered := c.filtered + 1)
  }

  datatype State = State(rows: seq<Row>, counts: Counts)

  function ApplyEntry(st: State, snapshot: seq<Row>, e: Entry, accepted: set<string>,
                      fetch: string -> Option<Payload>): State {
    var existing := Lookup(snapshot, e.cid);
    var outcome := OutcomeOf(e, existing, accepted, fetch);
    State(Write(Gate(st.rows, existing, accepted), e, outcome, fetch), Tally(st.counts, outcome))
  }

  function Usable(m: Manifest): (r: seq<Entry>)
    ensures |r| <= |m|
  {
    if m == [] then []
    else Usable(m[..|m| - 1]) + (if m[|m| - 1].Some? then [m[|m| - 1].value] else [])
  }

  function ApplyEntries(st: State, snapshot: seq<Row>, es: seq<Entry>, accepted: set<string>,
                        fetch: string -> Option<Payload>): State
  {
    if es == [] then st
    else
      ApplyEntry(ApplyEntries(st, snapshot, es[..|es| - 1], accepted, fetch), snapshot, es[|es| - 1], accepted, fetch)
  }

  // ----- Reconciling deletes -----

  function Ids(es: seq<Entry>): set<string> { set i | 0 <= i < |es| :: es[i].cid }

  /** A synced row the guard counts. */
  predicate Counted(row: Row) { row.community && row.cid.Some? && !row.isProtected }

  predicate Absent(row: Row, incoming: set<string>) { Counted(row) && row.cid.value !in incoming }

  function CountWhere(rows: seq<Row>, p: Row -> bool): nat {
    if rows == [] then 0 else CountWhere(rows[..|rows| - 1], p) + (if p(rows[|rows| - 1]) then 1 else 0)
  }

  function AbsentCount(rows: seq<Row>, incoming: set<string>): nat { CountWhere(rows, (r: Row) => Absent(r, incoming)) }

  function Total(rows: seq<Row>): nat { CountWhere(rows, (r: Row) => Counted(r)) }

  /** Refuse when nothing usable came in, or more than half the counted rows would go. */
  predicate AllowDeletes(rows: seq<Row>, incoming: set<string>) {
    AbsentCount(rows, incoming) == 0 || (incoming != {} && 2 * AbsentCount(rows, incoming) <= Total(rows))
  }

  function Without(rows: seq<Row>, incoming: set<string>): seq<Row> {
    if rows == [] then []
    else Without(rows[..|rows| - 1], incoming) + (if Absent(rows[|rows| - 1], incoming) then [] else [rows[|rows| - 1]])
  }

  /** Synced rows missing from the manifest that the delete phase passes over. */
  function SkippedDeletes(rows: seq<Row>, incoming: set<string>, allow: bool): nat {
    CountWhere(rows, (r: Row) => r.community && r.cid.Some? && r.cid.value !in incoming && (r.isProtected || !allow))
  }

  function Reconcile(st: State, incoming: set<string>): State {
    var allow := AllowDeletes(st.rows, incoming);
    var gone := if allow then AbsentCount(st.rows, incoming) else 0;
    State(if allow then Without(st.rows, incoming) else st.rows,
          st.counts.(deletes := st.counts.deletes + gone,
                     skips := st.counts.skips + SkippedDeletes(st.rows, incoming, allow)))
  }

  /** One sync run. */
  function Run(rows: seq<Row>, m: Manifest, accepted: set<string>, fetch: string -> Option<Payload>): State {
    var es := Usable(m);
    Reconcile(ApplyEntries(State(rows, Counts(0, 0, 0, 0, |m| - |es|, 0)), rows, es, accepted, fetch), Ids(es))
  }
}
