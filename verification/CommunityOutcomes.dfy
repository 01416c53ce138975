/** What each manifest entry comes to, what it makes of its row, and when rows are deleted, in plain terms. */
module CommunityOutcomes {
  import opened Basics
  import opened CommunitySync
  import opened CommunitySyncProofs
  import opened CommunitySyncRows

  /** Rows of this category are synced; an unknown or missing category counts as a sponsor read. */
  ghost predicate Wanted(category: Option<string>, accepted: set<string>) {
    if category.Some? && category.value in SEGMENT_CATEGORIES then category.value in accepted else "sponsor" in accepted
  }

  /** The version a row counts at: 1 when none is stored. */
  ghost predicate CountsAt(x: Row, v: int) { if x.version == 0 then v == 1 else v == x.version }

  /** The entry has something new for the row: a higher version inline, another hash in a thin entry. */
  ghost predicate Newer(e: Entry, x: Row) {
    match e.source
    case Inline(_) => forall v :: CountsAt(x, v) ==> e.version > v
    case Thin(hash, _) => x.hash != Some(hash)
  }

  /** The body the entry carries or points to, if it can be had. */
  ghost predicate Carries(e: Entry, fetch: string -> Option<Payload>, p: Payload) {
    match e.source
    case Inline(data) => p == data
    case Thin(_, path) => fetch(path) == Some(p)
  }

  ghost predicate Category(p: Payload, c: Option<string>) { c == if p.category.Some? then p.category.value else None }

  /** The entry brings a complete body. */
  ghost predicate Whole(e: Entry, fetch: string -> Option<Payload>) { exists p :: Carries(e, fetch, p) && p.complete }

  /** The entry's body is of a category that is synced. */
  ghost predicate WantedBody(e: Entry, fetch: string -> Option<Payload>, accepted: set<string>) {
    exists p, c :: Carries(e, fetch, p) && Category(p, c) && Wanted(c, accepted)
  }

  ghost predicate UnwantedBody(e: Entry, fetch: string -> Option<Payload>, accepted: set<string>) {
    exists p, c :: Carries(e, fetch, p) && Category(p, c) && !Wanted(c, accepted)
  }

  lemma WantedIs(category: Option<string>, accepted: set<string>)
    ensures Wanted(category, accepted) <==> Normalize(category) in accepted
  {
  }

  lemma NewerIs(e: Entry, x: Row)
    ensures e.source.Inline? ==> (Newer(e, x) <==> e.version > VersionOf(x.version))
  {
    assert CountsAt(x, VersionOf(x.version));
  }

  lemma BodyIs(e: Entry, fetch: string -> Option<Payload>, accepted: set<string>)
    ensures var p := PayloadOf(e, fetch);
      && (Whole(e, fetch) <==> p.Some? && p.value.complete)
      && (WantedBody(e, fetch, accepted) <==> p.Some? && Normalize(PayloadCategory(p.value)) in accepted)
      && (UnwantedBody(e, fetch, accepted) <==> p.Some? && Normalize(PayloadCategory(p.value)) !in accepted)
  {
    var p := PayloadOf(e, fetch);
    if p.Some? {
      assert Carries(e, fetch, p.value) && Category(p.value, PayloadCategory(p.value));
      WantedIs(PayloadCategory(p.value), accepted);
    }
    forall q, c | Carries(e, fetch, q) && Category(q, c) ensures p == Some(q) && c == PayloadCategory(q) {
    }
  }

  /** What an entry comes to, as one condition for each outcome; x is the row of its id, if there is one. */
  lemma OutcomesExactly(e: Entry, x: Option<Row>, accepted: set<string>, fetch: string -> Option<Payload>)
    ensures var o := OutcomeOf(e, x, accepted, fetch);
      && (o == Inserted <==> x.None? && WantedBody(e, fetch, accepted) && Whole(e, fetch))
      && (o == Updated <==> && x.Some? && Wanted(x.value.category, accepted) && !x.value.isProtected
                            && Newer(e, x.value) && Whole(e, fetch))
      && (o == Skipped <==> x.Some? && Wanted(x.value.category, accepted)
                            && (x.value.isProtected || !Newer(e, x.value)))
      && (o == FilteredOut <==> if x.Some? then !Wanted(x.value.category, accepted)
                                else UnwantedBody(e, fetch, accepted))
      && (o == Failed <==> && !Whole(e, fetch)
                           && if x.None? then !UnwantedBody(e, fetch, accepted)
                              else Wanted(x.value.category, accepted) && !x.value.isProtected && Newer(e, x.value))
  {
    BodyIs(e, fetch, accepted);
    if x.Some? {
      WantedIs(x.value.category, accepted);
      NewerIs(e, x.value);
    }
    hide Wanted, Whole, WantedBody, UnwantedBody, Normalize;
  }

  // ----- What an entry makes of its row -----

  /** The row as the category gate leaves it. */
  ghost predicate Gated(x: Row, accepted: set<string>, g: Row) {
    if !Wanted(x.category, accepted) then
      g == x.(active := false, reason := if x.active then CategoryFiltered else x.reason)
    else if x.reason == CategoryFiltered && !x.active then g == x.(active := true, reason := NoReason)
    else g == x
  }

  /** The row rewritten from a body: its key, protection and activation stay, and so does a category the body lacks. */
  ghost predicate Rewritten(g: Row, p: Payload, e: Entry, y: Row) {
    && y == g.(body := p.body, version := y.version, hash := HashOf(e), category := y.category)
    && y.version == (if e.version == 0 then 1 else e.version)
    && y.category == (if p.category.Some? then p.category.value else g.category)
  }

  ghost predicate Fresh(e: Entry, p: Payload, y: Row) {
    && y.community && y.cid == Some(e.cid) && !y.isProtected && y.active && y.reason == NoReason
    && Category(p, y.category) && y.version == (if e.version == 0 then 1 else e.version)
    && y.hash == HashOf(e) && y.body == p.body
  }

  /** What is left of the gated row: rewritten by an update that brings another hash or none, else as it is. */
  ghost predicate Left(e: Entry, x: Row, g: Row, o: Outcome, fetch: string -> Option<Payload>, y: Row) {
    if o == Updated && (HashOf(e).None? || HashOf(e) != x.hash)
    then exists p :: Carries(e, fetch, p) && Rewritten(g, p, e, y)
    else y == g
  }

  /**
   * One entry on its id's row: a wanted complete body makes a new row; a newer one rewrites an unprotected row, unless
   * it brings the hash the row has; else only the category gate acts.
   */
  lemma EntryRowExactly(e: Entry, x: Option<Row>, accepted: set<string>, fetch: string -> Option<Payload>)
    ensures var y, o := OwnStep(e, x, x, accepted, fetch), OutcomeOf(e, x, accepted, fetch);
      && (x.None? ==> (y.Some? <==> o == Inserted))
      && (o == Inserted ==> exists p :: Carries(e, fetch, p) && Fresh(e, p, y.value))
      && (x.Some? ==> y.Some? && exists g :: Gated(x.value, accepted, g) && Left(e, x.value, g, o, fetch, y.value))
  {
    OutcomesExactly(e, x, accepted, fetch);
    var p := PayloadOf(e, fetch);
    if p.Some? {
      assert Carries(e, fetch, p.value);
    }
    if x.Some? {
      WantedIs(x.value.category, accepted);
      NewerIs(e, x.value);
      var g := GatedRow(x.value, x.value, accepted);
      assert Gated(x.value, accepted, g);
    }
    hide OutcomeOf, Wanted, Whole, WantedBody, UnwantedBody, Normalize;
  }

  // ----- The entries of a manifest -----

  lemma {:induction false} UsableConcat(a: Manifest, b: Manifest)
    ensures Usable(a + b) == Usable(a) + Usable(b)
  {
    if b == [] {
      assert a + b == a;
    } else {
      var n := |b| - 1;
      UsableConcat(a, b[..n]);
      assert (a + b)[..|a + b| - 1] == a + b[..n];
    }
  }

  /** The entries of a manifest are its usable items, in order. */
  lemma UsableIs(m: Manifest, i: nat)
    requires i < |m|
    ensures Usable(m) == Usable(m[..i]) + (if m[i].Some? then [m[i].value] else []) + Usable(m[i + 1..])
  {
    var one := [m[i]];
    UsableConcat(m[..i] + one, m[i + 1..]);
    UsableConcat(m[..i], one);
    assert one[..0] == [] && Usable(one) == Usable(one[..0]) + (if m[i].Some? then [m[i].value] else []);
    assert m == m[..i] + one + m[i + 1..];
  }

  // ----- Deletes -----

  /** The positions of unprotected community rows with an id. */
  ghost function SyncedAt(rows: seq<Row>): set<int> {
    set i | 0 <= i < |rows| && rows[i].community && rows[i].cid.Some? && !rows[i].isProtected
  }

  /** Those whose id the manifest lacks. */
  ghost function MissingAt(rows: seq<Row>, incoming: set<string>): set<int> {
    set i | 0 <= i < |rows| && rows[i].community && rows[i].cid.Some? && !rows[i].isProtected
            && rows[i].cid.value !in incoming
  }

  lemma {:induction false} SyncedCount(rows: seq<Row>)
    ensures Total(rows) == |SyncedAt(rows)|
  {
    if rows != [] {
      var n := |rows| - 1;
      SyncedCount(rows[..n]);
      assert SyncedAt(rows) == SyncedAt(rows[..n]) + (if Counted(rows[n]) then {n} else {});
      assert Total(rows) == Total(rows[..n]) + (if Counted(rows[n]) then 1 else 0);
    } else {
      assert SyncedAt(rows) == {};
    }
  }

  lemma {:induction false} MissingCount(rows: seq<Row>, incoming: set<string>)
    ensures AbsentCount(rows, incoming) == |MissingAt(rows, incoming)|
  {
    if rows != [] {
      var n := |rows| - 1;
      MissingCount(rows[..n], incoming);
      assert MissingAt(rows, incoming) == MissingAt(rows[..n], incoming)
                                        + (if Absent(rows[n], incoming) then {n} else {});
      assert AbsentCount(rows, incoming)
          == AbsentCount(rows[..n], incoming) + (if Absent(rows[n], incoming) then 1 else 0);
    } else {
      assert MissingAt(rows, incoming) == {};
    }
  }

  /**
   * After the entries, the rows the manifest lacks go exactly when it has an entry and they are at most half of all.
   */
  lemma DeletesExactly(rows: seq<Row>, m: Manifest, accepted: set<string>, fetch: string -> Option<Payload>)
    ensures var mid, incoming := EntryPhase(rows, m, accepted, fetch).rows, Ids(Usable(m));
      var gone := |MissingAt(mid, incoming)|;
      Run(rows, m, accepted, fetch).counts.deletes
      == if Usable(m) != [] && 2 * gone <= |SyncedAt(mid)| then gone else 0
  {
    hide Usable, ApplyEntries, Without, CountWhere, SkippedDeletes, MissingAt, SyncedAt;
    var es := Usable(m);
    var mid := EntryPhase(rows, m, accepted, fetch).rows;
    EntriesNeverDelete(State(rows, Counts(0, 0, 0, 0, |m| - |es|, 0)), rows, es, accepted, fetch);
    MissingCount(mid, Ids(es));
    SyncedCount(mid);
    assert es != [] ==> es[0].cid in Ids(es);
  }
}
