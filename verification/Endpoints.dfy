/** ListLimits, ListAuditEntries and ListServices over reachable databases. */
module Endpoints {
  import opened Prelude
  import opened Windows
  import opened CounterKey
  import opened LimitTable
  import opened ControlPlane
  import opened AuditLog
  import opened PageToken
  import opened Paging
  import opened Listings

  // ---------- limits, ascending by id ----------

  /** Always scoped to one service; an empty filter matches anything. */
  datatype LimitQuery = LimitQuery(service: string, customer: string, rateLimitId: string)
  {
    predicate Wants(row: LimitRow) {
      && row.key.service == service
      && (customer == "" || row.key.customer == customer)
      && (rateLimitId == "" || row.key.rateLimitId == rateLimitId)
    }
  }

  function LimitListing(): Listing<LimitRow, int> {
    Listing((r: LimitRow) => r.id, (a: int, b: int) => a < b, EncodeLong, (t: string) => DecodeLong(t, 0))
  }

  method ListLimits(rows: seq<LimitRow>, q: LimitQuery, requested: int, token: string) returns (result: Result<Page<LimitRow>>)
    ensures result == PageAt(LimitListing(), rows, (r: LimitRow) => q.Wants(r), ClampPageSize(requested), token)
    ensures result.Err? <==> DecodeLong(token, 0).Err?
  {
    result := List(LimitListing(), rows, (r: LimitRow) => q.Wants(r), ClampPageSize(requested), token);
  }

  /** The rows of a table in primary-key order. */
  ghost predicate Lists(rows: seq<LimitRow>, table: Table) {
    && (forall i, j :: 0 <= i < j < |rows| ==> rows[i].id < rows[j].id)
    && (forall r :: r in rows <==> RowOf(table, r))
  }

  lemma IntOrders()
    ensures StrictOrder((a: int, b: int) => a < b) && StrictOrder((a: int, b: int) => a > b)
  {}

  lemma LimitTokensAreFaithful(tables: seq<seq<LimitRow>>)
    requires forall i, r :: 0 <= i < |tables| && r in tables[i] ==> 1 <= r.id <= MAX_LONG
    ensures Faithful(LimitListing(), 0, tables)
  {
    IntOrders();
    var l := LimitListing();
    forall i, r | 0 <= i < |tables| && r in tables[i]
      ensures l.less(0, l.key(r)) && l.encode(l.key(r)) != "" && l.decode(l.encode(l.key(r))) == Ok(l.key(r))
    {
      TokenRoundTrip([0], r.id, 0);
    }
  }

  /** The row listings a client's calls saw: tables of databases the control plane can reach. */
  ghost predicate ReachableTables(runs: seq<seq<Event>>, tables: seq<seq<LimitRow>>) {
    && |runs| == |tables|
    && forall i :: 0 <= i < |runs| ==> Lists(tables[i], RunOf(runs[i]).table) && RunOf(runs[i]).nextId <= MAX_LONG + 1
  }

  lemma ReachableTokensAreFaithful(runs: seq<seq<Event>>, tables: seq<seq<LimitRow>>)
    requires ReachableTables(runs, tables)
    ensures Faithful(LimitListing(), 0, tables)
  {
    hide RunOf, Faithful;
    forall i, r | 0 <= i < |tables| && r in tables[i] ensures 1 <= r.id <= MAX_LONG {
      RunKeepsInv(runs[i]);
      RowsAreKeyed(RunOf(runs[i]), r);
    }
    LimitTokensAreFaithful(tables);
  }

  /** Following limit tokens to the end over any databases the control plane can reach: ids come in order,
      none twice, a limit matching throughout is listed, whatever is created or deleted in between, and every
      row on a page stood so in the table when that page was fetched. */
  lemma LimitWalkIsExact(
    runs: seq<seq<Event>>, tables: seq<seq<LimitRow>>, q: LimitQuery, size: nat, pages: seq<Page<LimitRow>>, id: int)
    requires ReachableTables(runs, tables)
    requires IsListing(LimitListing(), (r: LimitRow) => q.Wants(r), size, tables, pages)
    requires pages[|pages| - 1].nextToken == ""
    ensures
      var l, wanted := LimitListing(), (r: LimitRow) => q.Wants(r);
      && Ascending(l.less, ReceivedKeys(l, pages)) && PagesAreTrue(wanted, tables, pages)
      && ((forall i :: 0 <= i < |tables| ==> MatchesIn(l, wanted, tables[i], id)) ==> id in ReceivedKeys(l, pages))
      && (id in ReceivedKeys(l, pages) ==> OnAPage(l, pages, id))
  {
    hide RunOf, IsListing, Faithful, ReceivedKeys, Ascending, MatchesIn, OnAPage, PagesAreTrue, EncodeLong, DecodeLong;
    ReachableTokensAreFaithful(runs, tables);
    ListingShape(LimitListing(), (r: LimitRow) => q.Wants(r), size, tables, pages);
    ListingIsExact(LimitListing(), (r: LimitRow) => q.Wants(r), size, 0, tables, pages, id);
  }

  /** Every limit a client receives is of the service it asked for and passes each filter it set. */
  lemma LimitsAreFiltered(
    runs: seq<seq<Event>>, tables: seq<seq<LimitRow>>, q: LimitQuery, size: nat, pages: seq<Page<LimitRow>>, i: nat, row: LimitRow)
    requires ReachableTables(runs, tables)
    requires IsListing(LimitListing(), (r: LimitRow) => q.Wants(r), size, tables, pages)
    requires i < |pages| && row in pages[i].items
    ensures |pages| == |tables| && row in tables[i]
    ensures row.key.service == q.service
    ensures q.customer != "" ==> row.key.customer == q.customer
    ensures q.rateLimitId != "" ==> row.key.rateLimitId == q.rateLimitId
  {
    hide RunOf, IsListing, Faithful, EncodeLong, DecodeLong;
    ReachableTokensAreFaithful(runs, tables);
    ListingIsTrue(LimitListing(), (r: LimitRow) => q.Wants(r), size, 0, tables, pages);
    assert AllFrom((r: LimitRow) => q.Wants(r), tables[i], pages[i].items);
  }

  /** Conversely, a limit of that service that passes every filter and stays in the table throughout is received. */
  lemma FilteredLimitIsListed(
    runs: seq<seq<Event>>, tables: seq<seq<LimitRow>>, q: LimitQuery, size: nat, pages: seq<Page<LimitRow>>, row: LimitRow)
    requires ReachableTables(runs, tables) && forall i :: 0 <= i < |tables| ==> row in tables[i]
    requires IsListing(LimitListing(), (r: LimitRow) => q.Wants(r), size, tables, pages)
    requires pages[|pages| - 1].nextToken == ""
    requires row.key.service == q.service
    requires q.customer == "" || row.key.customer == q.customer
    requires q.rateLimitId == "" || row.key.rateLimitId == q.rateLimitId
    ensures row.id in ReceivedKeys(LimitListing(), pages)
  {
    hide RunOf, IsListing, Faithful, ReceivedKeys, Ascending, OnAPage, PagesAreTrue, EncodeLong, DecodeLong, ReachableTables;
    LimitWalkIsExact(runs, tables, q, size, pages, row.id);
    var l, wanted := LimitListing(), (r: LimitRow) => q.Wants(r);
    forall i | 0 <= i < |tables| ensures MatchesIn(l, wanted, tables[i], row.id) {
      assert row in tables[i] && wanted(row) && l.key(row) == row.id;
    }
  }

  /** Over a table that does not change, the client receives exactly the matching limits, in max(1, ceil(n / size))
      calls, and no walk can be longer. */
  lemma StaticLimitWalk(
    runs: seq<seq<Event>>, tables: seq<seq<LimitRow>>, q: LimitQuery, size: nat, pages: seq<Page<LimitRow>>)
    requires ReachableTables(runs, tables) && forall i :: 0 <= i < |tables| ==> tables[i] == tables[0]
    requires IsListing(LimitListing(), (r: LimitRow) => q.Wants(r), size, tables, pages)
    ensures
      var all := Matching(tables[0], LimitListing().key, (r: LimitRow) => q.Wants(r));
      && (|pages| - 1) * size <= |all|
      && (pages[|pages| - 1].nextToken == "" ==>
            (set k | k in ReceivedKeys(LimitListing(), pages)) == all && |pages| == PageCount(|all|, size))
  {
    hide RunOf, IsListing, Faithful, ReceivedKeys, Ascending, Matching, EncodeLong, DecodeLong, ReachableTables;
    ReachableTokensAreFaithful(runs, tables);
    StaticListing(LimitListing(), (r: LimitRow) => q.Wants(r), size, 0, tables, pages);
  }

  lemma RowsAreKeyed(db: Db, r: LimitRow)
    requires Inv(db) && RowOf(db.table, r)
    ensures 1 <= r.id < db.nextId
  {
    var id :| id in db.table && db.table[id] == r;
  }

  // ---------- audit entries, newest first ----------

  datatype AuditQuery = AuditQuery(service: string, key: Option<LimitKey>, configId: Option<int>, since: Option<Instant>)
  {
    predicate Wants(row: AuditRow) {
      && TupleOf(row).Some? && TupleOf(row).value.service == service
      && (configId.Some? ==> row.configId == configId.value)
      && (key.Some? ==> TupleOf(row).value.customer == key.value.customer && TupleOf(row).value.rateLimitId == key.value.rateLimitId)
      && (since.Some? ==> row.changedAt >= since.value)
    }
  }

  function AuditListing(): Listing<AuditRow, int> {
    Listing((r: AuditRow) => r.auditId, (a: int, b: int) => a > b, EncodeLong, (t: string) => DecodeLong(t, MAX_LONG))
  }

  function NewestFirst(log: seq<AuditRow>): (rows: seq<AuditRow>)
    ensures |rows| == |log| && forall i :: 0 <= i < |log| ==> rows[i] == log[|log| - 1 - i]
  {
    seq(|log|, i requires 0 <= i < |log| => log[|log| - 1 - i])
  }

  method ListAuditEntries(log: seq<AuditRow>, q: AuditQuery, requested: int, token: string) returns (result: Result<Page<AuditRow>>)
    ensures result == PageAt(AuditListing(), NewestFirst(log), (r: AuditRow) => q.Wants(r), ClampPageSize(requested), token)
    ensures result.Err? <==> DecodeLong(token, MAX_LONG).Err?
  {
    result := List(AuditListing(), NewestFirst(log), (r: AuditRow) => q.Wants(r), ClampPageSize(requested), token);
  }

  lemma NewestFirstHasTheSameRows(log: seq<AuditRow>, r: AuditRow)
    ensures r in NewestFirst(log) <==> r in log
  {
    var rows := NewestFirst(log);
    if r in rows {
      var i :| 0 <= i < |rows| && rows[i] == r;
      assert log[|log| - 1 - i] == r;
    }
    if r in log {
      var i :| 0 <= i < |log| && log[i] == r;
      assert rows[|log| - 1 - i] == r;
    }
  }

  /** The logs a client's calls saw: states of one run, each call no earlier than the one before. */
  ghost predicate LogsOfOneRun(events: seq<Event>, moments: seq<nat>, tables: seq<seq<AuditRow>>) {
    && |moments| == |tables|
    && (forall i :: 0 <= i < |moments| ==> moments[i] <= |events| && tables[i] == NewestFirst(RunOf(events[..moments[i]]).audit))
    && (forall i, j :: 0 <= i < j < |moments| ==> moments[i] <= moments[j])
    && RunOf(events).nextAuditId <= MAX_LONG
  }

  lemma {:induction false} SequenceOnlyGrows(events: seq<Event>, n: nat)
    requires n <= |events|
    ensures RunOf(events[..n]).nextAuditId <= RunOf(events).nextAuditId
    decreases |events|
  {
    hide ChangeOf;
    if n == |events| {
      assert events[..n] == events;
    } else {
      SequenceOnlyGrows(events[..|events| - 1], n);
      assert events[..|events| - 1][..n] == events[..n];
    }
  }

  lemma AuditTokensAreFaithful(events: seq<Event>, moments: seq<nat>, tables: seq<seq<AuditRow>>)
    requires LogsOfOneRun(events, moments, tables)
    ensures Faithful(AuditListing(), MAX_LONG, tables)
  {
    hide RunOf, StrictOrder, EncodeLong, DecodeLong;
    var l := AuditListing();
    assert StrictOrder(l.less) by { IntOrders(); }
    assert l.decode("") == Ok(MAX_LONG) by { EmptyToken(); }
    forall i, r | 0 <= i < |tables| && r in tables[i]
      ensures l.less(MAX_LONG, l.key(r)) && l.encode(l.key(r)) != "" && l.decode(l.encode(l.key(r))) == Ok(l.key(r))
    {
      var log := RunOf(events[..moments[i]]).audit;
      NewestFirstHasTheSameRows(log, r);
      var j :| 0 <= j < |log| && log[j] == r;
      AuditChains(events[..moments[i]], 0);
      SequenceOnlyGrows(events, moments[i]);
      TokenRoundTrip([0], r.auditId, MAX_LONG);
    }
  }

  lemma EmptyToken()
    ensures DecodeLong("", MAX_LONG) == Ok(MAX_LONG)
  {}

  /** Later calls only see more rows, and the added ones are newer than everything the first call saw. */
  lemma AuditIsSettled(
    events: seq<Event>, moments: seq<nat>, tables: seq<seq<AuditRow>>, q: AuditQuery, size: nat, pages: seq<Page<AuditRow>>)
    requires LogsOfOneRun(events, moments, tables) && |tables| == |pages| >= 1
    ensures Settled((a: int, b: int) => a > b, WalkOf(AuditListing(), (r: AuditRow) => q.Wants(r), size, MAX_LONG, tables, pages))
  {
    hide RunOf, PageAt, EncodeLong, DecodeLong, RowsAt;
    var l, wanted := AuditListing(), (r: AuditRow) => q.Wants(r);
    var w := WalkOf(l, wanted, size, MAX_LONG, tables, pages);
    forall i | 0 <= i < |tables|
      ensures w.sets[0] <= w.sets[i] && forall a, k :: a in w.sets[i] && a !in w.sets[0] && k in w.sets[0] ==> a > k
    {
      GrowingLogs(events, moments, tables, q, i);
    }
  }

  lemma GrowingLogs(events: seq<Event>, moments: seq<nat>, tables: seq<seq<AuditRow>>, q: AuditQuery, i: nat)
    requires LogsOfOneRun(events, moments, tables) && i < |tables|
    ensures
      var l, wanted := AuditListing(), (r: AuditRow) => q.Wants(r);
      var first, later := Matching(tables[0], l.key, wanted), Matching(tables[i], l.key, wanted);
      && first <= later
      && forall a, k :: a in later && a !in first && k in first ==> a > k
  {
    hide RunOf, NewestFirst, Matching;
    var older, newer := RunOf(events[..moments[0]]).audit, RunOf(events[..moments[i]]).audit;
    assert older <= newer by {
      LogOnlyGrows(events[..moments[i]], moments[0]);
      assert events[..moments[i]][..moments[0]] == events[..moments[0]];
    }
    AuditChains(events[..moments[i]], 0);
    AppendedIsNewer(older, newer, q);
  }

  lemma AppendedIsNewer(older: seq<AuditRow>, newer: seq<AuditRow>, q: AuditQuery)
    requires older <= newer && forall i, j :: 0 <= i < j < |newer| ==> newer[i].auditId < newer[j].auditId
    ensures
      var l, wanted := AuditListing(), (r: AuditRow) => q.Wants(r);
      var first, later := Matching(NewestFirst(older), l.key, wanted), Matching(NewestFirst(newer), l.key, wanted);
      && first <= later
      && forall a, k :: a in later && a !in first && k in first ==> a > k
  {
    hide EncodeLong, DecodeLong, AuditQuery.Wants;
    var l, wanted := AuditListing(), (r: AuditRow) => q.Wants(r);
    var first, later := Matching(NewestFirst(older), l.key, wanted), Matching(NewestFirst(newer), l.key, wanted);
    forall k | k in first ensures k in later && exists n :: 0 <= n < |older| && newer[n].auditId == k {
      var s :| s in NewestFirst(older) && wanted(s) && l.key(s) == k;
      NewestFirstHasTheSameRows(older, s);
      NewestFirstHasTheSameRows(newer, s);
      var n :| 0 <= n < |older| && older[n] == s;
      assert newer[n] == s;
    }
    forall a | a in later && a !in first ensures exists m :: |older| <= m < |newer| && newer[m].auditId == a {
      var r :| r in NewestFirst(newer) && wanted(r) && l.key(r) == a;
      NewestFirstHasTheSameRows(older, r);
      NewestFirstHasTheSameRows(newer, r);
      var m :| 0 <= m < |newer| && newer[m] == r;
      assert forall j :: 0 <= j < |older| ==> newer[j] == older[j];
    }
    forall a, k | a in later && a !in first && k in first ensures a > k {
      var m :| |older| <= m < |newer| && newer[m].auditId == a;
      var n :| 0 <= n < |older| && newer[n].auditId == k;
    }
  }

  /** Walking the audit log backwards while it keeps growing: the client receives exactly the matching
      entries of the first call's log, newest first, over max(1, ceil(n / size)) calls, and no walk can be longer. */
  lemma AuditWalkIsSnapshot(
    events: seq<Event>, moments: seq<nat>, tables: seq<seq<AuditRow>>, q: AuditQuery, size: nat, pages: seq<Page<AuditRow>>)
    requires LogsOfOneRun(events, moments, tables)
    requires IsListing(AuditListing(), (r: AuditRow) => q.Wants(r), size, tables, pages)
    ensures
      var l, wanted := AuditListing(), (r: AuditRow) => q.Wants(r);
      var received, first := ReceivedKeys(l, pages), Matching(tables[0], l.key, wanted);
      && (|pages| - 1) * size <= |first|
      && (pages[|pages| - 1].nextToken == "" ==>
            && Ascending((a: int, b: int) => a > b, received)
            && (set k | k in received) == first
            && |pages| == PageCount(|first|, size))
  {
    hide RunOf, EncodeLong, DecodeLong, Settled, Ascending, Faithful, IsListing, LogsOfOneRun, Matching, ReceivedKeys, WalkOf;
    ListingShape(AuditListing(), (r: AuditRow) => q.Wants(r), size, tables, pages);
    AuditTokensAreFaithful(events, moments, tables);
    AuditIsSettled(events, moments, tables, q, size, pages);
    SettledListing(AuditListing(), (r: AuditRow) => q.Wants(r), size, MAX_LONG, tables, pages);
  }

  /** Every entry a client receives is in the log, about the service it asked for, and passes each filter it set:
      the tuple, the config row, and the time. */
  lemma EntriesAreFiltered(
    events: seq<Event>, moments: seq<nat>, tables: seq<seq<AuditRow>>, q: AuditQuery, size: nat, pages: seq<Page<AuditRow>>,
    i: nat, row: AuditRow)
    requires LogsOfOneRun(events, moments, tables)
    requires IsListing(AuditListing(), (r: AuditRow) => q.Wants(r), size, tables, pages)
    requires i < |pages| && row in pages[i].items
    ensures |pages| == |tables| && row in tables[i]
    ensures TupleOf(row).Some? && TupleOf(row).value.service == q.service
    ensures q.configId.Some? ==> row.configId == q.configId.value
    ensures q.key.Some? ==>
              TupleOf(row).value.customer == q.key.value.customer && TupleOf(row).value.rateLimitId == q.key.value.rateLimitId
    ensures q.since.Some? ==> row.changedAt >= q.since.value
  {
    hide RunOf, IsListing, Faithful, EncodeLong, DecodeLong, LogsOfOneRun, TupleOf;
    AuditTokensAreFaithful(events, moments, tables);
    ListingIsTrue(AuditListing(), (r: AuditRow) => q.Wants(r), size, MAX_LONG, tables, pages);
    assert AllFrom((r: AuditRow) => q.Wants(r), tables[i], pages[i].items);
  }

  lemma InMatching<R, K>(rows: seq<R>, key: R -> K, wanted: R -> bool, r: R)
    requires r in rows && wanted(r)
    ensures key(r) in Matching(rows, key, wanted)
  {}

  /** Conversely, an entry of the first call's log that passes every filter is received by the end. */
  lemma FilteredEntryIsListed(
    events: seq<Event>, moments: seq<nat>, tables: seq<seq<AuditRow>>, q: AuditQuery, size: nat, pages: seq<Page<AuditRow>>,
    row: AuditRow)
    requires LogsOfOneRun(events, moments, tables)
    requires IsListing(AuditListing(), (r: AuditRow) => q.Wants(r), size, tables, pages)
    requires pages[|pages| - 1].nextToken == "" && row in tables[0]
    requires TupleOf(row).Some? && TupleOf(row).value.service == q.service
    requires q.configId == None || q.configId == Some(row.configId)
    requires q.key == None
             || (TupleOf(row).value.customer == q.key.value.customer && TupleOf(row).value.rateLimitId == q.key.value.rateLimitId)
    requires q.since == None || row.changedAt >= q.since.value
    ensures row.auditId in ReceivedKeys(AuditListing(), pages)
  {
    hide RunOf, IsListing, Faithful, ReceivedKeys, Ascending, EncodeLong, DecodeLong, LogsOfOneRun, TupleOf, Matching, PageCount;
    ListingShape(AuditListing(), (r: AuditRow) => q.Wants(r), size, tables, pages);
    AuditWalkIsSnapshot(events, moments, tables, q, size, pages);
    InMatching(tables[0], AuditListing().key, (r: AuditRow) => q.Wants(r), row);
  }

  // ---------- services, by name ----------

  datatype ServiceRow = ServiceRow(name: Text, displayName: string, owner: string)

  /** The caller's viewable services, or everything for an administrator. */
  datatype Scope = Scope(allowed: set<Text>, isAdmin: bool)
  {
    predicate Sees(row: ServiceRow) {
      isAdmin || row.name in allowed
    }
  }

  function DecodeName(token: string): Result<Text> {
    match Decode(token)
    case Err(e) => Err(e)
    case Ok(None) => Ok([])
    case Ok(Some(name)) => Ok(name)
  }

  /** `less` is the database's collation of names. */
  function ServiceListing(less: (Text, Text) -> bool): Listing<ServiceRow, Text> {
    Listing((r: ServiceRow) => r.name, less, Encode, DecodeName)
  }

  /** A total collation that puts the empty string before every other. */
  ghost predicate Collation(less: (Text, Text) -> bool) {
    StrictOrder(less) && forall t: Text :: t != [] ==> less([], t)
  }

  method ListServices(less: (Text, Text) -> bool, rows: seq<ServiceRow>, scope: Scope, requested: int, token: string)
    returns (result: Result<Page<ServiceRow>>)
    ensures result == PageAt(ServiceListing(less), rows, (r: ServiceRow) => scope.Sees(r), ClampPageSize(requested), token)
    ensures result.Err? <==> Decode(token).Err?
  {
    result := List(ServiceListing(less), rows, (r: ServiceRow) => scope.Sees(r), ClampPageSize(requested), token);
  }

  lemma ServiceTokensAreFaithful(less: (Text, Text) -> bool, tables: seq<seq<ServiceRow>>)
    requires Collation(less)
    requires forall i, r :: 0 <= i < |tables| && r in tables[i] ==> r.name != []
    ensures Faithful(ServiceListing(less), [], tables)
  {
    hide StrictOrder;
    var l := ServiceListing(less);
    forall i, r | 0 <= i < |tables| && r in tables[i]
      ensures l.less([], l.key(r)) && l.encode(l.key(r)) != "" && l.decode(l.encode(l.key(r))) == Ok(l.key(r))
    {
      TokenRoundTrip(r.name, 0, 0);
      Base64RoundTrip(r.name);
    }
  }

  /** Following service tokens to the end, under any collation: every visible service registered throughout
      is listed exactly once, in order, and every row on a page was registered, and in the caller's scope, when
      that page was fetched. */
  lemma ServiceWalkIsExact(
    less: (Text, Text) -> bool, tables: seq<seq<ServiceRow>>, scope: Scope, size: nat, pages: seq<Page<ServiceRow>>, name: Text)
    requires Collation(less)
    requires forall i, r :: 0 <= i < |tables| && r in tables[i] ==> r.name != []
    requires IsListing(ServiceListing(less), (r: ServiceRow) => scope.Sees(r), size, tables, pages)
    requires pages[|pages| - 1].nextToken == ""
    ensures
      var l, wanted := ServiceListing(less), (r: ServiceRow) => scope.Sees(r);
      && Ascending(less, ReceivedKeys(l, pages)) && PagesAreTrue(wanted, tables, pages)
      && ((forall i :: 0 <= i < |tables| ==> MatchesIn(l, wanted, tables[i], name)) ==> name in ReceivedKeys(l, pages))
      && (name in ReceivedKeys(l, pages) ==> OnAPage(l, pages, name))
  {
    hide IsListing, Faithful, ReceivedKeys, Ascending, MatchesIn, OnAPage, PagesAreTrue, Encode, DecodeName, Collation;
    ServiceTokensAreFaithful(less, tables);
    ListingShape(ServiceListing(less), (r: ServiceRow) => scope.Sees(r), size, tables, pages);
    ListingIsExact(ServiceListing(less), (r: ServiceRow) => scope.Sees(r), size, [], tables, pages, name);
  }

  /** Every service a client receives is in its allow-set, unless it is an administrator; and a service that is, or
      any for an administrator, is received when it stays registered throughout. */
  lemma ServicesAreScoped(
    less: (Text, Text) -> bool, tables: seq<seq<ServiceRow>>, scope: Scope, size: nat, pages: seq<Page<ServiceRow>>, row: ServiceRow)
    requires Collation(less)
    requires forall i, r :: 0 <= i < |tables| && r in tables[i] ==> r.name != []
    requires IsListing(ServiceListing(less), (r: ServiceRow) => scope.Sees(r), size, tables, pages)
    ensures forall i :: 0 <= i < |pages| && row in pages[i].items ==>
              i < |tables| && row in tables[i] && (scope.isAdmin || row.name in scope.allowed)
    ensures pages[|pages| - 1].nextToken == "" && (scope.isAdmin || row.name in scope.allowed)
            && (forall i :: 0 <= i < |tables| ==> row in tables[i]) ==>
              row.name in ReceivedKeys(ServiceListing(less), pages)
  {
    hide IsListing, Faithful, ReceivedKeys, Ascending, OnAPage, Encode, DecodeName, Collation;
    var l, wanted := ServiceListing(less), (r: ServiceRow) => scope.Sees(r);
    ServiceTokensAreFaithful(less, tables);
    ListingShape(l, wanted, size, tables, pages);
    ListingIsTrue(l, wanted, size, [], tables, pages);
    forall i | 0 <= i < |pages| && row in pages[i].items ensures row in tables[i] && wanted(row) {
      assert AllFrom(wanted, tables[i], pages[i].items);
    }
    if pages[|pages| - 1].nextToken == "" && scope.Sees(row) && forall i :: 0 <= i < |tables| ==> row in tables[i] {
      ServiceWalkIsExact(less, tables, scope, size, pages, row.name);
      forall i | 0 <= i < |tables| ensures MatchesIn(l, wanted, tables[i], row.name) {
        assert row in tables[i] && wanted(row) && l.key(row) == row.name;
      }
    }
  }

  /** While no service comes or goes, the client receives exactly the visible ones, in max(1, ceil(n / size))
      calls, and no walk can be longer. */
  lemma StaticServiceWalk(
    less: (Text, Text) -> bool, tables: seq<seq<ServiceRow>>, scope: Scope, size: nat, pages: seq<Page<ServiceRow>>)
    requires Collation(less) && forall i :: 0 <= i < |tables| ==> tables[i] == tables[0]
    requires forall i, r :: 0 <= i < |tables| && r in tables[i] ==> r.name != []
    requires IsListing(ServiceListing(less), (r: ServiceRow) => scope.Sees(r), size, tables, pages)
    ensures
      var all := Matching(tables[0], ServiceListing(less).key, (r: ServiceRow) => scope.Sees(r));
      && (|pages| - 1) * size <= |all|
      && (pages[|pages| - 1].nextToken == "" ==>
            (set k | k in ReceivedKeys(ServiceListing(less), pages)) == all && |pages| == PageCount(|all|, size))
  {
    hide IsListing, Faithful, ReceivedKeys, Ascending, Matching, Encode, DecodeName, Collation;
    ServiceTokensAreFaithful(less, tables);
    StaticListing(ServiceListing(less), (r: ServiceRow) => scope.Sees(r), size, [], tables, pages);
  }
}
