/** What the audit log records: it replays to the table, each row's history is one chain,
    and a tuple's history is complete across deletion and re-creation. */
module AuditLog {
  import opened Prelude
  import opened Windows
  import opened CounterKey
  import opened LimitTable
  import opened ControlPlane

  // ---------- runs of the control plane ----------

  datatype Event = Register(service: string) | Transact(tx: Tx)

  /** What the API checks before it opens a transaction. */
  predicate ValidWrite(w: Write) {
    ValidKey(w.key) && (w.DeleteLimit? || (w.limitValue >= 0 && w.timeUnit != Unspecified))
  }

  ghost function Serve(db: Db, event: Event): (Db, Result<Outcome>) {
    match event
    case Register(service) =>
      if !ValidServiceName(service) then (db, Err(InvalidArgument))
      else if service in db.services then (db, Err(AlreadyExists))
      else (db.(services := db.services + {service}), Ok(Removed(false)))
    case Transact(tx) =>
      if !ValidWrite(tx.write) then (db, Err(InvalidArgument)) else Commit(db, tx)
  }

  ghost function RunOf(events: seq<Event>): Db {
    if events == [] then Db({}, map[], 1, [], 1)
    else Serve(RunOf(events[..|events| - 1]), events[|events| - 1]).0
  }

  // ---------- replay ----------

  function ReplayRow(table: Table, row: AuditRow): Table {
    if row.newRow.Some? then table[row.configId := row.newRow.value] else table - {row.configId}
  }

  /** Fold the log over the empty table. */
  function Replay(log: seq<AuditRow>): Table {
    if log == [] then map[] else ReplayRow(Replay(log[..|log| - 1]), log[|log| - 1])
  }

  /** The audit rows of one config row, in order. */
  function History(log: seq<AuditRow>, id: int): seq<AuditRow> {
    if log == [] then []
    else
      var last := log[|log| - 1];
      History(log[..|log| - 1], id) + (if last.configId == id then [last] else [])
  }

  function Lookup(table: Table, id: int): Option<LimitRow> {
    if id in table then Some(table[id]) else None
  }

  /** A row's state is the last entry of its own history. */
  lemma {:induction false} ReplayIsLastOfHistory(log: seq<AuditRow>, id: int)
    ensures
      var h := History(log, id);
      Lookup(Replay(log), id) == if h == [] then None else h[|h| - 1].newRow
  {
    if log != [] { ReplayIsLastOfHistory(log[..|log| - 1], id); }
  }

  /** Only the order within each config id matters to what a log rebuilds. */
  lemma ReplayDependsOnHistories(a: seq<AuditRow>, b: seq<AuditRow>)
    requires forall id :: History(a, id) == History(b, id)
    ensures Replay(a) == Replay(b)
  {
    hide Replay, History;
    forall id ensures Lookup(Replay(a), id) == Lookup(Replay(b), id) {
      ReplayIsLastOfHistory(a, id);
      ReplayIsLastOfHistory(b, id);
    }
    SameLookups(Replay(a), Replay(b));
  }

  lemma SameLookups(a: Table, b: Table)
    requires forall id :: Lookup(a, id) == Lookup(b, id)
    ensures a == b
  {
    forall id ensures id in a <==> id in b {
      assert Lookup(a, id) == Lookup(b, id);
    }
    forall id | id in a ensures a[id] == b[id] {
      assert Lookup(a, id) == Lookup(b, id);
    }
  }

  // ---------- chains ----------

  /** The tuple an audit row is about: read from the new snapshot, or the old one of a deletion. */
  function TupleOf(row: AuditRow): Option<LimitKey> {
    if row.newRow.Some? then Some(row.newRow.value.key)
    else if row.oldRow.Some? then Some(row.oldRow.value.key)
    else None
  }

  /** One insert, then updates, then at most one delete; each old snapshot is the previous new one, and
      neither the id nor the tuple ever changes. */
  predicate IsChain(h: seq<AuditRow>, id: int) {
    forall i :: 0 <= i < |h| ==> IsLink(h, i, id)
  }

  predicate IsLink(h: seq<AuditRow>, i: nat, id: int)
    requires i < |h|
  {
    && (h[i].operation == Insert <==> i == 0)
    && (i == 0 ==> h[i].oldRow == None)
    && (i > 0 ==> h[i].oldRow.Some? && h[i].oldRow == h[i - 1].newRow)
    && (h[i].newRow == None <==> h[i].operation == Delete)
    && (h[i].newRow.Some? ==> h[i].newRow.value.id == id)
    && TupleOf(h[i]).Some? && TupleOf(h[i]) == TupleOf(h[0])
  }

  /** A deletion can only be the last entry of a chain. */
  lemma DeleteEndsTheChain(h: seq<AuditRow>, id: int)
    requires IsChain(h, id)
    ensures forall i :: 0 <= i < |h| - 1 ==> h[i].operation != Delete
  {
    forall i | 0 <= i < |h| - 1 ensures h[i].operation != Delete {
      assert IsLink(h, i, id) && IsLink(h, i + 1, id);
    }
  }

  /** The row a tuple has now, read off the last audit row about that tuple. */
  function CurrentOf(log: seq<AuditRow>, key: LimitKey): Option<LimitRow> {
    if log == [] then None
    else if TupleOf(log[|log| - 1]) == Some(key) then log[|log| - 1].newRow
    else CurrentOf(log[..|log| - 1], key)
  }

  // ---------- the invariant ----------

  ghost predicate GoodLog(db: Db) {
    && db.nextId >= 1 && db.nextAuditId >= 1
    && (forall i :: 0 <= i < |db.audit| ==>
          && 1 <= db.audit[i].configId < db.nextId && 1 <= db.audit[i].auditId < db.nextAuditId
          && db.audit[i].changedBy != "")
    && (forall id :: id in db.table ==> 1 <= id < db.nextId)
    && (forall i, j :: 0 <= i < j < |db.audit| ==> db.audit[i].auditId < db.audit[j].auditId)
  }

  ghost predicate Inv(db: Db) {
    && Keyed(db.table) && ValidRows(db.table)
    && GoodLog(db)
    && Replay(db.audit) == db.table
    && (forall id :: IsChain(History(db.audit, id), id))
    && (forall key :: CurrentOf(db.audit, key) == Find(db.table, key))
  }

  lemma AppendHistory(log: seq<AuditRow>, row: AuditRow, id: int)
    ensures History(log + [row], id) == History(log, id) + (if row.configId == id then [row] else [])
    ensures Replay(log + [row]) == ReplayRow(Replay(log), row)
  {
    assert (log + [row])[..|log|] == log;
  }

  lemma {:induction false} EmptyHistory(log: seq<AuditRow>, id: int)
    requires forall i :: 0 <= i < |log| ==> log[i].configId != id
    ensures History(log, id) == []
  {
    if log != [] { EmptyHistory(log[..|log| - 1], id); }
  }

  lemma ExtendChain(h: seq<AuditRow>, id: int, row: AuditRow)
    requires IsChain(h, id) && h != [] && row.operation != Insert
    requires h[|h| - 1].newRow.Some? && row.oldRow == h[|h| - 1].newRow
    requires row.newRow == None <==> row.operation == Delete
    requires row.newRow.Some? ==> row.newRow.value.id == id && row.newRow.value.key == row.oldRow.value.key
    ensures IsChain(h + [row], id)
  {
    var h' := h + [row];
    assert IsLink(h, |h| - 1, id);
    forall i | 0 <= i < |h'| ensures IsLink(h', i, id) {
      if i < |h| { assert IsLink(h, i, id); }
    }
  }

  lemma FindAfter(table: Table, change: Change, key: LimitKey)
    requires Keyed(table) && Keyed(ApplyChange(table, change))
    requires change.Inserted? ==> change.after.id !in table && !Has(table, change.after.key)
    requires change.Changed? ==> change.after.id == change.before.id && change.after.key == change.before.key
    requires change.Changed? || change.Dropped? ==> change.before.id in table && table[change.before.id] == change.before
    ensures
      var now := Find(ApplyChange(table, change), key);
      match change
      case NoChange => now == Find(table, key)
      case Inserted(row) => now == if key == row.key then Some(row) else Find(table, key)
      case Changed(_, row) => now == if key == row.key then Some(row) else Find(table, key)
      case Dropped(row) => now == if key == row.key then None else Find(table, key)
  {
    var table' := ApplyChange(table, change);
    if change.Inserted? || change.Changed? { FindById(table', change.after.id); }
    if Has(table, key) {
      var id :| id in table && table[id].key == key;
      FindById(table, id);
      if id in table' { FindById(table', id); }
    }
    if Has(table', key) {
      var id :| id in table' && table'[id].key == key;
      FindById(table', id);
      if id in table { FindById(table, id); }
    }
  }

  /** The row change a good database accepts names rows as the table has them. */
  lemma ChangeIsSound(db: Db, tx: Tx)
    requires Inv(db) && ValidWrite(tx.write) && ChangeOf(db, tx).Ok?
    ensures
      var change := ChangeOf(db, tx).value;
      && (change.NoChange? || tx.actor != "")
      && (change.Inserted? ==> change.after.id == db.nextId + tx.skip && change.after.key == tx.write.key
                               && !Has(db.table, change.after.key) && change.after.id !in db.table)
      && (change.Changed? ==> change.after.id == change.before.id && change.after.key == change.before.key)
      && (change.Changed? || change.Dropped? ==>
            && change.before.id in db.table && db.table[change.before.id] == change.before)
      && Keyed(ApplyChange(db.table, change)) && ValidRows(ApplyChange(db.table, change))
  {
    var change := ChangeOf(db, tx).value;
    if change.Changed? || change.Dropped? {
      assert change.before == Find(db.table, tx.write.key).value;
      var id :| id in db.table && db.table[id] == change.before;
    }
    if change.Inserted? {
      assert change.after.id !in db.table by {
        ReplayIsLastOfHistory(db.audit, change.after.id);
        EmptyHistory(db.audit, change.after.id);
      }
    }
  }

  lemma ChainStep(db: Db, change: Change, row: AuditRow, id: int)
    requires Inv(db) && !change.NoChange? && row.configId == id
    requires change.Inserted? ==>
               && id >= db.nextId && row.operation == Insert && row.oldRow == None
               && row.newRow == Some(change.after) && change.after.id == id
    requires change.Changed? ==>
               && row.operation == Update && row.oldRow == Some(change.before) && row.newRow == Some(change.after)
               && change.after.id == change.before.id == id && change.after.key == change.before.key
    requires change.Dropped? ==>
               && row.operation == Delete && row.oldRow == Some(change.before) && row.newRow == None
               && change.before.id == id
    requires change.Changed? || change.Dropped? ==> id in db.table && db.table[id] == change.before
    ensures IsChain(History(db.audit, id) + [row], id)
  {
    var h := History(db.audit, id);
    if change.Inserted? {
      EmptyHistory(db.audit, id);
    } else {
      ReplayIsLastOfHistory(db.audit, id);
      ExtendChain(h, id, row);
    }
  }

  lemma CommitKeepsInv(db: Db, tx: Tx)
    requires Inv(db) && ValidWrite(tx.write)
    ensures Inv(Commit(db, tx).0)
  {
    hide ChangeOf, Replay, History, CurrentOf, IsChain, Keyed, ValidRows;
    var db' := Commit(db, tx).0;
    if ChangeOf(db, tx).Ok? && !ChangeOf(db, tx).value.NoChange? {
      var change := ChangeOf(db, tx).value;
      ChangeIsSound(db, tx);
      var row := AuditOf(change, db.nextAuditId + tx.auditSkip, tx);
      assert db'.audit == db.audit + [row];
      assert GoodLog(db');
      AppendHistory(db.audit, row, row.configId);
      assert Replay(db'.audit) == db'.table;
      forall id ensures IsChain(History(db'.audit, id), id) {
        AppendHistory(db.audit, row, id);
        if id == row.configId { ChainStep(db, change, row, id); }
        else { assert History(db'.audit, id) == History(db.audit, id); }
      }
      forall key ensures CurrentOf(db'.audit, key) == Find(db'.table, key) {
        FindAfter(db.table, change, key);
        AppendCurrent(db.audit, row, key);
      }
    }
  }

  lemma AppendCurrent(log: seq<AuditRow>, row: AuditRow, key: LimitKey)
    ensures CurrentOf(log + [row], key) == if TupleOf(row) == Some(key) then row.newRow else CurrentOf(log, key)
  {
    assert (log + [row])[..|log|] == log;
  }

  /** Every reachable database keeps the invariant. */
  lemma {:induction false} RunKeepsInv(events: seq<Event>)
    ensures Inv(RunOf(events))
  {
    hide Inv, Serve;
    if events == [] {
      EmptyKeepsInv();
    } else {
      var init, last := events[..|events| - 1], events[|events| - 1];
      RunKeepsInv(init);
      ServeKeepsInv(RunOf(init), last);
    }
  }

  lemma EmptyKeepsInv()
    ensures Inv(Db({}, map[], 1, [], 1))
  {}

  lemma ServeKeepsInv(db: Db, event: Event)
    requires Inv(db)
    ensures Inv(Serve(db, event).0)
  {
    hide Commit;
    if event.Transact? && ValidWrite(event.tx.write) { CommitKeepsInv(db, event.tx); }
  }

  // ---------- the promises ----------

  /** In every reachable state, folding the log from empty rebuilds the table exactly. */
  lemma {:induction false} AuditReplay(events: seq<Event>)
    ensures Replay(RunOf(events).audit) == RunOf(events).table
  {
    RunKeepsInv(events);
  }

  /** Each config row's history is one chain, and audit ids grow and name an actor. */
  lemma AuditChains(events: seq<Event>, id: int)
    ensures IsChain(History(RunOf(events).audit, id), id)
    ensures GoodLog(RunOf(events))
  {
    RunKeepsInv(events);
  }

  // ---------- what each write does to the table ----------

  /** Exactly one row was added, under a new id, with this tuple, value and unit. */
  ghost predicate RowAdded(before: Table, after: Table, key: LimitKey, value: int, unit: TimeUnit) {
    exists id :: id !in before && after == before[id := LimitRow(id, key, value, unit)]
  }

  /** Exactly the row of this tuple was changed, to this value and unit. */
  ghost predicate RowChanged(before: Table, after: Table, key: LimitKey, value: int, unit: TimeUnit) {
    exists id :: id in before && before[id].key == key && after == before[id := LimitRow(id, key, value, unit)]
  }

  /** Exactly the row of this tuple is gone. */
  ghost predicate RowRemoved(before: Table, after: Table, key: LimitKey) {
    && (forall id :: id in after <==> id in before && before[id].key != key)
    && (forall id :: id in after ==> after[id] == before[id])
  }

  /** A create succeeds exactly for a valid limit of a registered service whose tuple has no row, by a named actor;
      then it adds that row, and answers with it. Otherwise the code says what was wrong. */
  lemma CreateIsExact(events: seq<Event>, tx: Tx)
    requires tx.write.CreateLimit?
    ensures
      var db, w := RunOf(events), tx.write;
      var (after, result) := Serve(db, Transact(tx));
      var valid := ValidKey(w.key) && w.limitValue >= 0 && w.timeUnit != Unspecified;
      && (result.Ok? <==> valid && w.key.service in db.services && !Has(db.table, w.key) && tx.actor != "")
      && (result.Ok? ==>
            && RowAdded(db.table, after.table, w.key, w.limitValue, w.timeUnit)
            && result.value.Row? && RowOf(after.table, result.value.row) && result.value.row.key == w.key)
      && (result == Err(InvalidArgument) <==> !valid)
      && (result == Err(AlreadyExists) <==> valid && Has(db.table, w.key))
      && (result == Err(FailedPrecondition) <==> valid && !Has(db.table, w.key) && w.key.service !in db.services)
  {
    hide RunOf;
    RunKeepsInv(events);
    var db, w := RunOf(events), tx.write;
    var after := Serve(db, Transact(tx)).0;
    if Serve(db, Transact(tx)).1.Ok? {
      var id := db.nextId + tx.skip;
      assert id !in db.table && after.table == db.table[id := LimitRow(id, w.key, w.limitValue, w.timeUnit)];
      assert after.table[id] == Serve(db, Transact(tx)).1.value.row;
    }
  }

  /** An update succeeds exactly for a valid limit, by a named actor, whose tuple has a row, or may be created in a
      registered service; then it changes the value and unit of that row and nothing else, or adds the row. */
  lemma UpdateIsExact(events: seq<Event>, tx: Tx)
    requires tx.write.UpdateLimit?
    ensures
      var db, w := RunOf(events), tx.write;
      var (after, result) := Serve(db, Transact(tx));
      var valid := ValidKey(w.key) && w.limitValue >= 0 && w.timeUnit != Unspecified;
      && (result.Ok? <==>
            valid && tx.actor != "" && (Has(db.table, w.key) || (w.createIfAbsent && w.key.service in db.services)))
      && (result.Ok? && Has(db.table, w.key) ==> RowChanged(db.table, after.table, w.key, w.limitValue, w.timeUnit))
      && (result.Ok? && !Has(db.table, w.key) ==> RowAdded(db.table, after.table, w.key, w.limitValue, w.timeUnit))
      && (result.Ok? ==> result.value.Row? && RowOf(after.table, result.value.row) && result.value.row.key == w.key)
      && (result == Err(InvalidArgument) <==> !valid)
      && (result == Err(NotFound) <==> valid && !Has(db.table, w.key) && !w.createIfAbsent)
  {
    hide RunOf;
    RunKeepsInv(events);
    var db, w := RunOf(events), tx.write;
    var after := Serve(db, Transact(tx)).0;
    if Serve(db, Transact(tx)).1.Ok? {
      var id := if Has(db.table, w.key) then Find(db.table, w.key).value.id else db.nextId + tx.skip;
      if Has(db.table, w.key) {
        var i :| i in db.table && db.table[i].key == w.key;
        FindById(db.table, i);
        assert i == id;
      } else {
        assert id !in db.table;
      }
      assert after.table == db.table[id := LimitRow(id, w.key, w.limitValue, w.timeUnit)];
      assert after.table[id] == Serve(db, Transact(tx)).1.value.row;
    }
  }

  /** A delete removes the row of the tuple it names and no other; a missing one is an error unless allowed. */
  lemma DeleteIsExact(events: seq<Event>, tx: Tx)
    requires tx.write.DeleteLimit?
    ensures
      var db, w := RunOf(events), tx.write;
      var (after, result) := Serve(db, Transact(tx));
      && (result.Ok? <==> ValidKey(w.key) && (if Has(db.table, w.key) then tx.actor != "" else w.allowMissing))
      && (result.Ok? ==> result == Ok(Removed(Has(db.table, w.key))) && RowRemoved(db.table, after.table, w.key))
      && (result == Err(InvalidArgument) <==> !ValidKey(w.key))
      && (result == Err(NotFound) <==> ValidKey(w.key) && !Has(db.table, w.key) && !w.allowMissing)
  {
    hide RunOf, ValidKey;
    RunKeepsInv(events);
    var db, w := RunOf(events), tx.write;
    if Has(db.table, w.key) {
      var i :| i in db.table && db.table[i].key == w.key;
      FindById(db.table, i);
    }
  }

  /** Registering a service succeeds exactly for a valid name that is not registered yet, and then only adds it. */
  lemma RegisterIsExact(db: Db, service: string)
    ensures
      var (after, result) := Serve(db, Register(service));
      && (result.Ok? <==> ValidServiceName(service) && service !in db.services)
      && (result == Err(AlreadyExists) <==> ValidServiceName(service) && service in db.services)
      && after == db.(services := after.services)
      && forall s :: s in after.services <==> s in db.services || (result.Ok? && s == service)
  {}

  /** The foreign key: every row of every reachable table is of a registered service. */
  lemma {:induction false} RowsAreRegistered(events: seq<Event>)
    ensures forall id :: id in RunOf(events).table ==> RunOf(events).table[id].key.service in RunOf(events).services
  {
    hide Serve, ValidKey;
    if events != [] {
      var init, last := events[..|events| - 1], events[|events| - 1];
      RowsAreRegistered(init);
      RunKeepsInv(init);
      RegisteredStep(RunOf(init), last);
    }
  }

  lemma RegisteredStep(db: Db, event: Event)
    requires Inv(db) && forall id :: id in db.table ==> db.table[id].key.service in db.services
    ensures
      var db' := Serve(db, event).0;
      forall id :: id in db'.table ==> db'.table[id].key.service in db'.services
  {
    hide ValidKey, GoodLog, IsChain, History, Replay;
    if event.Transact? && ValidWrite(event.tx.write) && ChangeOf(db, event.tx).Ok? {
      ChangeIsSound(db, event.tx);
    }
  }

  /** An event either leaves the table and the log alone, or adds exactly one audit row, by its actor;
      a failed event always leaves them alone. */
  lemma OneRowPerMutation(db: Db, event: Event)
    ensures
      var (db', result) := Serve(db, event);
      && (result.Err? ==> db'.table == db.table && db'.audit == db.audit)
      && (db'.audit == db.audit ==> db'.table == db.table)
      && (db'.audit == db.audit
          || (event.Transact? && exists row :: db'.audit == db.audit + [row]
                                              && row.changedBy == event.tx.actor && row.changedAt == event.tx.at))
  {
    if event.Transact? && ValidWrite(event.tx.write) && ChangeOf(db, event.tx).Ok? && !ChangeOf(db, event.tx).value.NoChange? {
      var row := AuditOf(ChangeOf(db, event.tx).value, db.nextAuditId + event.tx.auditSkip, event.tx);
      assert Serve(db, event).0.audit == db.audit + [row];
      assert |Serve(db, event).0.audit| == |db.audit| + 1;
    }
  }

  /** The log is append-only, and every prefix of it was the whole log at some point of the run: the
      first `k` rows rebuild the table as it stood after the `k`-th committed mutation. */
  lemma {:induction false} EveryPrefixWasAState(events: seq<Event>, k: nat)
    requires k <= |RunOf(events).audit|
    ensures exists n :: 0 <= n <= |events| && RunOf(events[..n]).audit == RunOf(events).audit[..k]
                        && RunOf(events[..n]).table == Replay(RunOf(events).audit[..k])
  {
    hide Serve;
    var log := RunOf(events).audit;
    if k == |log| {
      assert events[..|events|] == events && log[..k] == log;
      AuditReplay(events);
    } else {
      assert events != [];
      var init := events[..|events| - 1];
      OneRowPerMutation(RunOf(init), events[|events| - 1]);
      EveryPrefixWasAState(init, k);
      var n :| 0 <= n <= |init| && RunOf(init[..n]).audit == RunOf(init).audit[..k]
               && RunOf(init[..n]).table == Replay(RunOf(init).audit[..k]);
      assert init[..n] == events[..n];
      assert RunOf(init).audit[..k] == log[..k];
    }
  }

  lemma {:induction false} LogOnlyGrows(events: seq<Event>, n: nat)
    requires n <= |events|
    ensures RunOf(events[..n]).audit <= RunOf(events).audit
    decreases |events|
  {
    hide Serve;
    if n == |events| {
      assert events[..n] == events;
    } else {
      var init := events[..|events| - 1];
      LogOnlyGrows(init, n);
      assert init[..n] == events[..n];
      OneRowPerMutation(RunOf(init), events[|events| - 1]);
    }
  }

  /** The last row about a tuple shows what the table holds for it, even after deletion and re-creation;
      a tuple the log never names has no row. */
  lemma LastRowIsCurrent(events: seq<Event>, key: LimitKey)
    ensures CurrentOf(RunOf(events).audit, key) == Find(RunOf(events).table, key)
  {
    RunKeepsInv(events);
  }

  /** Listing a tuple's history misses nothing: rows of one config id all name one tuple. */
  lemma TupleHistoryIsComplete(events: seq<Event>, i: nat, j: nat)
    requires i < |RunOf(events).audit| && j < |RunOf(events).audit|
    requires RunOf(events).audit[i].configId == RunOf(events).audit[j].configId
    ensures TupleOf(RunOf(events).audit[i]) == TupleOf(RunOf(events).audit[j])
  {
    hide RunOf, IsLink;
    var db := RunOf(events);
    RunKeepsInv(events);
    var id := db.audit[i].configId;
    var h := History(db.audit, id);
    assert IsChain(h, id);
    InHistory(db.audit, i);
    InHistory(db.audit, j);
    var m :| 0 <= m < |h| && h[m] == db.audit[i];
    var n :| 0 <= n < |h| && h[n] == db.audit[j];
    ChainNamesOneTuple(h, id, m);
    ChainNamesOneTuple(h, id, n);
  }

  lemma ChainNamesOneTuple(h: seq<AuditRow>, id: int, i: nat)
    requires IsChain(h, id) && i < |h|
    ensures TupleOf(h[i]) == TupleOf(h[0])
  {
    assert IsLink(h, i, id);
  }

  lemma {:induction false} InHistory(log: seq<AuditRow>, i: nat)
    requires i < |log|
    ensures log[i] in History(log, log[i].configId)
  {
    if i < |log| - 1 { InHistory(log[..|log| - 1], i); }
  }

  /** Every reachable table holds validated rows only, so the data plane resolves caps only for valid names. */
  lemma {:induction false} TableIsValid(events: seq<Event>)
    ensures Keyed(RunOf(events).table) && ValidRows(RunOf(events).table)
  {
    RunKeepsInv(events);
  }
}
