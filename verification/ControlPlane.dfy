/** The audited control plane: transactions over `limit_config`, and the audit log its trigger writes.

    Transactions are serial. Identity sequences only ever grow, and may skip values that a
    rolled-back or conflicting statement drew, so the gaps are inputs. */
module ControlPlane {
  import opened Prelude
  import opened Windows
  import opened CounterKey
  import opened LimitTable

  datatype Operation = Insert | Update | Delete

  datatype AuditRow = AuditRow(
    auditId: int,
    configId: int,
    operation: Operation,
    oldRow: Option<LimitRow>,
    newRow: Option<LimitRow>,
    changedBy: string,
    changedAt: Instant)

  datatype Db = Db(services: set<string>, table: Table, nextId: int, audit: seq<AuditRow>, nextAuditId: int)

  datatype Write =
    | CreateLimit(key: LimitKey, limitValue: int, timeUnit: TimeUnit)
    | UpdateLimit(key: LimitKey, limitValue: int, timeUnit: TimeUnit, createIfAbsent: bool)
    | DeleteLimit(key: LimitKey, allowMissing: bool)

  /** One transaction: who, what, when, and how many sequence values were skipped before it drew its own. */
  datatype Tx = Tx(actor: string, write: Write, at: Instant, skip: nat, auditSkip: nat)

  datatype Outcome = Row(row: LimitRow) | Removed(any: bool)

  // ---------- what a transaction does ----------

  datatype Change =
    | NoChange
    | Inserted(after: LimitRow)
    | Changed(before: LimitRow, after: LimitRow)
    | Dropped(before: LimitRow)

  /** The row change of a write, or the first constraint it breaks. CHECK is tested before uniqueness,
      uniqueness before the foreign key, and the audit trigger, which demands an actor, comes last. */
  ghost function ChangeOf(db: Db, tx: Tx): Result<Change> {
    match tx.write
    case CreateLimit(key, value, unit) =>
      if value < 0 then Err(InvalidArgument)
      else if Has(db.table, key) then Err(AlreadyExists)
      else if key.service !in db.services then Err(FailedPrecondition)
      else if tx.actor == "" then Err(Internal)
      else Ok(Inserted(LimitRow(db.nextId + tx.skip, key, value, unit)))
    case UpdateLimit(key, value, unit, createIfAbsent) =>
      if createIfAbsent && value < 0 then Err(InvalidArgument)
      else if Has(db.table, key) then
        var row := Find(db.table, key).value;
        if value < 0 then Err(InvalidArgument)
        else if tx.actor == "" then Err(Internal)
        else Ok(Changed(row, row.(limitValue := value, timeUnit := unit)))
      else if !createIfAbsent then Err(NotFound)
      else if key.service !in db.services then Err(FailedPrecondition)
      else if tx.actor == "" then Err(Internal)
      else Ok(Inserted(LimitRow(db.nextId + tx.skip, key, value, unit)))
    case DeleteLimit(key, allowMissing) =>
      if !Has(db.table, key) then (if allowMissing then Ok(NoChange) else Err(NotFound))
      else if tx.actor == "" then Err(Internal)
      else Ok(Dropped(Find(db.table, key).value))
  }

  function AuditOf(change: Change, auditId: int, tx: Tx): AuditRow
    requires !change.NoChange?
  {
    match change
    case Inserted(row) => AuditRow(auditId, row.id, Insert, None, Some(row), tx.actor, tx.at)
    case Changed(before, after) => AuditRow(auditId, after.id, Update, Some(before), Some(after), tx.actor, tx.at)
    case Dropped(before) => AuditRow(auditId, before.id, Delete, Some(before), None, tx.actor, tx.at)
  }

  function ApplyChange(table: Table, change: Change): Table {
    match change
    case NoChange => table
    case Inserted(row) => table[row.id := row]
    case Changed(_, after) => table[after.id := after]
    case Dropped(before) => table - {before.id}
  }

  /** A failed or ineffective transaction moves no row and writes no audit row; sequences may still move. */
  ghost function Commit(db: Db, tx: Tx): (Db, Result<Outcome>) {
    var burnt := db.(nextId := db.nextId + tx.skip, nextAuditId := db.nextAuditId + tx.auditSkip);
    match ChangeOf(db, tx)
    case Err(e) => (burnt, Err(e))
    case Ok(NoChange) => (burnt, Ok(Removed(false)))
    case Ok(change) =>
      (burnt.(table := ApplyChange(db.table, change),
              nextId := burnt.nextId + (if change.Inserted? then 1 else 0),
              audit := db.audit + [AuditOf(change, burnt.nextAuditId, tx)],
              nextAuditId := burnt.nextAuditId + 1),
       Ok(if change.Dropped? then Removed(true) else Row(change.after)))
  }

  // ---------- the repository, statement by statement ----------

  class LimitRepository {
    var services: set<string>
    var table: Table
    var nextId: int
    var audit: seq<AuditRow>
    var nextAuditId: int
    var appActor: string  // the transaction-local setting the trigger reads
    var now: Instant      // the transaction's timestamp

    constructor ()
      ensures Value() == Db({}, map[], 1, [], 1) && Keyed(table)
    {
      services, table, nextId, audit, nextAuditId := {}, map[], 1, [], 1;
      appActor, now := "", 0;
    }

    function Value(): Db
      reads this
    {
      Db(services, table, nextId, audit, nextAuditId)
    }

    /** The trigger: one audit row per changed row, or an exception when no actor is set. */
    method AuditWrite(operation: Operation, configId: int, oldRow: Option<LimitRow>, newRow: Option<LimitRow>)
      returns (ok: bool)
      modifies this`audit, this`nextAuditId
      ensures ok <==> appActor != ""
      ensures !ok ==> audit == old(audit) && nextAuditId == old(nextAuditId)
      ensures ok ==>
                && audit == old(audit) + [AuditRow(old(nextAuditId), configId, operation, oldRow, newRow, appActor, now)]
                && nextAuditId == old(nextAuditId) + 1
    {
      if appActor == "" { return false; }
      audit := audit + [AuditRow(nextAuditId, configId, operation, oldRow, newRow, appActor, now)];
      nextAuditId := nextAuditId + 1;
      return true;
    }

    /** `INSERT ... RETURNING`, up to the first violated constraint. */
    method InsertRow(key: LimitKey, limitValue: int, timeUnit: TimeUnit) returns (result: Result<Outcome>)
      modifies this`table, this`nextId, this`audit, this`nextAuditId
      ensures nextId >= old(nextId) && nextAuditId >= old(nextAuditId)
      ensures
        if limitValue < 0 then result == Err(InvalidArgument)
        else if Has(old(table), key) then result == Err(AlreadyExists)
        else if key.service !in services then result == Err(FailedPrecondition)
        else if appActor == "" then result == Err(Internal)
        else
          var row := LimitRow(old(nextId), key, limitValue, timeUnit);
          && result == Ok(Row(row)) && table == old(table)[row.id := row] && nextId == old(nextId) + 1
          && audit == old(audit) + [AuditRow(old(nextAuditId), row.id, Insert, None, Some(row), appActor, now)]
          && nextAuditId == old(nextAuditId) + 1
    {
      if limitValue < 0 { return Err(InvalidArgument); }
      if Has(table, key) { return Err(AlreadyExists); }
      var row := LimitRow(nextId, key, limitValue, timeUnit);
      nextId := nextId + 1;
      table := table[row.id := row];
      if key.service !in services { return Err(FailedPrecondition); }
      var ok := AuditWrite(Insert, row.id, None, Some(row));
      if !ok { return Err(Internal); }
      return Ok(Row(row));
    }

    /** `UPDATE ... RETURNING` of the one row the tuple names. */
    method UpdateRow(key: LimitKey, limitValue: int, timeUnit: TimeUnit) returns (result: Result<Outcome>)
      requires Keyed(table)
      modifies this`table, this`audit, this`nextAuditId
      ensures nextAuditId >= old(nextAuditId)
      ensures
        if !Has(old(table), key) then result == Err(NotFound)
        else if limitValue < 0 then result == Err(InvalidArgument)
        else if appActor == "" then result == Err(Internal)
        else
          var before := Find(old(table), key).value;
          var after := before.(limitValue := limitValue, timeUnit := timeUnit);
          && result == Ok(Row(after)) && table == old(table)[after.id := after]
          && audit == old(audit) + [AuditRow(old(nextAuditId), after.id, Update, Some(before), Some(after), appActor, now)]
          && nextAuditId == old(nextAuditId) + 1
    {
      if !Has(table, key) { return Err(NotFound); }
      if limitValue < 0 { return Err(InvalidArgument); }
      var id :| id in table && table[id].key == key;
      var before := table[id];
      FindById(table, id);
      var after := before.(limitValue := limitValue, timeUnit := timeUnit);
      table := table[id := after];
      var ok := AuditWrite(Update, after.id, Some(before), Some(after));
      if !ok { return Err(Internal); }
      return Ok(Row(after));
    }

    /** `DELETE` of the row the tuple names. */
    method DeleteRow(key: LimitKey, allowMissing: bool) returns (result: Result<Outcome>)
      requires Keyed(table)
      modifies this`table, this`audit, this`nextAuditId
      ensures nextAuditId >= old(nextAuditId)
      ensures
        if !Has(old(table), key) then
          && result == (if allowMissing then Ok(Removed(false)) else Err(NotFound))
          && table == old(table) && audit == old(audit) && nextAuditId == old(nextAuditId)
        else if appActor == "" then result == Err(Internal)
        else
          var before := Find(old(table), key).value;
          && result == Ok(Removed(true)) && table == old(table) - {before.id}
          && audit == old(audit) + [AuditRow(old(nextAuditId), before.id, Delete, Some(before), None, appActor, now)]
          && nextAuditId == old(nextAuditId) + 1
    {
      if !Has(table, key) {
        return if allowMissing then Ok(Removed(false)) else Err(NotFound);
      }
      var id :| id in table && table[id].key == key;
      var before := table[id];
      FindById(table, id);
      table := table - {id};
      var ok := AuditWrite(Delete, id, Some(before), None);
      if !ok { return Err(Internal); }
      return Ok(Removed(true));
    }

    /** The statement of a write. A failed one may leave rows behind, for the transaction to undo. */
    method Apply(write: Write) returns (result: Result<Outcome>)
      requires Keyed(table)
      modifies this`table, this`nextId, this`audit, this`nextAuditId
      ensures
        var (after, outcome) := Commit(old(Value()), Tx(appActor, write, now, 0, 0));
        result == outcome && (result.Ok? ==> Value() == after)
      ensures nextId >= old(nextId) && nextAuditId >= old(nextAuditId)
    {
      match write {
        case CreateLimit(key, value, unit) =>
          result := InsertRow(key, value, unit);
        case UpdateLimit(key, value, unit, createIfAbsent) =>
          if !createIfAbsent {
            result := UpdateRow(key, value, unit);
          } else if value < 0 {
            result := Err(InvalidArgument);
          } else if Has(table, key) {
            result := UpdateRow(key, value, unit);
          } else {
            result := InsertRow(key, value, unit);
          }
        case DeleteLimit(key, allowMissing) =>
          result := DeleteRow(key, allowMissing);
      }
    }

    /** Run a write with the actor set, and undo its rows when it fails. Either way the outcome is that of one
        transaction of the specification, for the sequence values that were skipped. */
    method InAuditedTx(tx: Tx) returns (result: Result<Outcome>)
      requires Keyed(table)
      modifies this
      ensures result == Commit(old(Value()), tx).1
      ensures result.Ok? ==> Value() == Commit(old(Value()), tx).0
      ensures exists skip: nat, auditSkip: nat ::
                (Value(), result) == Commit(old(Value()), tx.(skip := skip, auditSkip := auditSkip))
    {
      hide ChangeOf;
      SkipFirst(Value(), tx);
      nextId, nextAuditId := nextId + tx.skip, nextAuditId + tx.auditSkip;
      var savedTable, savedAudit := table, audit;
      appActor, now := tx.actor, tx.at;
      result := Apply(tx.write);
      if result.Err? {
        table, audit := savedTable, savedAudit;
        FailedCommit(old(Value()), tx, nextId, nextAuditId);
      } else {
        assert tx.(skip := tx.skip, auditSkip := tx.auditSkip) == tx;
      }
      appActor := "";
    }
  }

  /** Skipping sequence values before a transaction is the same as skipping them in it. */
  lemma SkipFirst(db: Db, tx: Tx)
    ensures Commit(db, tx)
            == Commit(db.(nextId := db.nextId + tx.skip, nextAuditId := db.nextAuditId + tx.auditSkip),
                      Tx(tx.actor, tx.write, tx.at, 0, 0))
  {}

  /** A failure is that of a transaction which skipped whatever the sequences have moved by. */
  lemma FailedCommit(db: Db, tx: Tx, nextId: int, nextAuditId: int)
    requires Commit(db, tx).1.Err? && nextId >= db.nextId && nextAuditId >= db.nextAuditId
    ensures exists skip: nat, auditSkip: nat ::
              (db.(nextId := nextId, nextAuditId := nextAuditId), Commit(db, tx).1)
              == Commit(db, tx.(skip := skip, auditSkip := auditSkip))
  {
    var skip: nat, auditSkip: nat := nextId - db.nextId, nextAuditId - db.nextAuditId;
    assert (db.(nextId := nextId, nextAuditId := nextAuditId), Commit(db, tx).1)
           == Commit(db, tx.(skip := skip, auditSkip := auditSkip));
  }

  lemma FindById(table: Table, id: int)
    requires Keyed(table) && id in table
    ensures Find(table, table[id].key) == Some(table[id]) && table[id].id == id
  {
    var row := Find(table, table[id].key).value;
    var j :| j in table && table[j] == row;
  }
}
