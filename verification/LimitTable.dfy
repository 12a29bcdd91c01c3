/** Rows of `limit_config` and the exact-then-default resolution query. */
module LimitTable {
  import opened Prelude
  import opened Windows
  import opened CounterKey

  datatype LimitRow = LimitRow(id: int, key: LimitKey, limitValue: int, timeUnit: TimeUnit)

  type Table = map<int, LimitRow>

  /** The primary key and `uq_limit`: rows sit under their own id, and no tuple occurs twice. */
  ghost predicate Keyed(table: Table) {
    && (forall id :: id in table ==> table[id].id == id)
    && (forall i, j :: i in table && j in table && table[i].key == table[j].key ==> i == j)
  }

  /** Every row passed the validator when it was written. */
  ghost predicate ValidRows(table: Table) {
    forall id :: id in table ==>
      ValidKey(table[id].key) && table[id].limitValue >= 0 && table[id].timeUnit != Unspecified
  }

  ghost predicate RowOf(table: Table, row: LimitRow) {
    exists id :: id in table && table[id] == row
  }

  predicate Has(table: Table, key: LimitKey) {
    exists id :: id in table && table[id].key == key
  }

  /** The row of a tuple, if there is one. */
  ghost function Find(table: Table, key: LimitKey): (row: Option<LimitRow>)
    ensures row.Some? <==> Has(table, key)
    ensures row.Some? ==> RowOf(table, row.value) && row.value.key == key
  {
    if Has(table, key) then
      var id :| id in table && table[id].key == key;
      Some(table[id])
    else None
  }

  function DefaultOf(key: LimitKey): LimitKey {
    key.(customer := DEFAULT_CUSTOMER)
  }

  /** The exact row of the tuple, else the default row of its service and rate limit, else nothing. */
  ghost function Resolve(table: Table, key: LimitKey): Option<LimitRow> {
    if Has(table, key) then Find(table, key) else Find(table, DefaultOf(key))
  }

  /** Rows the resolution query selects. */
  predicate Selected(row: LimitRow, key: LimitKey) {
    && row.key.service == key.service && row.key.rateLimitId == key.rateLimitId
    && (row.key.customer == key.customer || row.key.customer == DEFAULT_CUSTOMER)
  }

  /** What `ORDER BY (customer_id = '*') LIMIT 1` may return: a selected row that no selected row sorts before. */
  ghost predicate QueryResult(table: Table, key: LimitKey, result: Option<LimitRow>) {
    match result
    case None => forall id :: id in table ==> !Selected(table[id], key)
    case Some(row) =>
      && RowOf(table, row) && Selected(row, key)
      && (row.key.customer == DEFAULT_CUSTOMER ==>
            forall id :: id in table && Selected(table[id], key) ==> table[id].key.customer == DEFAULT_CUSTOMER)
  }

  /** The query has exactly one possible result, and it is exact-then-default resolution. */
  lemma QueryIsResolve(table: Table, key: LimitKey, result: Option<LimitRow>)
    requires Keyed(table)
    ensures QueryResult(table, key, result) <==> result == Resolve(table, key)
  {
    if Has(table, key) {
      var id :| id in table && table[id].key == key;
      assert Selected(table[id], key);
      if QueryResult(table, key, result) {
        assert result.Some?;
        var j :| j in table && table[j] == result.value;
        assert result.value.key == key;
        assert j == id;
      }
      assert Find(table, key) == Some(table[id]);
    } else if Has(table, DefaultOf(key)) {
      var id :| id in table && table[id].key == DefaultOf(key);
      assert Selected(table[id], key);
      if QueryResult(table, key, result) {
        assert result.Some?;
        var j :| j in table && table[j] == result.value;
        assert result.value.key == DefaultOf(key);
        assert j == id;
      }
      assert Find(table, DefaultOf(key)) == Some(table[id]);
    } else {
      forall id | id in table ensures !Selected(table[id], key) {
        assert table[id].key != key && table[id].key != DefaultOf(key);
      }
    }
  }

  /** Resolution is always a possible result of the query, unique tuples or not. */
  lemma ResolveIsAResult(table: Table, key: LimitKey)
    ensures QueryResult(table, key, Resolve(table, key))
  {
    if Has(table, key) {
      assert Selected(Find(table, key).value, key);
    } else if Has(table, DefaultOf(key)) {
      assert Selected(Find(table, DefaultOf(key)).value, key);
      forall id | id in table && Selected(table[id], key) ensures table[id].key.customer == "*" {
        assert table[id].key != key;
      }
    } else {
      forall id | id in table ensures !Selected(table[id], key) {
        assert table[id].key != key && table[id].key != DefaultOf(key);
      }
    }
  }

  /** A row only resolves for a service and rate limit id that passed the validator. */
  lemma ResolvedNamesAreValid(table: Table, key: LimitKey)
    requires ValidRows(table) && Resolve(table, key).Some?
    ensures ValidServiceName(key.service) && ValidRateLimitId(key.rateLimitId)
    ensures Resolve(table, key).value.timeUnit != Unspecified
  {
    var row := Resolve(table, key).value;
    assert row.key == key || row.key == DefaultOf(key);
  }
}
