/**
  The `exchange_rates` table: the `ExchangeRate` record, its `(currency_pair, date)`
  uniqueness constraint and its auto-incremented primary key.
*/
module ExchangeRateModel {

  /** The columns a parsed row supplies, which are also the columns an upsert sets.
      Prices are reals; IEEE details of Python floats are not modelled. */
  datatype ExchangeRate = ExchangeRate(
    currencyPair: string,
    date: string,
    openRate: real,
    highRate: real,
    lowRate: real,
    closeRate: real,
    adjClose: real,
    volume: int)

  /** The columns of the `unique_currency_date` constraint. */
  datatype Key = Key(currencyPair: string, date: string)

  function KeyOf(r: ExchangeRate): Key {
    Key(r.currencyPair, r.date)
  }

  /** A stored row: the primary key, the record's columns and `created_at`
      (an abstract timestamp, set by the column default at insert). */
  datatype StoredRate = StoredRate(id: nat, rate: ExchangeRate, createdAt: int)

  /** The table, indexed by its unique key; `nextId` is the id the next insert receives. */
  datatype Table = Table(rows: map<Key, StoredRate>, nextId: nat)

  /** The schema's guarantees: each row sits under its own `(currency_pair, date)`, and ids are
      positive, below `nextId` and distinct. */
  predicate TableValid(t: Table) {
    && t.nextId >= 1
    && (forall k :: k in t.rows ==> KeyOf(t.rows[k].rate) == k && 0 < t.rows[k].id < t.nextId)
    && (forall k1, k2 :: k1 in t.rows && k2 in t.rows && k1 != k2 ==> t.rows[k1].id != t.rows[k2].id)
  }

  const EmptyTable: Table := Table(map[], 1)

  /** In a valid table two rows with the same `(currency_pair, date)` are the same row. */
  lemma AtMostOneRowPerKey(t: Table, a: StoredRate, b: StoredRate)
    requires TableValid(t)
    requires a in t.rows.Values && b in t.rows.Values
    requires KeyOf(a.rate) == KeyOf(b.rate)
    ensures a == b
  {
    var ka :| ka in t.rows && t.rows[ka] == a;
    var kb :| kb in t.rows && t.rows[kb] == b;
  }
}
