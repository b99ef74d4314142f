/**
  `save_to_database`: each parsed record is written with
  `INSERT ... ON CONFLICT (currency_pair, date) DO UPDATE SET <the record's columns>` inside
  one session, which is committed at the end or rolled back when a statement or the commit
  fails.
*/
module Store {
  import opened Wrappers
  import opened ExchangeRateModel

  /** One upsert: a record whose key is already stored replaces the stored columns and keeps
      the row's id and `created_at`; a new key is inserted with the next id and `created_at`
      set to `now`. */
  function Upsert(t: Table, r: ExchangeRate, now: int): (u: Table)
    ensures u.rows.Keys == t.rows.Keys + {KeyOf(r)}
    ensures u.rows[KeyOf(r)].rate == r
    ensures forall k :: k in t.rows && k != KeyOf(r) ==> u.rows[k] == t.rows[k]
  {
    var k := KeyOf(r);
    if k in t.rows then
      Table(t.rows[k := StoredRate(t.rows[k].id, r, t.rows[k].createdAt)], t.nextId)
    else
      Table(t.rows[k := StoredRate(t.nextId, r, now)], t.nextId + 1)
  }

  /** An upsert keeps the schema's guarantees: the new row gets an id no stored row has. */
  lemma UpsertValid(t: Table, r: ExchangeRate, now: int)
    requires TableValid(t)
    ensures TableValid(Upsert(t, r, now))
  {
    var u := Upsert(t, r, now);
    var k := KeyOf(r);
    forall k1 | k1 in u.rows
      ensures KeyOf(u.rows[k1].rate) == k1 && 0 < u.rows[k1].id < u.nextId
    {
      if k1 != k {
        assert u.rows[k1] == t.rows[k1];
      } else if k in t.rows {
        assert u.rows[k].id == t.rows[k].id < t.nextId;
      }
    }
    forall k1, k2 | k1 in u.rows && k2 in u.rows && k1 != k2
      ensures u.rows[k1].id != u.rows[k2].id
    {
      if k1 != k && k2 != k {
        assert u.rows[k1] == t.rows[k1] && u.rows[k2] == t.rows[k2];
      } else if k !in t.rows {
        assert u.rows[k].id == t.nextId;
      }
    }
  }

  /** The batch's upserts executed in list order. */
  function UpsertAll(t: Table, batch: seq<ExchangeRate>, now: int): Table {
    if batch == [] then t
    else Upsert(UpsertAll(t, batch[..|batch| - 1], now), batch[|batch| - 1], now)
  }

  /** The last record of the batch with key `k`, if any. */
  function LastFor(batch: seq<ExchangeRate>, k: Key): (r: Option<ExchangeRate>)
    ensures r.Some? ==> KeyOf(r.value) == k && r.value in batch
    ensures r.None? <==> forall j :: 0 <= j < |batch| ==> KeyOf(batch[j]) != k
  {
    if batch == [] then None
    else if KeyOf(batch[|batch| - 1]) == k then Some(batch[|batch| - 1])
    else
      var r := LastFor(batch[..|batch| - 1], k);
      assert forall j :: 0 <= j < |batch| - 1 ==> batch[..|batch| - 1][j] == batch[j];
      r
  }

  /** `LastFor` is the record at the last position holding key `k`. */
  lemma {:induction false} LastForIsLastIndex(batch: seq<ExchangeRate>, j: int)
    requires 0 <= j < |batch|
    requires forall i :: j < i < |batch| ==> KeyOf(batch[i]) != KeyOf(batch[j])
    ensures LastFor(batch, KeyOf(batch[j])) == Some(batch[j])
  {
    if j < |batch| - 1 {
      LastForIsLastIndex(batch[..|batch| - 1], j);
    }
  }

  /** Row by row, what a batch of upserts leaves in the table: keys the batch does not mention
      keep their row; a key it mentions holds its last record, under the old id and
      `created_at` when the key was stored before, or with `created_at = now` when it is new. */
  lemma {:induction false} UpsertAllRow(t: Table, batch: seq<ExchangeRate>, now: int, k: Key)
    ensures var u := UpsertAll(t, batch, now);
      && (k in u.rows <==> k in t.rows || LastFor(batch, k).Some?)
      && (LastFor(batch, k).None? && k in t.rows ==> u.rows[k] == t.rows[k])
      && (LastFor(batch, k).Some? ==> u.rows[k].rate == LastFor(batch, k).value)
      && (LastFor(batch, k).Some? && k in t.rows ==> u.rows[k].id == t.rows[k].id && u.rows[k].createdAt == t.rows[k].createdAt)
      && (LastFor(batch, k).Some? && k !in t.rows ==> u.rows[k].createdAt == now && u.rows[k].id >= t.nextId)
  {
    if batch != [] {
      var init := batch[..|batch| - 1];
      UpsertAllRow(t, init, now, k);
      UpsertAllNextId(t, init, now);
    }
  }

  /** Ids are only ever handed out upwards, and none is handed out when every key of the
      batch is already stored. */
  lemma {:induction false} UpsertAllNextId(t: Table, batch: seq<ExchangeRate>, now: int)
    ensures UpsertAll(t, batch, now).nextId >= t.nextId
    ensures (forall j :: 0 <= j < |batch| ==> KeyOf(batch[j]) in t.rows) ==> UpsertAll(t, batch, now).nextId == t.nextId
    ensures UpsertAll(t, batch, now).rows.Keys >= t.rows.Keys
  {
    if batch != [] {
      var init := batch[..|batch| - 1];
      UpsertAllNextId(t, init, now);
      assert forall j :: 0 <= j < |init| ==> init[j] == batch[j];
    }
  }

  /** The table's schema guarantees survive a batch of upserts. */
  lemma {:induction false} UpsertAllValid(t: Table, batch: seq<ExchangeRate>, now: int)
    requires TableValid(t)
    ensures TableValid(UpsertAll(t, batch, now))
  {
    if batch != [] {
      UpsertAllValid(t, batch[..|batch| - 1], now);
      UpsertValid(UpsertAll(t, batch[..|batch| - 1], now), batch[|batch| - 1], now);
    }
  }

  /** The last record for a key wins. */
  lemma LastWriteWins(t: Table, batch: seq<ExchangeRate>, now: int, j: int)
    requires 0 <= j < |batch|
    requires forall i :: j < i < |batch| ==> KeyOf(batch[i]) != KeyOf(batch[j])
    ensures KeyOf(batch[j]) in UpsertAll(t, batch, now).rows
    ensures UpsertAll(t, batch, now).rows[KeyOf(batch[j])].rate == batch[j]
  {
    LastForIsLastIndex(batch, j);
    UpsertAllRow(t, batch, now, KeyOf(batch[j]));
  }

  /** Keys the batch does not mention are untouched. */
  lemma KeysOutsideUntouched(t: Table, batch: seq<ExchangeRate>, now: int, k: Key)
    requires forall j :: 0 <= j < |batch| ==> KeyOf(batch[j]) != k
    ensures k in UpsertAll(t, batch, now).rows <==> k in t.rows
    ensures k in t.rows ==> UpsertAll(t, batch, now).rows[k] == t.rows[k]
  {
    UpsertAllRow(t, batch, now, k);
  }

  /** Running the batch's upserts on two halves of it, one after the other, is running them
      on the whole. */
  lemma {:induction false} UpsertAllConcat(t: Table, a: seq<ExchangeRate>, b: seq<ExchangeRate>, now: int)
    ensures UpsertAll(t, a + b, now) == UpsertAll(UpsertAll(t, a, now), b, now)
    decreases |b|
  {
    if b == [] {
      assert a + b == a;
    } else {
      var b' := b[..|b| - 1];
      assert (a + b)[..|a + b| - 1] == a + b';
      assert (a + b)[|a + b| - 1] == b[|b| - 1];
      UpsertAllConcat(t, a, b', now);
    }
  }

  /** Saving the same batch twice leaves the table as saving it once, whatever the second
      save's clock says: no key is new the second time, so ids and `created_at` stay and
      every key again receives its last record. */
  lemma SaveTwiceIsSaveOnce(t: Table, batch: seq<ExchangeRate>, now: int, later: int)
    ensures UpsertAll(UpsertAll(t, batch, now), batch, later) == UpsertAll(t, batch, now)
  {
    var once := UpsertAll(t, batch, now);
    var twice := UpsertAll(once, batch, later);
    forall j | 0 <= j < |batch| ensures KeyOf(batch[j]) in once.rows {
      UpsertAllRow(t, batch, now, KeyOf(batch[j]));
    }
    UpsertAllNextId(once, batch, later);
    forall k | k in once.rows || k in twice.rows
      ensures k in once.rows && k in twice.rows && twice.rows[k] == once.rows[k]
    {
      UpsertAllRow(t, batch, now, k);
      UpsertAllRow(once, batch, later, k);
    }
    assert twice.rows == once.rows;
  }

  // ---------------------------------------------------------------------------
  // The session

  /** A failure inside the session: the `at`-th statement raises, or the commit does when
      `at` is the batch length; `cause` is the error's text. */
  datatype StoreFault = StoreFault(at: nat, cause: string)

  /** `None`, or the exception `save_to_database` re-raises after rolling back. */
  datatype SaveOutcome = Saved | StoreError(cause: string)

  /** Whether `fault` strikes a save of `batch`. */
  predicate Strikes(fault: Option<StoreFault>, batch: seq<ExchangeRate>) {
    fault.Some? && fault.value.at <= |batch|
  }

  /** `save_to_database` as a function of the table before the call: an empty batch returns
      at once; otherwise either every upsert is committed or, on an error, nothing is. */
  function Save(t: Table, batch: seq<ExchangeRate>, now: int, fault: Option<StoreFault>): (r: (SaveOutcome, Table))
    ensures r.0.StoreError? <==> batch != [] && Strikes(fault, batch)
    ensures r.0.StoreError? ==> r.1 == t && r.0.cause == fault.value.cause
    ensures r.0.Saved? ==> r.1 == UpsertAll(t, batch, now)
  {
    if batch == [] then (Saved, t)
    else if Strikes(fault, batch) then (StoreError(fault.value.cause), t)
    else (Saved, UpsertAll(t, batch, now))
  }

  /** The database file: the `exchange_rates` table. */
  class Database {
    var table: Table

    ghost predicate Valid()
      reads this
    {
      TableValid(table)
    }

    /** `Base.metadata.create_all`: a new, empty table. */
    constructor ()
      ensures Valid() && table == EmptyTable
    {
      table := EmptyTable;
    }

    /** `save_to_database(exchange_rates)`. The session works on its own copy of the table;
        the commit publishes it and a rollback drops it. */
    method SaveToDatabase(exchangeRates: seq<ExchangeRate>, now: int, fault: Option<StoreFault>) returns (outcome: SaveOutcome)
      requires Valid()
      modifies this
      ensures Valid()
      ensures (outcome, table) == Save(old(table), exchangeRates, now, fault)
      ensures exchangeRates == [] ==> table == old(table)
    {
      if exchangeRates == [] {
        return Saved;
      }
      var session := table;
      for i := 0 to |exchangeRates|
        invariant session == UpsertAll(table, exchangeRates[..i], now)
        invariant fault.Some? ==> fault.value.at >= i
      {
        if fault.Some? && fault.value.at == i {
          // the statement raises: roll back and re-raise
          return StoreError(fault.value.cause);
        }
        assert exchangeRates[..i + 1][..i] == exchangeRates[..i];
        session := Upsert(session, exchangeRates[i], now);
      }
      assert exchangeRates[..|exchangeRates|] == exchangeRates;
      if fault.Some? && fault.value.at == |exchangeRates| {
        // the commit raises: roll back and re-raise
        return StoreError(fault.value.cause);
      }
      UpsertAllValid(table, exchangeRates, now);
      table := session;
      outcome := Saved;
    }
  }
}
