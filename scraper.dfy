/**
  The scraper's pipeline: `get_exchange_data` plans the windows, runs
  `_fetch_and_save_chunk` (fetch through the cache, parse, save) for each of them, and joins
  the raw texts that came back.

  The thread pool is not modelled as concurrency: the chunk tasks run one after the other in
  the order `as_completed` hands their futures back, which is a parameter (any permutation of
  the planned windows).
*/
module Scraper {
  import opened Wrappers
  import opened Text
  import opened ExchangeRateModel
  import opened ChunkPlanner
  import opened Fetch
  import opened Parser
  import opened Store

  /** Everything outside the process: what the network answers to each cached call, the
      HTML and float decoders, the store failure (if any) that strikes the save of each
      call's records, and the clock's reading for `created_at`. */
  datatype World = World(
    net: CallKey -> Network,
    dec: Decoders,
    storeFault: CallKey -> Option<StoreFault>,
    now: int)

  /** How a chunk's future ends: with the raw text `_fetch_and_save_chunk` returns, or with
      the store error it lets through. */
  datatype ChunkOutcome = Returned(data: Option<string>) | Failed(cause: string)

  /** `_fetch_and_save_chunk` as a function of the table before it: it parses and saves only
      a non-empty text whose parse yields records, and returns the raw text whatever the
      parse gave, unless the save raises. */
  function ChunkTask(t: Table, key: CallKey, w: World): (r: (ChunkOutcome, Table))
    ensures r.0.Returned? ==> r.0.data == ChunkData(w.net(key))
  {
    var data := ChunkData(w.net(key));
    if data.None? || data.value == [] then (Returned(data), t)
    else
      match ParsedTable(data.value, key.quote, w.dec)
      case None => (Returned(data), t)
      case Some(batch) =>
        var (outcome, t') := Save(t, batch, w.now, w.storeFault(key));
        if outcome.StoreError? then (Failed(outcome.cause), t') else (Returned(data), t')
  }

  /** The records a chunk task saves, when its save succeeds: none for an empty or missing
      text or an empty parse. */
  function SavedBatch(key: CallKey, w: World): seq<ExchangeRate> {
    var data := ChunkData(w.net(key));
    if data.None? || data.value == [] then []
    else
      match ParsedTable(data.value, key.quote, w.dec)
      case None => []
      case Some(batch) => if Strikes(w.storeFault(key), batch) then [] else batch
  }

  /** A chunk task fails exactly when it has records to save and the save is struck; the
      table then is as before, and otherwise it has the chunk task's records upserted. */
  lemma ChunkTaskEffect(t: Table, key: CallKey, w: World)
    ensures var (outcome, t') := ChunkTask(t, key, w);
      var data := ChunkData(w.net(key));
      && (outcome.Failed? <==>
            data.Some? && data.value != [] && ParsedTable(data.value, key.quote, w.dec).Some?
            && Strikes(w.storeFault(key), ParsedTable(data.value, key.quote, w.dec).value))
      && (outcome.Failed? ==> t' == t)
      && (outcome.Returned? ==> t' == UpsertAll(t, SavedBatch(key, w), w.now))
  {
  }

  /** What the chunk task of one window contributes to `all_data`. */
  function PartOf(id: nat, quote: string, win: Window, w: World): (p: seq<string>)
    ensures |p| <= 1 && forall x :: x in p ==> x != []
  {
    var outcome := ChunkTask(EmptyTable, CallKey(id, quote, win.start, win.end), w).0;
    if outcome.Returned? && outcome.data.Some? && outcome.data.value != [] then [outcome.data.value] else []
  }

  /** A task's outcome does not depend on the table it runs against. */
  lemma ChunkOutcomeIndependent(t1: Table, t2: Table, key: CallKey, w: World)
    ensures ChunkTask(t1, key, w).0 == ChunkTask(t2, key, w).0
  {
  }

  /** The contributions `part(win)` of the windows of `order`, one after the other. */
  function Collected(order: seq<Window>, part: Window -> seq<string>): seq<string> {
    if order == [] then []
    else Collected(order[..|order| - 1], part) + part(order[|order| - 1])
  }

  /** `all_data` after the futures of `order` have completed, in that order. */
  function Parts(id: nat, quote: string, order: seq<Window>, w: World): (parts: seq<string>) {
    Collected(order, win => PartOf(id, quote, win, w))
  }

  /** The table after the chunk tasks of `order` have run, in that order. */
  function TableAfter(t: Table, id: nat, quote: string, order: seq<Window>, w: World): Table {
    if order == [] then t
    else
      var last := order[|order| - 1];
      ChunkTask(TableAfter(t, id, quote, order[..|order| - 1], w), CallKey(id, quote, last.start, last.end), w).1
  }

  /** The shared cache's recency order and entries after the chunk tasks of `order` have run,
      in that order, starting from `c`. */
  function CacheAfter(c: CacheState, id: nat, quote: string, order: seq<Window>, w: World)
    : CacheState
  {
    if order == [] then c
    else
      var last := order[|order| - 1];
      var key := CallKey(id, quote, last.start, last.end);
      var before := CacheAfter(c, id, quote, order[..|order| - 1], w);
      LruStep(before.0, before.1, key, ChunkData(w.net(key)))
  }

  /** The chunk tasks add no cache entry but their own calls', change no value already cached,
      and leave the last call the most recently used. */
  lemma {:induction false} CacheAfterEntries(c: CacheState, id: nat, quote: string, order: seq<Window>, w: World)
    ensures var r := CacheAfter(c, id, quote, order, w);
      forall k :: k in r.1 ==> (k in c.1 && r.1[k] == c.1[k]) || (exists win :: win in order && k == CallKey(id, quote, win.start, win.end))
    ensures var r := CacheAfter(c, id, quote, order, w);
      order != [] ==> r.0 != [] && r.0[|r.0| - 1] == CallKey(id, quote, order[|order| - 1].start, order[|order| - 1].end)
  {
    if order != [] {
      var init := order[..|order| - 1];
      CacheAfterEntries(c, id, quote, init, w);
      forall win | win in init ensures win in order { }
    }
  }

  /** One more completed chunk task: its text is collected, and its table and cache changes
      follow those of the chunk tasks before it. */
  lemma TaskStep(t: Table, c: CacheState, id: nat, quote: string, order: seq<Window>, j: nat, w: World)
    requires j < |order|
    ensures Parts(id, quote, order[..j + 1], w) == Parts(id, quote, order[..j], w) + PartOf(id, quote, order[j], w)
    ensures TableAfter(t, id, quote, order[..j + 1], w)
            == ChunkTask(TableAfter(t, id, quote, order[..j], w), CallKey(id, quote, order[j].start, order[j].end), w).1
    ensures var before := CacheAfter(c, id, quote, order[..j], w);
            var key := CallKey(id, quote, order[j].start, order[j].end);
            CacheAfter(c, id, quote, order[..j + 1], w) == LruStep(before.0, before.1, key, ChunkData(w.net(key)))
  {
    assert order[..j + 1][..j] == order[..j];
  }

  /** The records saved by the chunk tasks of `order`, in the order they were saved. */
  function SavedBatches(id: nat, quote: string, order: seq<Window>, w: World): seq<ExchangeRate> {
    if order == [] then []
    else
      var last := order[|order| - 1];
      SavedBatches(id, quote, order[..|order| - 1], w) + SavedBatch(CallKey(id, quote, last.start, last.end), w)
  }

  /** The chunk tasks' saves together are one batch of upserts: the concatenation of the batches
      that were saved, in completion order. */
  lemma {:induction false} TableAfterIsUpsertAll(t: Table, id: nat, quote: string, order: seq<Window>, w: World)
    ensures TableAfter(t, id, quote, order, w) == UpsertAll(t, SavedBatches(id, quote, order, w), w.now)
  {
    if order != [] {
      var init := order[..|order| - 1];
      var last := order[|order| - 1];
      var key := CallKey(id, quote, last.start, last.end);
      TableAfterIsUpsertAll(t, id, quote, init, w);
      ChunkTaskEffect(TableAfter(t, id, quote, init, w), key, w);
      UpsertAllConcat(t, SavedBatches(id, quote, init, w), SavedBatch(key, w), w.now);
    }
  }

  /** `'\n'.join(parts)`. */
  function JoinLines(parts: seq<string>): (s: string)
    ensures parts != [] ==> |s| >= |parts[0]|
  {
    if parts == [] then []
    else if |parts| == 1 then parts[0]
    else JoinLines(parts[..|parts| - 1]) + "\n" + parts[|parts| - 1]
  }

  /** Joining two non-empty runs of texts puts one line break between them. */
  lemma {:induction false} JoinLinesAppend(a: seq<string>, b: seq<string>)
    requires a != [] && b != []
    ensures JoinLines(a + b) == JoinLines(a) + "\n" + JoinLines(b)
    decreases |b|
  {
    var last := b[|b| - 1];
    var b' := b[..|b| - 1];
    assert (a + b)[..|a + b| - 1] == a + b';
    if b' == [] {
      assert a + b' == a;
    } else {
      JoinLinesAppend(a, b');
      var x, m := JoinLines(a) + "\n", JoinLines(b');
      assert JoinLines(a + b) == x + m + "\n" + last;
      assert JoinLines(b) == m + "\n" + last;
      Regroup(x, m, "\n");
      Regroup(x, m + "\n", last);
    }
  }

  /** The return value of `get_exchange_data`: the joined texts, or `None` when none came back. */
  function Combined(parts: seq<string>): Option<string> {
    if parts == [] then None else Some(JoinLines(parts))
  }

  /** `Collected` of two runs of windows is the two `Collected` one after the other. */
  lemma {:induction false} CollectedAppend(a: seq<Window>, b: seq<Window>, part: Window -> seq<string>)
    ensures Collected(a + b, part) == Collected(a, part) + Collected(b, part)
    decreases |b|
  {
    if b == [] {
      assert a + b == a;
    } else {
      var b' := b[..|b| - 1];
      assert (a + b)[..|a + b| - 1] == a + b';
      assert (a + b)[|a + b| - 1] == b[|b| - 1];
      CollectedAppend(a, b', part);
    }
  }

  /** The contributions of `p + [x] + q` are those of `p`, then that of `x`, then those of `q`. */
  lemma CollectedSplit(p: seq<Window>, q: seq<Window>, x: Window, part: Window -> seq<string>)
    ensures Collected(p + [x] + q, part) == Collected(p, part) + part(x) + Collected(q, part)
  {
    CollectedAppend(p + [x], q, part);
    CollectedAppend(p, [x], part);
    assert [x][..0] == [];
  }

  /** The position in `b` of the last element of `a`, whose removal leaves the same multiset
      as `a` without its last element. */
  lemma RemoveOne(a: seq<Window>, b: seq<Window>) returns (i: int)
    requires a != [] && multiset(a) == multiset(b)
    ensures 0 <= i < |b| && b[i] == a[|a| - 1]
    ensures multiset(a[..|a| - 1]) == multiset(b[..i] + b[i + 1..])
  {
    var x := a[|a| - 1];
    assert a == a[..|a| - 1] + [x];
    assert multiset(a) == multiset(a[..|a| - 1]) + multiset{x};
    assert x in multiset(b);
    i :| 0 <= i < |b| && b[i] == x;
    assert b == b[..i] + [x] + b[i + 1..];
    assert multiset(b) == multiset(b[..i]) + multiset{x} + multiset(b[i + 1..]);
    assert multiset(b[..i] + b[i + 1..]) == multiset(b[..i]) + multiset(b[i + 1..]);
    assert multiset(a[..|a| - 1]) == multiset(a) - multiset{x};
    assert multiset(b[..i]) + multiset(b[i + 1..]) == multiset(b) - multiset{x};
  }

  /** Two orders of the same windows collect the same multiset of contributions. */
  lemma {:induction false} CollectedOrderIndependent(a: seq<Window>, b: seq<Window>, part: Window -> seq<string>)
    requires multiset(a) == multiset(b)
    ensures multiset(Collected(a, part)) == multiset(Collected(b, part))
    decreases |a|
  {
    if a == [] {
      assert b == [];
    } else {
      var x := a[|a| - 1];
      var a' := a[..|a| - 1];
      var i := RemoveOne(a, b);
      var b1, b2 := b[..i], b[i + 1..];
      CollectedOrderIndependent(a', b1 + b2, part);
      assert a' + [x] + [] == a;
      CollectedSplit(a', [], x, part);
      assert b1 + [x] + b2 == b;
      CollectedSplit(b1, b2, x, part);
      CollectedAppend(b1, b2, part);
    }
  }

  /** The texts `get_exchange_data` collects do not depend on the order its futures complete
      in, up to their order: two orders of the same windows collect the same multiset of texts. */
  lemma PartsOrderIndependent(id: nat, quote: string, a: seq<Window>, b: seq<Window>, w: World)
    requires multiset(a) == multiset(b)
    ensures multiset(Parts(id, quote, a, w)) == multiset(Parts(id, quote, b, w))
  {
    CollectedOrderIndependent(a, b, win => PartOf(id, quote, win, w));
  }

  /** Nothing is collected exactly when no window contributes. */
  lemma {:induction false} CollectedEmpty(order: seq<Window>, part: Window -> seq<string>)
    ensures Collected(order, part) == [] <==> forall win :: win in order ==> part(win) == []
  {
    if order != [] {
      var init := order[..|order| - 1];
      CollectedEmpty(init, part);
      assert order == init + [order[|order| - 1]];
    }
  }

  /** `get_exchange_data` returns `None` exactly when no window's task brought back a
      non-empty text. */
  lemma CombinedNone(id: nat, quote: string, order: seq<Window>, w: World)
    ensures Combined(Parts(id, quote, order, w)).None? <==> forall win :: win in order ==> PartOf(id, quote, win, w) == []
  {
    CollectedEmpty(order, win => PartOf(id, quote, win, w));
  }

  // ---------------------------------------------------------------------------
  // The scraper object

  /** `ExchangeRateScraper`: its database, the process-wide cache of `_fetch_chunk`, and an
      identity that the cache's keys carry (the `self` argument). */
  class ExchangeRateScraper {
    const id: nat
    const db: Database
    const cache: FetchCache
    const world: World

    ghost predicate Valid()
      reads this, db, cache
    {
      db.Valid() && cache.Valid() && cache.Coherent(world.net)
    }

    constructor (id: nat, db: Database, cache: FetchCache, world: World)
      requires db.Valid() && cache.Valid() && cache.Coherent(world.net)
      ensures Valid() && this.id == id && this.db == db && this.cache == cache && this.world == world
    {
      this.id := id;
      this.db := db;
      this.cache := cache;
      this.world := world;
    }

    /** `_fetch_and_save_chunk(quote, chunk_from, chunk_to, ...)`. */
    method FetchAndSaveChunk(quote: string, chunkFrom: int, chunkTo: int) returns (outcome: ChunkOutcome)
      requires Valid()
      modifies db, cache
      ensures Valid()
      ensures (outcome, db.table) == ChunkTask(old(db.table), CallKey(id, quote, chunkFrom, chunkTo), world)
      ensures (cache.order, cache.entries)
              == LruStep(old(cache.order), old(cache.entries), CallKey(id, quote, chunkFrom, chunkTo),
                         ChunkData(world.net(CallKey(id, quote, chunkFrom, chunkTo))))
    {
      var key := CallKey(id, quote, chunkFrom, chunkTo);
      var chunkData, sleeps := cache.GetOrFetch(key, world.net);
      if chunkData.None? || chunkData.value == [] {
        return Returned(chunkData);
      }
      var parsed := ParseExchangeData(chunkData.value, quote, world.dec);
      if parsed.None? {
        return Returned(chunkData);
      }
      var saved := db.SaveToDatabase(parsed.value, world.now, world.storeFault(key));
      if saved.StoreError? {
        return Failed(saved.cause);
      }
      return Returned(chunkData);
    }

    /** `get_exchange_data(quote, from_date, to_date)`, with the futures completing in `order`. */
    method GetExchangeData(quote: string, fromDate: int, toDate: int, order: seq<Window>) returns (r: Option<string>)
      requires Valid()
      requires multiset(order) == multiset(Chunks(fromDate, toDate))
      modifies db, cache
      ensures Valid()
      ensures r == Combined(Parts(id, quote, order, world))
      ensures db.table == TableAfter(old(db.table), id, quote, order, world)
      ensures (cache.order, cache.entries) == CacheAfter(old((cache.order, cache.entries)), id, quote, order, world)
    {
      var allData: seq<string> := [];
      for j := 0 to |order|
        invariant Valid()
        invariant allData == Parts(id, quote, order[..j], world)
        invariant db.table == TableAfter(old(db.table), id, quote, order[..j], world)
        invariant (cache.order, cache.entries) == CacheAfter(old((cache.order, cache.entries)), id, quote, order[..j], world)
      {
        var win := order[j];
        TaskStep(old(db.table), old((cache.order, cache.entries)), id, quote, order, j, world);
        var before := db.table;
        var outcome := FetchAndSaveChunk(quote, win.start, win.end);
        ChunkOutcomeIndependent(before, EmptyTable, CallKey(id, quote, win.start, win.end), world);
        if outcome.Returned? && outcome.data.Some? && outcome.data.value != [] {
          allData := allData + [outcome.data.value];
        }
      }
      assert order[..|order|] == order;
      if allData == [] {
        return None;
      }
      return Some(JoinLines(allData));
    }
  }
}
