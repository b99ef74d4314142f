/**
  Fetching one window of history: `_fetch_data_with_retry` (up to three HTTP attempts with
  exponential backoff after exceptions), `_fetch_chunk` (which turns an exception into `None`)
  and the `functools.lru_cache(maxsize=32)` in front of `_fetch_chunk`.

  The network is a parameter: `net(i)` is what attempt `i` of the request would produce.
  `time.sleep` is not performed; the delays asked for are returned instead.
*/
module Fetch {
  import opened Wrappers

  /** What one `requests.get` attempt produces: a response, or an exception. */
  datatype Attempt = Response(status: int, body: string) | Raised(error: string)

  /** The outcome of attempt `i`, for every `i`. */
  type Network = nat -> Attempt

  /** The `max_retries` default of `_fetch_data_with_retry`. */
  const MaxRetries: nat := 3

  /** How `_fetch_data_with_retry` ends: the text of a 200 response, `None`, or re-raising. */
  datatype RetryResult = Text(body: string) | NoText | Reraised(error: string)

  /** A run of the retry loop: its result, the `time.sleep` delays in order, and the attempts made. */
  datatype RetryRun = RetryRun(result: RetryResult, sleeps: seq<nat>, attempts: nat)

  function Pow2(n: nat): (r: nat)
    ensures r >= 1
  {
    if n == 0 then 1 else 2 * Pow2(n - 1)
  }

  predicate IsSuccess(a: Attempt) {
    a.Response? && a.status == 200
  }

  /** The retry loop from attempt `attempt` on, as a recursive definition. */
  function RetryFrom(net: Network, attempt: nat, maxRetries: int): RetryRun
    decreases maxRetries - attempt
  {
    if attempt >= maxRetries then RetryRun(NoText, [], 0)
    else
      match net(attempt)
      case Response(status, body) =>
        if status == 200 then RetryRun(Text(body), [], 1)
        else
          var rest := RetryFrom(net, attempt + 1, maxRetries);
          RetryRun(rest.result, rest.sleeps, rest.attempts + 1)
      case Raised(error) =>
        if attempt == maxRetries - 1 then RetryRun(Reraised(error), [], 1)
        else
          var rest := RetryFrom(net, attempt + 1, maxRetries);
          RetryRun(rest.result, [Pow2(attempt)] + rest.sleeps, rest.attempts + 1)
  }

  /** `_fetch_data_with_retry(quote, from_date, to_date, max_retries)`. */
  method FetchDataWithRetry(net: Network, maxRetries: int) returns (result: RetryResult, sleeps: seq<nat>, attempts: nat)
    ensures RetryRun(result, sleeps, attempts) == RetryFrom(net, 0, maxRetries)
  {
    sleeps := [];
    var attempt: nat := 0;
    while attempt < maxRetries
      invariant attempt <= maxRetries || attempt == 0
      invariant var rest := RetryFrom(net, attempt, maxRetries);
        RetryFrom(net, 0, maxRetries) == RetryRun(rest.result, sleeps + rest.sleeps, attempt + rest.attempts)
      decreases maxRetries - attempt
    {
      match net(attempt) {
        case Response(status, body) =>
          if status == 200 {
            result, attempts := Text(body), attempt + 1;
            return;
          }
        case Raised(error) =>
          if attempt == maxRetries - 1 {
            result, attempts := Reraised(error), attempt + 1;
            return;
          }
          sleeps := sleeps + [Pow2(attempt)];
      }
      attempt := attempt + 1;
    }
    result, attempts := NoText, attempt;
  }

  // ---------------------------------------------------------------------------
  // What the retry loop does, stated without following its control flow

  /** No attempt in `[lo, hi)` is a 200 response. */
  predicate NoSuccessIn(net: Network, lo: nat, hi: nat) {
    forall j: nat :: lo <= j < hi ==> !IsSuccess(net(j))
  }

  /** The delay `2^j` for every attempt `j` in `[lo, hi)` that raised, in order. */
  function ExceptionDelays(net: Network, lo: nat, hi: nat): (r: seq<nat>)
    ensures |r| <= hi - lo || hi < lo
    decreases hi
  {
    if hi <= lo then []
    else ExceptionDelays(net, lo, hi - 1) + (if net(hi - 1).Raised? then [Pow2(hi - 1)] else [])
  }

  /** `ExceptionDelays` seen from its first attempt. */
  lemma {:induction false} ExceptionDelaysFront(net: Network, lo: nat, hi: nat)
    requires lo < hi
    ensures ExceptionDelays(net, lo, hi)
         == (if net(lo).Raised? then [Pow2(lo)] else []) + ExceptionDelays(net, lo + 1, hi)
    decreases hi
  {
    if hi - 1 > lo {
      ExceptionDelaysFront(net, lo, hi - 1);
    }
  }

  /** When attempt `k` is the first 200 response, the loop returns its text after `k + 1`
      attempts, having slept `2^j` after each exception `j < k` and at no other time. */
  lemma {:induction false} RetryReturnsFirstSuccess(net: Network, attempt: nat, maxRetries: int, k: nat)
    requires attempt <= k < maxRetries && IsSuccess(net(k)) && NoSuccessIn(net, attempt, k)
    ensures RetryFrom(net, attempt, maxRetries) == RetryRun(Text(net(k).body), ExceptionDelays(net, attempt, k), k + 1 - attempt)
    decreases k - attempt
  {
    if attempt < k {
      RetryReturnsFirstSuccess(net, attempt + 1, maxRetries, k);
      ExceptionDelaysFront(net, attempt, k);
    }
  }

  /** Without a 200 response, all attempts are made; the loop re-raises when the last one
      raised and returns `None` when it was a response; it slept `2^j` after each exception
      but the last. */
  lemma {:induction false} RetryWithoutSuccess(net: Network, attempt: nat, maxRetries: int)
    requires attempt < maxRetries && NoSuccessIn(net, attempt, maxRetries)
    ensures var run := RetryFrom(net, attempt, maxRetries);
      && run.attempts == maxRetries - attempt
      && run.sleeps == ExceptionDelays(net, attempt, maxRetries - 1)
      && run.result == (if net(maxRetries - 1).Raised? then Reraised(net(maxRetries - 1).error) else NoText)
    decreases maxRetries - attempt
  {
    if attempt < maxRetries - 1 {
      RetryWithoutSuccess(net, attempt + 1, maxRetries);
      ExceptionDelaysFront(net, attempt, maxRetries - 1);
    }
  }

  /** At most `max_retries` attempts are made, and at most one delay per attempt but the last. */
  lemma {:induction false} RetryBounded(net: Network, attempt: nat, maxRetries: int)
    ensures var run := RetryFrom(net, attempt, maxRetries);
      && (attempt < maxRetries ==> 1 <= run.attempts <= maxRetries - attempt && |run.sleeps| < run.attempts)
      && (attempt >= maxRetries ==> run == RetryRun(NoText, [], 0))
    decreases maxRetries - attempt
  {
    if attempt < maxRetries && !IsSuccess(net(attempt)) && attempt != maxRetries - 1 {
      RetryBounded(net, attempt + 1, maxRetries);
    }
  }

  /** Responses other than 200 never cause a delay: if no attempt raises, nothing is slept. */
  lemma {:induction false} NoDelayWithoutException(net: Network, attempt: nat, maxRetries: int)
    requires forall j: nat :: attempt <= j < maxRetries ==> net(j).Response?
    ensures RetryFrom(net, attempt, maxRetries).sleeps == []
    decreases maxRetries - attempt
  {
    if attempt < maxRetries && !IsSuccess(net(attempt)) {
      NoDelayWithoutException(net, attempt + 1, maxRetries);
    }
  }

  /** Two exceptions and then a 200 response: the text comes back after sleeping 1 s and 2 s. */
  lemma TwoExceptionsThenSuccess(net: Network)
    requires net(0).Raised? && net(1).Raised? && net(2) == Response(200, "ok")
    ensures RetryFrom(net, 0, MaxRetries) == RetryRun(Text("ok"), [1, 2], 3)
  {
    assert Pow2(1) == 2;
  }

  /** Three exceptions: the third is re-raised after sleeping 1 s and 2 s. */
  lemma ThreeExceptionsReraise(net: Network)
    requires net(0).Raised? && net(1).Raised? && net(2).Raised?
    ensures RetryFrom(net, 0, MaxRetries) == RetryRun(Reraised(net(2).error), [1, 2], 3)
  {
    assert Pow2(1) == 2;
  }

  // ---------------------------------------------------------------------------
  // _fetch_chunk

  /** `_fetch_chunk` without its cache: the text of the first 200 response within three
      attempts, and `None` both when no attempt succeeded and when the last one raised. */
  function ChunkData(net: Network): Option<string> {
    match RetryFrom(net, 0, MaxRetries).result
    case Text(body) => Some(body)
    case NoText => None
    case Reraised(_) => None
  }

  /** `_fetch_chunk` returns a text exactly when one of the three attempts is a 200 response,
      and then it is the text of the first. */
  lemma ChunkDataFirstSuccess(net: Network)
    ensures ChunkData(net).Some? <==> exists k: nat :: k < MaxRetries && IsSuccess(net(k))
    ensures forall k: nat :: k < MaxRetries && IsSuccess(net(k)) && NoSuccessIn(net, 0, k) ==> ChunkData(net) == Some(net(k).body)
  {
    forall k: nat | k < MaxRetries && IsSuccess(net(k)) && NoSuccessIn(net, 0, k)
      ensures ChunkData(net) == Some(net(k).body)
    {
      RetryReturnsFirstSuccess(net, 0, MaxRetries, k);
    }
    if NoSuccessIn(net, 0, MaxRetries) {
      RetryWithoutSuccess(net, 0, MaxRetries);
    } else {
      var k: nat :| k < MaxRetries && IsSuccess(net(k));
      if !IsSuccess(net(0)) {
        if IsSuccess(net(1)) { k := 1; } else { k := 2; }
      } else {
        k := 0;
      }
      RetryReturnsFirstSuccess(net, 0, MaxRetries, k);
    }
  }

  /** `_fetch_chunk(quote, from_date, to_date)` as it runs on a cache miss. */
  method FetchChunk(net: Network) returns (data: Option<string>, sleeps: seq<nat>)
    ensures data == ChunkData(net) && sleeps == RetryFrom(net, 0, MaxRetries).sleeps
  {
    var result, attempts;
    result, sleeps, attempts := FetchDataWithRetry(net, MaxRetries);
    match result {
      case Text(body) => data := Some(body);
      case NoText => data := None;
      case Reraised(_) => data := None;
    }
  }

  // ---------------------------------------------------------------------------
  // The least-recently-used cache

  /** The arguments `lru_cache` keys a call on: the scraper instance (`self`) and the three
      string arguments; `str()` of an integer is injective, so the window bounds stand for them. */
  datatype CallKey = CallKey(owner: nat, quote: string, from: int, to: int)

  const LruMaxSize: nat := 32

  predicate Distinct<T(==)>(s: seq<T>) {
    forall i, j :: 0 <= i < j < |s| ==> s[i] != s[j]
  }

  /** `s` without `x`. */
  function Without(s: seq<CallKey>, x: CallKey): (r: seq<CallKey>)
    ensures x !in r
    ensures forall y :: y != x ==> (y in r <==> y in s)
    ensures Distinct(s) ==> Distinct(r) && |r| == (if x in s then |s| - 1 else |s|)
  {
    if s == [] then []
    else if s[0] == x then
      assert Distinct(s) ==> x !in s[1..];
      Without(s[1..], x)
    else
      var rest := Without(s[1..], x);
      assert Distinct(s) ==> s[0] !in s[1..] && s[0] !in rest;
      [s[0]] + rest
  }

  /** `a` occurs before `b` in `s`. */
  predicate Precedes(s: seq<CallKey>, a: CallKey, b: CallKey) {
    exists p, q :: 0 <= p < q < |s| && s[p] == a && s[q] == b
  }

  lemma PrecedesAppend(s: seq<CallKey>, t: seq<CallKey>, a: CallKey, b: CallKey)
    requires Precedes(s, a, b)
    ensures Precedes(s + t, a, b)
  {
    var p, q :| 0 <= p < q < |s| && s[p] == a && s[q] == b;
    assert (s + t)[p] == a && (s + t)[q] == b;
  }

  /** Removing `x` keeps the other keys in their order. */
  lemma {:induction false} WithoutKeepsOrder(s: seq<CallKey>, x: CallKey, i: nat, j: nat)
    requires i < j < |s| && s[i] != x && s[j] != x
    ensures Precedes(Without(s, x), s[i], s[j])
    decreases |s|
  {
    assert s[1..][j - 1] == s[j];
    if s[0] == x {
      assert s[1..][i - 1] == s[i];
      WithoutKeepsOrder(s[1..], x, i - 1, j - 1);
    } else {
      var rest := Without(s[1..], x);
      assert Without(s, x) == [s[0]] + rest;
      if i == 0 {
        assert s[j] in rest;
        var q :| 0 <= q < |rest| && rest[q] == s[j];
        assert ([s[0]] + rest)[0] == s[i] && ([s[0]] + rest)[q + 1] == s[j];
      } else {
        assert s[1..][i - 1] == s[i];
        WithoutKeepsOrder(s[1..], x, i - 1, j - 1);
        var p, q :| 0 <= p < q < |rest| && rest[p] == s[i] && rest[q] == s[j];
        assert ([s[0]] + rest)[p + 1] == s[i] && ([s[0]] + rest)[q + 1] == s[j];
      }
    }
  }

  /** Making `x` the most recent keeps the other keys in their order. */
  lemma MoveToEndKeepsOrder(s: seq<CallKey>, x: CallKey)
    ensures forall i, j :: 0 <= i < j < |s| && s[i] != x && s[j] != x ==> Precedes(Without(s, x) + [x], s[i], s[j])
  {
    forall i, j | 0 <= i < j < |s| && s[i] != x && s[j] != x
      ensures Precedes(Without(s, x) + [x], s[i], s[j])
    {
      WithoutKeepsOrder(s, x, i, j);
      PrecedesAppend(Without(s, x), [x], s[i], s[j]);
    }
  }

  /** Dropping the first `d` keys and appending `x` keeps the remaining keys in their order. */
  lemma DropAppendKeepsOrder(s: seq<CallKey>, d: nat, x: CallKey)
    requires d <= |s|
    ensures forall i, j :: d <= i < j < |s| ==> Precedes(s[d..] + [x], s[i], s[j])
  {
    forall i, j | d <= i < j < |s| ensures Precedes(s[d..] + [x], s[i], s[j]) {
      assert (s[d..] + [x])[i - d] == s[i] && (s[d..] + [x])[j - d] == s[j];
    }
  }

  /** The state of the cache: its recency order and its entries. */
  type CacheState = (seq<CallKey>, map<CallKey, Option<string>>)

  /** The recency order and the entries after a call of the cached function with `key`, whose
      uncached value is `fetched`: a hit only makes the key the most recently used; a miss
      evicts the least recently used key when `LruMaxSize` keys are held and stores `fetched`. */
  function LruStep(order: seq<CallKey>, entries: map<CallKey, Option<string>>, key: CallKey, fetched: Option<string>)
    : (r: CacheState)
    ensures r.0 != [] && r.0[|r.0| - 1] == key
    ensures key in r.1 && r.1[key] == (if key in entries then entries[key] else fetched)
    ensures forall k :: k in r.1 && k != key ==> k in entries && r.1[k] == entries[k]
    ensures key !in entries && |order| == LruMaxSize && order[0] != key ==> order[0] !in r.1
    ensures forall k :: k in entries && !(key !in entries && |order| == LruMaxSize && k == order[0]) ==>
              k in r.1 && r.1[k] == entries[k]
    ensures forall i, j ::
              (0 <= i < j < |order| && order[i] != key && order[j] != key
               && !(key !in entries && |order| == LruMaxSize && i == 0)) ==> Precedes(r.0, order[i], order[j])
    ensures Distinct(order) ==>
              forall k :: k in r.0 <==> k == key || (k in order && !(key !in entries && |order| == LruMaxSize && k == order[0]))
  {
    if key in entries then
      MoveToEndKeepsOrder(order, key);
      (Without(order, key) + [key], entries)
    else if |order| == LruMaxSize then
      DropAppendKeepsOrder(order, 1, key);
      assert order == [order[0]] + order[1..];
      (order[1..] + [key], (entries - {order[0]})[key := fetched])
    else
      DropAppendKeepsOrder(order, 0, key);
      assert order[0..] == order;
      (order + [key], entries[key := fetched])
  }

  /** The cache of `_fetch_chunk`, shared by every scraper instance of the process. */
  class FetchCache {
    /** The cached keys, least recently used first. */
    var order: seq<CallKey>
    /** The cached return values; `None` is cached like any other value. */
    var entries: map<CallKey, Option<string>>

    ghost predicate Valid()
      reads this
    {
      && |order| <= LruMaxSize
      && Distinct(order)
      && (forall k :: k in entries <==> k in order)
    }

    /** Every cached value is what an uncached call returns when `world(k)` answers the
        requests of call `k`. */
    ghost predicate Coherent(world: CallKey -> Network)
      reads this
    {
      forall k :: k in entries ==> entries[k] == ChunkData(world(k))
    }

    constructor ()
      ensures Valid() && order == [] && entries == map[]
    {
      order := [];
      entries := map[];
    }

    /** A call of the cached `_fetch_chunk`: a hit returns the cached value and makes the key
        the most recently used; a miss fetches, evicts the least recently used key when the
        cache is full, and caches the new value. */
    method GetOrFetch(key: CallKey, world: CallKey -> Network) returns (data: Option<string>, sleeps: seq<nat>)
      requires Valid()
      modifies this
      ensures Valid()
      ensures old(Coherent(world)) ==> Coherent(world) && data == ChunkData(world(key))
      ensures key in old(entries) ==> data == old(entries)[key] && sleeps == []
      ensures key !in old(entries) ==>
        data == ChunkData(world(key)) && sleeps == RetryFrom(world(key), 0, MaxRetries).sleeps
      ensures (order, entries) == LruStep(old(order), old(entries), key, ChunkData(world(key)))
    {
      if key in entries {
        data, sleeps := entries[key], [];
        order := Without(order, key) + [key];
        return;
      }
      data, sleeps := FetchChunk(world(key));
      if |order| == LruMaxSize {
        var oldest := order[0];
        assert order == [oldest] + order[1..];
        entries := (entries - {oldest})[key := data];
        order := order[1..] + [key];
      } else {
        entries := entries[key := data];
        order := order + [key];
      }
    }
  }
}
