/**
  The API: `parse_period`, `process_single_pair` (fetch a year of a pair, save it, count the
  records of each period), `sync_forex_data` (the two supported pairs, merged) and
  `get_forex_data` (the stored closing rates of a pair over a period, oldest first).

  The clock is a parameter: `now` is the local `datetime.now()` and `nowEpoch` the integer
  part of its timestamp.
*/
module Routes {
  import opened Wrappers
  import opened Text
  import opened Dates
  import opened ExchangeRateModel
  import opened ChunkPlanner
  import opened Fetch
  import opened Parser
  import opened Store
  import opened Scraper

  // ---------------------------------------------------------------------------
  // parse_period

  /** The supported periods, in the order `process_single_pair` reports them. */
  const Periods: seq<string> := ["1W", "1M", "3M", "6M", "1Y"]

  function InvalidPeriod(period: string): string {
    "Invalid period: " + period + ". Supported periods are 1W, 1M, 3M, 6M, 1Y"
  }

  /** `period_mapping`: the length in days of each supported period. */
  function PeriodLength(normalized: string): (days: Option<nat>)
    ensures days.Some? <==> normalized in Periods
    ensures days.Some? ==> 7 <= days.value <= 365
  {
    if normalized == "1W" then Some(7)
    else if normalized == "1M" then Some(30)
    else if normalized == "3M" then Some(90)
    else if normalized == "6M" then Some(180)
    else if normalized == "1Y" then Some(365)
    else None
  }

  /** `parse_period(period)`: the period's length in days, matched after upper-casing; the
      `ValueError` for any other text quotes the text as given. */
  function ParsePeriod(period: string): (r: Result<nat>)
    ensures r.Ok? <==> AsciiUpper(period) in Periods
    ensures r.Ok? ==> 7 <= r.value <= 365
    ensures r.Err? ==> r.message == InvalidPeriod(period)
  {
    var days := PeriodLength(AsciiUpper(period));
    if days.Some? then Ok(days.value) else Err(InvalidPeriod(period))
  }

  /** Each supported period, in the order they are listed, is longer than the one before. */
  lemma PeriodLengthsIncrease()
    ensures forall i, j :: 0 <= i < j < |Periods| ==> PeriodLength(Periods[i]).value < PeriodLength(Periods[j]).value
  {
    assert PeriodLength(Periods[0]) == Some(7) && PeriodLength(Periods[1]) == Some(30);
    assert PeriodLength(Periods[2]) == Some(90) && PeriodLength(Periods[3]) == Some(180);
    assert PeriodLength(Periods[4]) == Some(365);
  }

  /** `parse_period` reads each supported period, written in upper case, as its length. */
  lemma PeriodsParse(period: string)
    requires period in Periods
    ensures ParsePeriod(period) == Ok(PeriodLength(period).value)
  {
    assert period == "1W" || period == "1M" || period == "3M" || period == "6M" || period == "1Y";
    assert AsciiUpper(period) == period by {
      forall i | 0 <= i < |period| ensures UpperChar(period[i]) == period[i] {
      }
    }
  }

  /** Case does not matter: a period is accepted exactly when its upper-cased form is, and
      means the same. */
  lemma ParsePeriodIgnoresCase(period: string)
    ensures ParsePeriod(AsciiUpper(period)).Ok? <==> ParsePeriod(period).Ok?
    ensures ParsePeriod(period).Ok? ==> ParsePeriod(AsciiUpper(period)) == ParsePeriod(period)
  {
    AsciiUpperIdempotent(period);
  }

  /** A lower-case period is accepted; `"2W"` is refused with its own text in the message. */
  lemma PeriodExamples()
    ensures ParsePeriod("1y") == Ok(365)
    ensures ParsePeriod("2W") == Err(InvalidPeriod("2W"))
  {
    assert AsciiUpper("1y") == "1Y";
    assert AsciiUpper("2W") == "2W" && "2W" !in Periods;
  }

  // ---------------------------------------------------------------------------
  // The pair

  /** `f"{from_currency}{to_currency}=X"`, Yahoo's symbol of the pair. */
  function PairId(fromCurrency: string, toCurrency: string): string {
    fromCurrency + toCurrency + "=X"
  }

  /** For codes of equal length (ISO 4217 codes have three letters) the symbol determines the
      pair. */
  lemma PairIdInjective(a1: string, b1: string, a2: string, b2: string)
    requires |a1| == |a2|
    ensures PairId(a1, b1) == PairId(a2, b2) <==> a1 == a2 && b1 == b2
  {
    if PairId(a1, b1) == PairId(a2, b2) {
      var p := PairId(a1, b1);
      assert a1 == p[..|a1|] == a2;
      assert b1 == p[|a1|..|p| - 2] && b2 == PairId(a2, b2)[|a2|..|p| - 2];
    }
  }

  // ---------------------------------------------------------------------------
  // The clock

  /** A naive local `datetime`: a date and the microseconds since its midnight. */
  datatype DateTime = DateTime(date: Date, sinceMidnight: nat)

  const MicrosPerDay: nat := 24 * 60 * 60 * 1000000

  predicate ValidDateTime(t: DateTime) {
    ValidDate(t.date) && t.sinceMidnight < MicrosPerDay
  }

  /** Chronological order of date-times. */
  predicate DateTimeLe(a: DateTime, b: DateTime) {
    DateLess(a.date, b.date) || (a.date == b.date && a.sinceMidnight <= b.sinceMidnight)
  }

  /** `t - timedelta(days=n)`: the time of day stays; `None` for Python's `OverflowError`. */
  function MinusDays(t: DateTime, n: nat): (r: Option<DateTime>)
    requires ValidDateTime(t)
    ensures r.None? <==> DayNumber(t.date) <= n
    ensures r.Some? ==> ValidDateTime(r.value) && DateTimeLe(r.value, t)
    ensures r.Some? ==> DayNumber(r.value.date) == DayNumber(t.date) - n && r.value.sinceMidnight == t.sinceMidnight
  {
    var d := SubtractDays(t.date, n);
    if d.None? then None
    else
      DayNumberOrder(d.value, t.date);
      Some(DateTime(d.value, t.sinceMidnight))
  }

  /** Going further back gives an earlier moment, and is possible when going back a year is. */
  lemma MinusDaysMonotone(t: DateTime, m: nat, n: nat)
    requires ValidDateTime(t) && m <= n && MinusDays(t, n).Some?
    ensures MinusDays(t, m).Some? && DateTimeLe(MinusDays(t, n).value, MinusDays(t, m).value)
  {
    SubtractDaysMonotone(t.date, m, n);
  }

  /** The text of the `OverflowError` that subtracting below year 1 raises. */
  const OverflowMessage: string := "date value out of range"

  // ---------------------------------------------------------------------------
  // Counting the records of a period

  /** `datetime.strptime(date, '%Y-%m-%d') >= start`: the record's date is read as its
      midnight, so a record of the start's own day counts only when the start is a midnight. */
  predicate AtOrAfter(d: Date, start: DateTime) {
    DateLess(start.date, d) || (d == start.date && start.sinceMidnight == 0)
  }

  predicate AllIso(rates: seq<ExchangeRate>) {
    forall i :: 0 <= i < |rates| ==> IsIsoDate(rates[i].date)
  }

  /** `len([rate for rate in exchange_rates if strptime(rate['date']) >= start])`. */
  function CountSince(rates: seq<ExchangeRate>, start: DateTime): (n: nat)
    requires AllIso(rates)
    ensures n <= |rates|
  {
    if rates == [] then 0
    else
      var init := rates[..|rates| - 1];
      assert forall i :: 0 <= i < |init| ==> init[i] == rates[i];
      CountSince(init, start) + (if AtOrAfter(IsoFields(rates[|rates| - 1].date), start) then 1 else 0)
  }

  /** An earlier start counts at least as many records. */
  lemma {:induction false} CountSinceMonotone(rates: seq<ExchangeRate>, a: DateTime, b: DateTime)
    requires AllIso(rates) && DateTimeLe(a, b)
    ensures CountSince(rates, b) <= CountSince(rates, a)
  {
    if rates != [] {
      var init := rates[..|rates| - 1];
      assert forall i :: 0 <= i < |init| ==> init[i] == rates[i];
      CountSinceMonotone(init, a, b);
    }
  }

  /** Records dated after the start's day all count; none dated before it does. */
  lemma CountSinceExtremes(rates: seq<ExchangeRate>, start: DateTime)
    requires AllIso(rates)
    ensures (forall i :: 0 <= i < |rates| ==> DateLess(start.date, IsoFields(rates[i].date))) ==> CountSince(rates, start) == |rates|
    ensures (forall i :: 0 <= i < |rates| ==> DateLess(IsoFields(rates[i].date), start.date)) ==> CountSince(rates, start) == 0
  {
    if forall i :: 0 <= i < |rates| ==> DateLess(start.date, IsoFields(rates[i].date)) {
      CountSinceAllAfter(rates, start);
    }
    if forall i :: 0 <= i < |rates| ==> DateLess(IsoFields(rates[i].date), start.date) {
      CountSinceAllBefore(rates, start);
    }
  }

  lemma {:induction false} CountSinceAllAfter(rates: seq<ExchangeRate>, start: DateTime)
    requires AllIso(rates)
    requires forall i :: 0 <= i < |rates| ==> DateLess(start.date, IsoFields(rates[i].date))
    ensures CountSince(rates, start) == |rates|
  {
    if rates != [] {
      var init := rates[..|rates| - 1];
      assert forall i :: 0 <= i < |init| ==> init[i] == rates[i];
      CountSinceAllAfter(init, start);
    }
  }

  lemma {:induction false} CountSinceAllBefore(rates: seq<ExchangeRate>, start: DateTime)
    requires AllIso(rates)
    requires forall i :: 0 <= i < |rates| ==> DateLess(IsoFields(rates[i].date), start.date)
    ensures CountSince(rates, start) == 0
  {
    if rates != [] {
      var init := rates[..|rates| - 1];
      assert forall i :: 0 <= i < |init| ==> init[i] == rates[i];
      CountSinceAllBefore(init, start);
    }
  }

  /** A record of the start's own day is counted only when the clock reads midnight. */
  lemma StartDayCountsOnlyAtMidnight(r: ExchangeRate, start: DateTime)
    requires IsIsoDate(r.date) && IsoFields(r.date) == start.date
    ensures CountSince([r], start) == (if start.sinceMidnight == 0 then 1 else 0)
  {
    assert [r][..0] == [];
  }

  /** Where the period `period` starts, `now - parse_period(period)`; it cannot overflow when
      the year before `now` does not. */
  function PeriodStart(now: DateTime, period: string): (start: DateTime)
    requires ValidDateTime(now) && period in Periods && MinusDays(now, 365).Some?
    ensures ValidDateTime(start) && DateTimeLe(MinusDays(now, 365).value, start)
  {
    var days := PeriodLength(period).value;
    MinusDaysMonotone(now, days, 365);
    MinusDays(now, days).value
  }

  /** The status of one period in a pair's results. */
  datatype PeriodStatus = Success(records: nat) | Failure(message: string)

  /** `{currency_pair: {period: status}}`. */
  type PairResults = map<string, map<string, PeriodStatus>>

  /** The records of each period, from the one-week period up to the one-year period. */
  function PeriodCounts(rates: seq<ExchangeRate>, now: DateTime): map<string, PeriodStatus>
    requires ValidDateTime(now) && MinusDays(now, 365).Some? && AllIso(rates)
  {
    map period | period in Periods :: Success(CountSince(rates, PeriodStart(now, period)))
  }

  /** Every period succeeds; the counts never exceed the records and grow from each period
      to the next longer one. */
  lemma PeriodCountsNested(rates: seq<ExchangeRate>, now: DateTime)
    requires ValidDateTime(now) && MinusDays(now, 365).Some? && AllIso(rates)
    ensures PeriodCounts(rates, now).Keys == set period | period in Periods
    ensures forall p :: p in PeriodCounts(rates, now) ==> PeriodCounts(rates, now)[p].Success? && PeriodCounts(rates, now)[p].records <= |rates|
    ensures forall i, j :: 0 <= i < j < |Periods| ==>
      PeriodCounts(rates, now)[Periods[i]].records <= PeriodCounts(rates, now)[Periods[j]].records
  {
    PeriodLengthsIncrease();
    forall i, j | 0 <= i < j < |Periods|
      ensures PeriodCounts(rates, now)[Periods[i]].records <= PeriodCounts(rates, now)[Periods[j]].records
    {
      LongerPeriodCountsMore(rates, now, Periods[i], Periods[j]);
    }
  }

  lemma LongerPeriodCountsMore(rates: seq<ExchangeRate>, now: DateTime, shorter: string, longer: string)
    requires ValidDateTime(now) && MinusDays(now, 365).Some? && AllIso(rates)
    requires shorter in Periods && longer in Periods
    requires PeriodLength(shorter).value <= PeriodLength(longer).value
    ensures CountSince(rates, PeriodStart(now, shorter)) <= CountSince(rates, PeriodStart(now, longer))
  {
    var m, n := PeriodLength(shorter).value, PeriodLength(longer).value;
    MinusDaysMonotone(now, n, 365);
    MinusDaysMonotone(now, m, n);
    var a, b := PeriodStart(now, longer), PeriodStart(now, shorter);
    assert a == MinusDays(now, n).value && b == MinusDays(now, m).value;
    CountSinceMonotone(rates, a, b);
  }

  /** The same failure for every period. */
  function ErrorResults(pair: string, message: string): PairResults {
    map[pair := map period | period in Periods :: Failure(message)]
  }

  // ---------------------------------------------------------------------------
  // process_single_pair

  /** `timedelta(days=365)` in seconds: how far back the sync fetches. */
  const YearSeconds: int := 365 * 24 * 60 * 60

  const FetchFailedMessage: string := "Failed to fetch data"
  const NoDataMessage: string := "No data found"

  /** What `get_exchange_data` returns to the sync for `pair`, fetched by the scraper `id`
      with its futures completing in `order`. */
  function PairHtml(id: nat, pair: string, order: seq<Window>, w: World): Option<string> {
    Combined(Parts(id, pair, order, w))
  }

  /** The result of `process_single_pair` for `pair`, as a function of the outside world:
      the year before `now` must exist, some text must come back, it must yield records, and
      their save must succeed; otherwise every period carries the same error. */
  function PairReport(id: nat, pair: string, now: DateTime, order: seq<Window>, w: World, saveFault: Option<StoreFault>): (r: PairResults)
    requires ValidDateTime(now)
    ensures r.Keys == {pair} && r[pair].Keys == set period | period in Periods
  {
    if MinusDays(now, 365).None? then ErrorResults(pair, OverflowMessage)
    else TextReport(pair, now, PairHtml(id, pair, order, w), w.dec, saveFault)
  }

  /** The result once the text `html` has come back: it must be non-empty, yield records,
      and their save must succeed. */
  function TextReport(pair: string, now: DateTime, html: Option<string>, dec: Decoders, saveFault: Option<StoreFault>): (r: PairResults)
    requires ValidDateTime(now) && MinusDays(now, 365).Some?
    ensures r.Keys == {pair} && r[pair].Keys == set period | period in Periods
  {
    if html.None? || html.value == [] then ErrorResults(pair, FetchFailedMessage)
    else
      match ParsedTable(html.value, pair, dec)
      case None => ErrorResults(pair, NoDataMessage)
      case Some(rates) =>
        ParsedTableRecords(html.value, pair, dec);
        SavedReport(pair, now, rates, saveFault)
  }

  /** The result once the text has yielded `rates`: their save must succeed. */
  function SavedReport(pair: string, now: DateTime, rates: seq<ExchangeRate>, saveFault: Option<StoreFault>): (r: PairResults)
    requires ValidDateTime(now) && MinusDays(now, 365).Some? && AllIso(rates)
    ensures r.Keys == {pair} && r[pair].Keys == set period | period in Periods
  {
    if Strikes(saveFault, rates) then ErrorResults(pair, saveFault.value.cause)
    else
      PeriodCountsNested(rates, now);
      map[pair := PeriodCounts(rates, now)]
  }

  /** The table after `process_single_pair`: the chunk tasks' saves, then the save of the
      parsed whole (undone by a rollback when it fails). */
  function PairTable(t: Table, id: nat, pair: string, now: DateTime, order: seq<Window>, w: World, saveFault: Option<StoreFault>): Table
    requires ValidDateTime(now)
  {
    if MinusDays(now, 365).None? then t
    else TextTable(TableAfter(t, id, pair, order, w), pair, PairHtml(id, pair, order, w), w.dec, w.now, saveFault)
  }

  /** The shared cache's recency order and entries after `process_single_pair`: those the
      chunk tasks leave, or the old ones when computing the start date overflows. */
  function PairCache(c: CacheState, id: nat, pair: string, now: DateTime, order: seq<Window>, w: World)
    : CacheState
    requires ValidDateTime(now)
  {
    if MinusDays(now, 365).None? then c else CacheAfter(c, id, pair, order, w)
  }

  /** The table once the text `html` has come back: the records it yields are saved at
      `stamp`. */
  function TextTable(t: Table, pair: string, html: Option<string>, dec: Decoders, stamp: int, saveFault: Option<StoreFault>): Table {
    if html.None? || html.value == [] then t
    else
      match ParsedTable(html.value, pair, dec)
      case None => t
      case Some(rates) => Save(t, rates, stamp, saveFault).1
  }

  /** A pair's periods either all succeed, with counts that never exceed the records parsed
      and that grow from each period to the next longer one, or all fail with one message:
      the year cannot be subtracted, no text came back (every chunk's text was missing),
      no record was parsed, or the save raised. */
  lemma PairReportOutcomes(id: nat, pair: string, now: DateTime, order: seq<Window>, w: World, saveFault: Option<StoreFault>)
    requires ValidDateTime(now)
    ensures var r := PairReport(id, pair, now, order, w, saveFault)[pair];
      || (exists message :: forall p :: p in r ==> r[p] == Failure(message))
      || ((forall p :: p in r ==> r[p].Success?)
          && (forall i, j :: 0 <= i < j < |Periods| ==> r[Periods[i]].records <= r[Periods[j]].records))
    ensures (forall p :: p in PairReport(id, pair, now, order, w, saveFault)[pair] ==>
               PairReport(id, pair, now, order, w, saveFault)[pair][p] == Failure(FetchFailedMessage))
            <== MinusDays(now, 365).Some? && forall win :: win in order ==> PartOf(id, pair, win, w) == []
  {
    var r := PairReport(id, pair, now, order, w, saveFault)[pair];
    if MinusDays(now, 365).Some? {
      var html := PairHtml(id, pair, order, w);
      CombinedNone(id, pair, order, w);
      if html.Some? && html.value != [] {
        var parsed := ParsedTable(html.value, pair, w.dec);
        if parsed.Some? && !Strikes(saveFault, parsed.value) {
          ParsedTableRecords(html.value, pair, w.dec);
          PeriodCountsNested(parsed.value, now);
        }
      }
    }
  }

  /** The loop of `process_single_pair` over the periods, after a successful save. */
  method CountPeriods(rates: seq<ExchangeRate>, now: DateTime) returns (counts: map<string, PeriodStatus>)
    requires ValidDateTime(now) && MinusDays(now, 365).Some? && AllIso(rates)
    ensures counts == PeriodCounts(rates, now)
  {
    ghost var want := PeriodCounts(rates, now);
    counts := map[];
    for i := 0 to |Periods|
      invariant AgreesOn(counts, want, Periods[..i])
    {
      var period := Periods[i];
      var periodStart := PeriodStartParsed(now, period);
      PeriodCountsAt(rates, now, period);
      AgreesOnStep(counts, want, Periods[..i], period);
      PrefixGrows(Periods, i);
      counts := counts[period := Success(CountSince(rates, periodStart))];
    }
    PrefixGrows(Periods, |Periods| - 1);
    AgreesOnAll(counts, want, Periods);
  }

  lemma PeriodCountsAt(rates: seq<ExchangeRate>, now: DateTime, period: string)
    requires ValidDateTime(now) && MinusDays(now, 365).Some? && AllIso(rates) && period in Periods
    ensures period in PeriodCounts(rates, now)
    ensures PeriodCounts(rates, now)[period] == Success(CountSince(rates, PeriodStart(now, period)))
  {
  }

  /** `m` holds exactly the keys of `done`, with the values `want` gives them. */
  ghost predicate AgreesOn<K, V>(m: map<K, V>, want: map<K, V>, done: seq<K>) {
    m.Keys == (set k | k in done) && forall k :: k in m ==> k in want && m[k] == want[k]
  }

  lemma AgreesOnStep<K, V>(m: map<K, V>, want: map<K, V>, done: seq<K>, k: K)
    requires AgreesOn(m, want, done) && k in want
    ensures AgreesOn(m[k := want[k]], want, done + [k])
  {
    assert (set j | j in done + [k]) == (set j | j in done) + {k};
  }

  lemma PrefixGrows<T>(s: seq<T>, i: nat)
    requires i < |s|
    ensures s[..i + 1] == s[..i] + [s[i]] && s[..|s|] == s
  {
  }

  lemma AgreesOnAll<K, V>(m: map<K, V>, want: map<K, V>, keys: seq<K>)
    requires AgreesOn(m, want, keys) && want.Keys == set k | k in keys
    ensures m == want
  {
  }

  /** `end_date - parse_period(period)` for a supported period. */
  method PeriodStartParsed(now: DateTime, period: string) returns (start: DateTime)
    requires ValidDateTime(now) && MinusDays(now, 365).Some? && period in Periods
    ensures start == PeriodStart(now, period)
  {
    PeriodsParse(period);
    var days := ParsePeriod(period).value;
    MinusDaysMonotone(now, days, 365);
    start := MinusDays(now, days).value;
  }

  /** `process_single_pair(from_currency, to_currency)`: a new scraper (identity `scraperId`)
      fetches the year before `now`, with its chunk futures completing in `order`; the parsed
      text is saved and each period's records are counted. Every exception ends in the same
      error for all periods. */
  method ProcessSinglePair(db: Database, cache: FetchCache, w: World, fromCurrency: string, toCurrency: string,
                           now: DateTime, nowEpoch: int, scraperId: nat, order: seq<Window>,
                           saveFault: Option<StoreFault>) returns (results: PairResults)
    requires ValidDateTime(now)
    requires db.Valid() && cache.Valid() && cache.Coherent(w.net)
    requires multiset(order) == multiset(Chunks(nowEpoch - YearSeconds, nowEpoch))
    modifies db, cache
    ensures db.Valid() && cache.Valid() && cache.Coherent(w.net)
    ensures results == PairReport(scraperId, PairId(fromCurrency, toCurrency), now, order, w, saveFault)
    ensures db.table == PairTable(old(db.table), scraperId, PairId(fromCurrency, toCurrency), now, order, w, saveFault)
    ensures (cache.order, cache.entries)
            == PairCache(old((cache.order, cache.entries)), scraperId, PairId(fromCurrency, toCurrency), now, order, w)
  {
    var currencyPair := PairId(fromCurrency, toCurrency);
    var startDate := MinusDays(now, 365);
    if startDate.None? {
      // OverflowError, caught by the handler
      return ErrorResults(currencyPair, OverflowMessage);
    }
    var scraper := new ExchangeRateScraper(scraperId, db, cache, w);
    var htmlContent := scraper.GetExchangeData(currencyPair, nowEpoch - YearSeconds, nowEpoch, order);
    results := SaveAndCount(db, w, currencyPair, now, htmlContent, saveFault);
  }

  /** The rest of `process_single_pair` once the text has come back: parse it, save the
      records, count each period. */
  method SaveAndCount(db: Database, w: World, currencyPair: string, now: DateTime, htmlContent: Option<string>,
                      saveFault: Option<StoreFault>) returns (results: PairResults)
    requires ValidDateTime(now) && MinusDays(now, 365).Some? && db.Valid()
    modifies db
    ensures db.Valid()
    ensures results == TextReport(currencyPair, now, htmlContent, w.dec, saveFault)
    ensures db.table == TextTable(old(db.table), currencyPair, htmlContent, w.dec, w.now, saveFault)
  {
    if htmlContent.None? || htmlContent.value == [] {
      return ErrorResults(currencyPair, FetchFailedMessage);
    }
    var exchangeRates := ParseExchangeData(htmlContent.value, currencyPair, w.dec);
    if exchangeRates.None? {
      return ErrorResults(currencyPair, NoDataMessage);
    }
    var saved := db.SaveToDatabase(exchangeRates.value, w.now, saveFault);
    if saved.StoreError? {
      // the re-raised database error, caught by the handler
      return ErrorResults(currencyPair, saved.cause);
    }
    ParsedTableRecords(htmlContent.value, currencyPair, w.dec);
    var counts := CountPeriods(exchangeRates.value, now);
    results := map[currencyPair := counts];
  }

  // ---------------------------------------------------------------------------
  // sync_forex_data

  /** The pairs the sync submits, in submission order. */
  const CurrencyPairs: seq<(string, string)> := [("GBP", "INR"), ("AED", "INR")]

  function PairOf(i: nat): string
    requires i < |CurrencyPairs|
  {
    PairId(CurrencyPairs[i].0, CurrencyPairs[i].1)
  }

  /** The two pairs' symbols differ. */
  lemma PairsDistinct()
    ensures PairOf(0) != PairOf(1)
  {
    assert PairOf(0)[0] == 'G' && PairOf(1)[0] == 'A';
  }

  /** What the sync runs for the pair submitted `i`-th: its scraper has identity `scraperIds[i]`,
      its own thread reads the clock as `nows[i]` (timestamp `nowEpochs[i]`), its chunk futures
      complete in `orders[i]` and its final save meets `saveFaults[i]`. The two pairs read the
      clock separately, so their readings may differ. */
  datatype SyncPlan = SyncPlan(scraperIds: seq<nat>, nows: seq<DateTime>, nowEpochs: seq<int>,
                               orders: seq<seq<Window>>, saveFaults: seq<Option<StoreFault>>)

  /** Each pair gets a new `ExchangeRateScraper`, so the two identities differ. */
  predicate PlanFits(plan: SyncPlan) {
    && |plan.scraperIds| == |plan.nows| == |plan.nowEpochs| == |plan.orders| == |plan.saveFaults| == |CurrencyPairs|
    && (forall i :: 0 <= i < |plan.nows| ==> ValidDateTime(plan.nows[i]))
    && (forall i, j :: 0 <= i < j < |plan.scraperIds| ==> plan.scraperIds[i] != plan.scraperIds[j])
  }

  /** The results of the pair submitted `i`-th (none for an index past the last pair). */
  function ReportOf(plan: SyncPlan, w: World, i: nat): PairResults {
    if PlanFits(plan) && i < |CurrencyPairs|
    then PairReport(plan.scraperIds[i], PairOf(i), plan.nows[i], plan.orders[i], w, plan.saveFaults[i])
    else map[]
  }

  /** The table after processing the pair submitted `i`-th. */
  function PairStep(plan: SyncPlan, w: World, t: Table, i: nat): Table {
    if PlanFits(plan) && i < |CurrencyPairs|
    then PairTable(t, plan.scraperIds[i], PairOf(i), plan.nows[i], plan.orders[i], w, plan.saveFaults[i])
    else t
  }

  /** `results` after the futures of `completion` have been collected, in that order, each
      contributing `report(i)` through `results.update`. */
  function MergeInOrder(report: nat -> PairResults, completion: seq<nat>): PairResults {
    if completion == [] then map[]
    else MergeInOrder(report, completion[..|completion| - 1]) + report(completion[|completion| - 1])
  }

  /** The table after the pairs of `completion` have been processed, in that order. */
  function ApplyInOrder<S>(t: S, step: (S, nat) -> S, completion: seq<nat>): S {
    if completion == [] then t
    else step(ApplyInOrder(t, step, completion[..|completion| - 1]), completion[|completion| - 1])
  }

  /** The sync's results. */
  function SyncResults(plan: SyncPlan, w: World, completion: seq<nat>): PairResults {
    MergeInOrder((i: nat) => ReportOf(plan, w, i), completion)
  }

  /** The table after the sync. */
  function SyncTable(t: Table, plan: SyncPlan, w: World, completion: seq<nat>): Table {
    ApplyInOrder(t, (t': Table, i: nat) => PairStep(plan, w, t', i), completion)
  }

  /** The cache after processing the pair submitted `i`-th. */
  function CacheStep(plan: SyncPlan, w: World, c: CacheState, i: nat): CacheState {
    if PlanFits(plan) && i < |CurrencyPairs|
    then PairCache(c, plan.scraperIds[i], PairOf(i), plan.nows[i], plan.orders[i], w)
    else c
  }

  /** The cache after the sync. */
  function SyncCache(c: CacheState, plan: SyncPlan, w: World, completion: seq<nat>): CacheState {
    ApplyInOrder(c, (c': CacheState, i: nat) => CacheStep(plan, w, c', i), completion)
  }

  /** When two reports have disjoint keys, the order in which `update` merges them does not
      matter. */
  lemma MergeTwoOrderIndependent(report: nat -> PairResults)
    requires report(0).Keys !! report(1).Keys
    ensures MergeInOrder(report, [0, 1]) == MergeInOrder(report, [1, 0]) == report(0) + report(1)
  {
    assert [0, 1][..1] == [0] && [0][..0] == [];
    assert [1, 0][..1] == [1] && [1][..0] == [];
    assert MergeInOrder(report, [0]) == report(0);
    assert MergeInOrder(report, [1]) == report(1);
  }

  /** The sync's results hold both pairs, each with its own report, whichever future
      completes first: the pairs' keys differ, so neither update overwrites the other. */
  lemma SyncResultsOrderIndependent(plan: SyncPlan, w: World)
    requires PlanFits(plan)
    ensures SyncResults(plan, w, [0, 1]) == SyncResults(plan, w, [1, 0])
    ensures SyncResults(plan, w, [0, 1]).Keys == {PairOf(0), PairOf(1)}
    ensures SyncResults(plan, w, [0, 1])[PairOf(0)] == ReportOf(plan, w, 0)[PairOf(0)]
    ensures SyncResults(plan, w, [0, 1])[PairOf(1)] == ReportOf(plan, w, 1)[PairOf(1)]
  {
    var report := (i: nat) => ReportOf(plan, w, i);
    PairsDistinct();
    assert report(0).Keys == {PairOf(0)} && report(1).Keys == {PairOf(1)};
    MergeTwoOrderIndependent(report);
  }

  lemma MergeStep(report: nat -> PairResults, completion: seq<nat>, j: nat)
    requires j < |completion|
    ensures MergeInOrder(report, completion[..j + 1]) == MergeInOrder(report, completion[..j]) + report(completion[j])
  {
    assert completion[..j + 1][..j] == completion[..j];
  }

  lemma ApplyStep<S>(t: S, step: (S, nat) -> S, completion: seq<nat>, j: nat)
    requires j < |completion|
    ensures ApplyInOrder(t, step, completion[..j + 1]) == step(ApplyInOrder(t, step, completion[..j]), completion[j])
  {
    assert completion[..j + 1][..j] == completion[..j];
  }

  /** One future of the sync: `process_single_pair` for the pair submitted `i`-th. */
  method SyncPair(db: Database, cache: FetchCache, w: World, plan: SyncPlan, i: nat)
    returns (pairResults: PairResults)
    requires PlanFits(plan) && i < |CurrencyPairs|
    requires db.Valid() && cache.Valid() && cache.Coherent(w.net)
    requires multiset(plan.orders[i]) == multiset(Chunks(plan.nowEpochs[i] - YearSeconds, plan.nowEpochs[i]))
    modifies db, cache
    ensures db.Valid() && cache.Valid() && cache.Coherent(w.net)
    ensures pairResults == ReportOf(plan, w, i)
    ensures db.table == PairStep(plan, w, old(db.table), i)
    ensures (cache.order, cache.entries)
            == PairCache(old((cache.order, cache.entries)), plan.scraperIds[i], PairOf(i), plan.nows[i], plan.orders[i], w)
  {
    pairResults := ProcessSinglePair(db, cache, w, CurrencyPairs[i].0, CurrencyPairs[i].1, plan.nows[i], plan.nowEpochs[i],
                                     plan.scraperIds[i], plan.orders[i], plan.saveFaults[i]);
  }

  /** One more completed future: its report is merged, and its pair's table and cache
      changes follow those of the futures before it. */
  lemma SyncStep(plan: SyncPlan, w: World, t: Table, c: CacheState, completion: seq<nat>, j: nat)
    requires j < |completion|
    ensures SyncResults(plan, w, completion[..j + 1]) == SyncResults(plan, w, completion[..j]) + ReportOf(plan, w, completion[j])
    ensures SyncTable(t, plan, w, completion[..j + 1]) == PairStep(plan, w, SyncTable(t, plan, w, completion[..j]), completion[j])
    ensures SyncCache(c, plan, w, completion[..j + 1]) == CacheStep(plan, w, SyncCache(c, plan, w, completion[..j]), completion[j])
  {
    MergeStep((i: nat) => ReportOf(plan, w, i), completion, j);
    ApplyStep(t, (t': Table, i: nat) => PairStep(plan, w, t', i), completion, j);
    ApplyStep(c, (c': CacheState, i: nat) => CacheStep(plan, w, c', i), completion, j);
  }

  /** `sync_forex_data()`: both pairs are processed and their results merged with
      `results.update`, in the order `completion` in which their futures complete. */
  method SyncForexData(db: Database, cache: FetchCache, w: World, plan: SyncPlan, completion: seq<nat>)
    returns (results: PairResults)
    requires PlanFits(plan)
    requires db.Valid() && cache.Valid() && cache.Coherent(w.net)
    requires forall i :: 0 <= i < |plan.orders| ==>
               multiset(plan.orders[i]) == multiset(Chunks(plan.nowEpochs[i] - YearSeconds, plan.nowEpochs[i]))
    requires completion == [0, 1] || completion == [1, 0]
    modifies db, cache
    ensures db.Valid() && cache.Valid() && cache.Coherent(w.net)
    ensures results == SyncResults(plan, w, completion) == SyncResults(plan, w, [0, 1])
    ensures db.table == SyncTable(old(db.table), plan, w, completion)
    ensures (cache.order, cache.entries) == SyncCache(old((cache.order, cache.entries)), plan, w, completion)
  {
    results := map[];
    for j := 0 to |completion|
      invariant db.Valid() && cache.Valid() && cache.Coherent(w.net)
      invariant results == SyncResults(plan, w, completion[..j])
      invariant db.table == SyncTable(old(db.table), plan, w, completion[..j])
      invariant (cache.order, cache.entries) == SyncCache(old((cache.order, cache.entries)), plan, w, completion[..j])
    {
      var i := completion[j];
      var pairResults := SyncPair(db, cache, w, plan, i);
      SyncStep(plan, w, old(db.table), old((cache.order, cache.entries)), completion, j);
      if pairResults != map[] {
        results := results + pairResults;
      }
    }
    assert completion[..|completion|] == completion;
    SyncResultsOrderIndependent(plan, w);
  }

  // ---------------------------------------------------------------------------
  // get_forex_data

  /** The request body's fields; a missing field takes the endpoint's default. */
  datatype ForexRequest = ForexRequest(
    fromCurrency: Option<string>,
    toCurrency: Option<string>,
    period: Option<string>,
    amount: Option<real>)

  function OrDefault<T>(o: Option<T>, default: T): T {
    if o.Some? then o.value else default
  }

  /** One element of the response's `data`. */
  datatype DataPoint = DataPoint(date: string, rate: real)

  /** The endpoint's answers: 200 with the series, 404 when nothing is stored for the range,
      400 for a `ValueError` (a bad period), 500 for any other exception. */
  datatype ForexResponse =
    | Found(fromCurrency: string, toCurrency: string, period: string, data: seq<DataPoint>,
            currentRate: real, convertedAmount: Option<real>)
    | NotFound
    | BadRequest(error: string)
    | InternalError

  const NotFoundMessage: string := "No data available for the specified period and currency pair"
  const InternalErrorMessage: string := "Internal server error"

  /** The HTTP status and, for a failure, the `error` text of the JSON body. */
  function StatusAndError(r: ForexResponse): (se: (int, Option<string>))
    ensures se.0 == 200 <==> se.1.None?
    ensures se.0 == 200 <==> r.Found?
    ensures r.BadRequest? <==> se.0 == 400
    ensures r.BadRequest? ==> se.1 == Some(r.error)
    ensures r.NotFound? <==> se == (404, Some(NotFoundMessage))
    ensures r.InternalError? <==> se == (500, Some(InternalErrorMessage))
  {
    match r
    case Found(_, _, _, _, _, _) => (200, None)
    case NotFound => (404, Some(NotFoundMessage))
    case BadRequest(error) => (400, Some(error))
    case InternalError => (500, Some(InternalErrorMessage))
  }

  /** The filter of the query: the pair, and a date between the two bounds as text. */
  predicate InRange(r: ExchangeRate, pair: string, lo: string, hi: string) {
    r.currencyPair == pair && LexLe(lo, r.date) && LexLe(r.date, hi)
  }

  /** `r` is a stored record that the filter selects. */
  predicate Selected(t: Table, pair: string, lo: string, hi: string, r: ExchangeRate) {
    KeyOf(r) in t.rows && t.rows[KeyOf(r)].rate == r && InRange(r, pair, lo, hi)
  }

  /** `ORDER BY date ASC`, with no two records on one date. */
  predicate Ascending(rows: seq<ExchangeRate>) {
    forall i, j :: 0 <= i < j < |rows| ==> LexLess(rows[i].date, rows[j].date)
  }

  lemma LexLessTransitive(a: string, b: string, c: string)
    requires LexLess(a, b) && LexLess(b, c)
    ensures LexLess(a, c)
  {
    LexLeTransitive(a, b, c);
    if a == c {
      LexLeAntisymmetric(a, b);
    }
  }

  /** Places `r` among rows ordered by date. */
  function InsertByDate(rows: seq<ExchangeRate>, r: ExchangeRate): (s: seq<ExchangeRate>)
    ensures forall x :: x in s <==> x in rows || x == r
    ensures |s| == |rows| + 1
  {
    if rows == [] then [r]
    else if LexLe(r.date, rows[0].date) then [r] + rows
    else [rows[0]] + InsertByDate(rows[1..], r)
  }

  /** Inserting a record of a new date keeps the rows ordered. */
  lemma {:induction false} InsertByDateAscending(rows: seq<ExchangeRate>, r: ExchangeRate)
    requires Ascending(rows) && forall x :: x in rows ==> x.date != r.date
    ensures Ascending(InsertByDate(rows, r))
  {
    if rows != [] {
      var s := InsertByDate(rows, r);
      if LexLe(r.date, rows[0].date) {
        forall i, j | 0 <= i < j < |s| ensures LexLess(s[i].date, s[j].date) {
          if i == 0 && j > 1 {
            LexLessTransitive(r.date, rows[0].date, rows[j - 1].date);
          }
        }
      } else {
        LexLeTotal(r.date, rows[0].date);
        var rest := rows[1..];
        assert Ascending(rest) by {
          forall i, j | 0 <= i < j < |rest| ensures LexLess(rest[i].date, rest[j].date) {
            assert rest[i] == rows[i + 1] && rest[j] == rows[j + 1];
          }
        }
        InsertByDateAscending(rest, r);
        var tail := InsertByDate(rest, r);
        forall j | 0 <= j < |tail| ensures LexLess(rows[0].date, tail[j].date) {
          assert tail[j] in tail;
          if tail[j] != r {
            var k :| 0 <= k < |rest| && rest[k] == tail[j];
            assert rest[k] == rows[k + 1];
          }
        }
        assert s == [rows[0]] + tail;
      }
    }
  }

  /** The query `session.query(ExchangeRate).filter(...).order_by(ExchangeRate.date.asc())`:
      the stored records the filter selects, each once, ordered by date. */
  method QueryRange(t: Table, pair: string, lo: string, hi: string) returns (rows: seq<ExchangeRate>)
    requires TableValid(t)
    ensures Ascending(rows)
    ensures forall r :: r in rows <==> Selected(t, pair, lo, hi, r)
  {
    rows := [];
    var remaining := t.rows.Keys;
    while remaining != {}
      invariant remaining <= t.rows.Keys
      invariant Ascending(rows)
      invariant forall r :: r in rows <==> Selected(t, pair, lo, hi, r) && KeyOf(r) !in remaining
      decreases |remaining|
    {
      var k :| k in remaining;
      remaining := remaining - {k};
      var r := t.rows[k].rate;
      assert KeyOf(r) == k;
      if InRange(r, pair, lo, hi) {
        forall x | x in rows ensures x.date != r.date {
          assert KeyOf(x) != k;
        }
        InsertByDateAscending(rows, r);
        rows := InsertByDate(rows, r);
      }
    }
  }

  /** The response's `data` is the series of the stored records in range: one point per
      record, carrying its date and closing rate, oldest first. */
  predicate Answers(t: Table, pair: string, lo: string, hi: string, data: seq<DataPoint>) {
    && (forall i, j :: 0 <= i < j < |data| ==> LexLess(data[i].date, data[j].date))
    && (forall k :: k in t.rows && InRange(t.rows[k].rate, pair, lo, hi) ==>
          DataPoint(k.date, t.rows[k].rate.closeRate) in data)
    && (forall p :: p in data ==>
          Key(pair, p.date) in t.rows && InRange(t.rows[Key(pair, p.date)].rate, pair, lo, hi)
          && p.rate == t.rows[Key(pair, p.date)].rate.closeRate)
  }

  /** What the endpoint reads from a request before it queries: the defaults filled in, the
      pair's ticker and the two bounds of the date filter. */
  datatype Query = Query(fromCurrency: string, toCurrency: string, period: string, amount: real,
                         pair: string, lo: string, hi: string)

  /** Either the response of a request that fails before the query, or the query to run. */
  datatype Prepared = Reject(response: ForexResponse) | Run(query: Query)

  /** The steps of `get_forex_data()` before the query: the defaults, `parse_period` (whose
      `ValueError` is answered with 400 and its text) and `now - delta` (whose
      `OverflowError` is answered with 500). */
  function PrepareQuery(req: ForexRequest, now: DateTime): (p: Prepared)
    requires ValidDateTime(now)
    ensures var period := OrDefault(req.period, "1W");
      && (ParsePeriod(period).Err? ==> p == Reject(BadRequest(ParsePeriod(period).message)))
      && (ParsePeriod(period).Ok? && MinusDays(now, ParsePeriod(period).value).None? ==> p == Reject(InternalError))
      && (p.Run? <==> ParsePeriod(period).Ok? && MinusDays(now, ParsePeriod(period).value).Some?)
    ensures p.Run? ==>
      && p.query.fromCurrency == OrDefault(req.fromCurrency, "AED")
      && p.query.toCurrency == OrDefault(req.toCurrency, "INR")
      && p.query.period == OrDefault(req.period, "1W")
      && p.query.amount == OrDefault(req.amount, 1.0)
      && p.query.pair == PairId(p.query.fromCurrency, p.query.toCurrency)
      && p.query.hi == IsoDate(now.date)
      && p.query.lo == IsoDate(MinusDays(now, ParsePeriod(p.query.period).value).value.date)
  {
    var fromCurrency := OrDefault(req.fromCurrency, "AED");
    var toCurrency := OrDefault(req.toCurrency, "INR");
    var period := OrDefault(req.period, "1W");
    var delta := ParsePeriod(period);
    if delta.Err? then Reject(BadRequest(delta.message))
    else
      var startDate := MinusDays(now, delta.value);
      if startDate.None? then Reject(InternalError)
      else Run(Query(fromCurrency, toCurrency, period, OrDefault(req.amount, 1.0),
                     PairId(fromCurrency, toCurrency), IsoDate(startDate.value.date), IsoDate(now.date)))
  }

  /** A response that answers query `q` on table `t`: 404 exactly when no stored record is in
      range; otherwise 200 with the series, the latest closing rate and the converted amount
      (none when the amount is zero). */
  predicate Serves(t: Table, q: Query, resp: ForexResponse) {
    && (resp.Found? || resp.NotFound?)
    && (resp.NotFound? <==> forall k :: k in t.rows ==> !InRange(t.rows[k].rate, q.pair, q.lo, q.hi))
    && (resp.Found? ==>
          && resp.fromCurrency == q.fromCurrency && resp.toCurrency == q.toCurrency && resp.period == q.period
          && resp.data != []
          && Answers(t, q.pair, q.lo, q.hi, resp.data)
          && resp.currentRate == resp.data[|resp.data| - 1].rate
          && resp.convertedAmount == Converted(q.amount, resp.currentRate))
  }

  /** `converted_amount`: the amount at the latest rate, or `None` when the amount is zero
      (falsy). */
  function Converted(amount: real, rate: real): (c: Option<real>)
    ensures c.None? <==> amount == 0.0
    ensures c.Some? ==> c.value == amount * rate
  {
    if amount != 0.0 then Some(amount * rate) else None
  }

  /** The response's `data`: each record's date and closing rate, in the rows' order. */
  function Series(rows: seq<ExchangeRate>): (data: seq<DataPoint>)
    ensures |data| == |rows|
    ensures forall i :: 0 <= i < |rows| ==> data[i] == DataPoint(rows[i].date, rows[i].closeRate)
    ensures Ascending(rows) ==> forall i, j :: 0 <= i < j < |data| ==> LexLess(data[i].date, data[j].date)
  {
    seq(|rows|, i requires 0 <= i < |rows| => DataPoint(rows[i].date, rows[i].closeRate))
  }

  /** `get_forex_data()`, with the request's body and the clock as parameters. A query that
      raises (`queryFault`, e.g. no table yet because no scraper has run `create_all`) is
      answered with 500. */
  method GetForexData(t: Table, req: ForexRequest, now: DateTime, queryFault: Option<StoreFault>)
    returns (resp: ForexResponse)
    requires TableValid(t) && ValidDateTime(now)
    ensures PrepareQuery(req, now).Reject? ==> resp == PrepareQuery(req, now).response
    ensures PrepareQuery(req, now).Run? && queryFault.Some? ==> resp == InternalError
    ensures PrepareQuery(req, now).Run? && queryFault.None? ==> Serves(t, PrepareQuery(req, now).query, resp)
  {
    var prepared := PrepareQuery(req, now);
    if prepared.Reject? {
      return prepared.response;
    }
    if queryFault.Some? {
      // the query raised; the generic handler answers 500
      return InternalError;
    }
    var q := prepared.query;
    var data := QueryRange(t, q.pair, q.lo, q.hi);
    if data == [] {
      NothingInRange(t, q, data);
      return NotFound;
    }
    var latestRate := data[|data| - 1].closeRate;
    resp := Found(q.fromCurrency, q.toCurrency, q.period, Series(data), latestRate, Converted(q.amount, latestRate));
    SeriesServes(t, q, data, resp);
  }

  lemma NothingInRange(t: Table, q: Query, rows: seq<ExchangeRate>)
    requires TableValid(t)
    requires forall r :: r in rows <==> Selected(t, q.pair, q.lo, q.hi, r)
    requires rows == []
    ensures Serves(t, q, NotFound)
  {
    forall k | k in t.rows ensures !InRange(t.rows[k].rate, q.pair, q.lo, q.hi) {
      assert KeyOf(t.rows[k].rate) == k;
      assert t.rows[k].rate !in rows;
    }
  }

  lemma SeriesServes(t: Table, q: Query, rows: seq<ExchangeRate>, resp: ForexResponse)
    requires TableValid(t)
    requires Ascending(rows) && forall r :: r in rows <==> Selected(t, q.pair, q.lo, q.hi, r)
    requires rows != [] && resp.Found?
    requires resp.fromCurrency == q.fromCurrency && resp.toCurrency == q.toCurrency && resp.period == q.period
    requires resp.data == Series(rows)
    requires resp.currentRate == rows[|rows| - 1].closeRate
    requires resp.convertedAmount == Converted(q.amount, resp.currentRate)
    ensures Serves(t, q, resp)
  {
    SeriesAnswers(t, q.pair, q.lo, q.hi, rows, resp.data);
  }

  /** The points of the query's rows answer the request. */
  lemma SeriesAnswers(t: Table, pair: string, lo: string, hi: string, rows: seq<ExchangeRate>, data: seq<DataPoint>)
    requires TableValid(t)
    requires Ascending(rows) && forall r :: r in rows <==> Selected(t, pair, lo, hi, r)
    requires |data| == |rows| && forall i :: 0 <= i < |rows| ==> data[i] == DataPoint(rows[i].date, rows[i].closeRate)
    ensures Answers(t, pair, lo, hi, data)
    ensures rows != [] ==> exists k :: k in t.rows && InRange(t.rows[k].rate, pair, lo, hi)
  {
    forall k | k in t.rows && InRange(t.rows[k].rate, pair, lo, hi)
      ensures DataPoint(k.date, t.rows[k].rate.closeRate) in data
    {
      var r := t.rows[k].rate;
      assert KeyOf(r) == k;
      assert Selected(t, pair, lo, hi, r);
      var i :| 0 <= i < |rows| && rows[i] == r;
      assert data[i] == DataPoint(r.date, r.closeRate);
    }
    forall p | p in data
      ensures Key(pair, p.date) in t.rows && InRange(t.rows[Key(pair, p.date)].rate, pair, lo, hi)
      ensures p.rate == t.rows[Key(pair, p.date)].rate.closeRate
    {
      var i :| 0 <= i < |data| && data[i] == p;
      assert rows[i] in rows;
      assert KeyOf(rows[i]) == Key(pair, p.date);
    }
    if rows != [] {
      assert rows[0] in rows;
      assert KeyOf(rows[0]) in t.rows;
    }
  }

  /** `latest_rate = forex_data[-1]['rate']`: the current rate is the closing rate of the most
      recent stored record in range. */
  lemma LatestIsMostRecent(t: Table, q: Query, resp: ForexResponse)
    requires Serves(t, q, resp) && resp.Found?
    ensures var last := resp.data[|resp.data| - 1];
      && Key(q.pair, last.date) in t.rows
      && InRange(t.rows[Key(q.pair, last.date)].rate, q.pair, q.lo, q.hi)
      && resp.currentRate == t.rows[Key(q.pair, last.date)].rate.closeRate
      && forall k :: k in t.rows && InRange(t.rows[k].rate, q.pair, q.lo, q.hi) ==> LexLe(k.date, last.date)
  {
    var data := resp.data;
    var n := |data|;
    assert data[n - 1] in data;
    forall k | k in t.rows && InRange(t.rows[k].rate, q.pair, q.lo, q.hi)
      ensures LexLe(k.date, data[n - 1].date)
    {
      var p := DataPoint(k.date, t.rows[k].rate.closeRate);
      var i :| 0 <= i < n && data[i] == p;
      if i == n - 1 {
        LexLeReflexive(p.date);
      }
    }
  }

  /** On `YYYY-MM-DD` strings the text order of the query is the calendar's: on a table whose
      dates are such strings, a 200 response's series runs forward in time, one point per day,
      every point between the first day of the period and today (the bounds `PrepareQuery`
      renders). */
  lemma SeriesIsChronological(t: Table, q: Query, start: Date, today: Date, resp: ForexResponse)
    requires ValidDate(start) && ValidDate(today) && q.lo == IsoDate(start) && q.hi == IsoDate(today)
    requires TableValid(t) && forall k :: k in t.rows ==> IsIsoDate(k.date)
    requires Serves(t, q, resp) && resp.Found?
    ensures forall i :: 0 <= i < |resp.data| ==> IsIsoDate(resp.data[i].date)
    ensures forall i, j :: 0 <= i < j < |resp.data| ==>
      && IsIsoDate(resp.data[i].date) && IsIsoDate(resp.data[j].date)
      && DateLess(IsoFields(resp.data[i].date), IsoFields(resp.data[j].date))
    ensures forall i :: 0 <= i < |resp.data| ==>
      && IsIsoDate(resp.data[i].date)
      && DateLe(start, IsoFields(resp.data[i].date)) && DateLe(IsoFields(resp.data[i].date), today)
  {
    var data := resp.data;
    forall i | 0 <= i < |data|
      ensures IsIsoDate(data[i].date) && LexLe(q.lo, data[i].date) && LexLe(data[i].date, q.hi)
    {
      assert data[i] in data;
      var k := Key(q.pair, data[i].date);
      assert k in t.rows && KeyOf(t.rows[k].rate) == k;
    }
    IsoSeriesIsChronological(data);
    IsoSeriesWithin(data, start, today);
  }

  lemma IsoSeriesIsChronological(data: seq<DataPoint>)
    requires forall i :: 0 <= i < |data| ==> IsIsoDate(data[i].date)
    requires forall i, j :: 0 <= i < j < |data| ==> LexLess(data[i].date, data[j].date)
    ensures forall i, j :: 0 <= i < j < |data| ==>
      && IsIsoDate(data[i].date) && IsIsoDate(data[j].date)
      && DateLess(IsoFields(data[i].date), IsoFields(data[j].date))
  {
    forall i, j | 0 <= i < j < |data|
      ensures IsIsoDate(data[i].date) && IsIsoDate(data[j].date) && DateLess(IsoFields(data[i].date), IsoFields(data[j].date))
    {
      var a, b := data[i].date, data[j].date;
      IsoFieldsRoundTrip(a);
      IsoFieldsRoundTrip(b);
      IsoOrderIsChronological(IsoFields(a), IsoFields(b));
    }
  }

  lemma IsoSeriesWithin(data: seq<DataPoint>, start: Date, today: Date)
    requires ValidDate(start) && ValidDate(today)
    requires forall i :: 0 <= i < |data| ==>
      IsIsoDate(data[i].date) && LexLe(IsoDate(start), data[i].date) && LexLe(data[i].date, IsoDate(today))
    ensures forall i :: 0 <= i < |data| ==>
      && IsIsoDate(data[i].date)
      && DateLe(start, IsoFields(data[i].date)) && DateLe(IsoFields(data[i].date), today)
  {
    forall i | 0 <= i < |data|
      ensures IsIsoDate(data[i].date) && DateLe(start, IsoFields(data[i].date)) && DateLe(IsoFields(data[i].date), today)
    {
      IsoCompareIsChronological(start, data[i].date);
      IsoCompareIsChronological(today, data[i].date);
    }
  }

  /** The two endpoints disagree about the first day of a period. The query compares date
      texts and so includes a record dated on that day; `process_single_pair` compares the
      record's midnight with `now - delta`, which keeps the time of day, and so counts it only
      when the clock reads exactly midnight. */
  lemma StartDayQueriedButCountedOnlyAtMidnight(r: ExchangeRate, now: DateTime, days: nat)
    requires ValidDateTime(now) && MinusDays(now, days).Some?
    requires IsIsoDate(r.date) && IsoFields(r.date) == MinusDays(now, days).value.date
    ensures InRange(r, r.currencyPair, IsoDate(MinusDays(now, days).value.date), IsoDate(now.date))
    ensures CountSince([r], MinusDays(now, days).value) == (if now.sinceMidnight == 0 then 1 else 0)
  {
    var start := MinusDays(now, days).value;
    IsoFieldsRoundTrip(r.date);
    LexLeReflexive(r.date);
    IsoOrderIsChronological(start.date, now.date);
    StartDayCountsOnlyAtMidnight(r, start);
  }
}
