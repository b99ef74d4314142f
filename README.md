# ForexAPI core in Dafny

A model of the core of ForexAPI, a small Flask service. It keeps a SQLite table of daily
exchange rates for two currency pairs, scraped from Yahoo Finance's history pages. The model
covers four parts of that core.

- **The scraper**, `ExchangeRateScraper`:
  - the planning of a request into windows of at most ninety days;
  - the retrying HTTP fetch and the 32-entry LRU cache in front of it;
  - the parsing of the history table's rows into records;
  - the upsert of those records under the `(currency_pair, date)` constraint;
  - the per-window fetch-parse-save task, and the joining of the raw texts.
- **The API**:
  - `parse_period`;
  - `process_single_pair` and its per-period counts;
  - `sync_forex_data`, which merges both pairs' results;
  - `get_forex_data`: the stored closing rates of a pair over a period, oldest first, with
    the latest rate and a converted amount.
- **The record and table**: `ExchangeRate`, its unique key and its auto-incremented id.

## How the parts are modelled

The pure code is datatypes, functions and lemmas. Code that changes state step by step is
imperative Dafny, proved against those functions:

- `Fetch.FetchCache` is a class whose `GetOrFetch` updates the LRU order and entries.
- `Store.Database` is a class whose `SaveToDatabase` runs the session over a working copy
  and publishes it at commit.
- `Scraper.ExchangeRateScraper` is a class whose methods drive the database and the cache.
- The loops become methods with invariants: planning, retry, row parsing, saving, counting
  the periods, merging the sync results and the range query.

Everything outside the process is a parameter:

- the network's answer to each attempt;
- BeautifulSoup's row and cell extraction, and Python's `float()`;
- the database failure, if any, that strikes a save;
- the clock. Each pair of the sync reads it in its own thread, so the two readings may
  differ;
- the order in which futures complete;
- the identity of each new `ExchangeRateScraper`, which is part of the key of the
  `lru_cache` on `_fetch_chunk` (its `self` argument). The two pairs' scrapers have
  different identities.

Modules: `Wrappers`, `Text`, `Dates`, `ExchangeRateModel`, `ChunkPlanner`, `Fetch`,
`Parser`, `Store`, `Scraper`, `Routes`.

## Where the code differs from its documentation

The model follows the code in each of these cases.

- `get_exchange_data` with `from >= to` plans no windows and returns `None`. It raises no
  error.
- The windows are `[f, f + 7776000]`, with the next one starting a second after the end.
  There are `ceil((to - from) / 7776001)` of them. When `to - from` is a multiple of 7776001,
  the last window ends at `to - 1` (`ChunkPlanner.FinalSecondDropped`).
- `lru_cache` caches every return of `_fetch_chunk`, `None` included.
- The retry loop sleeps only after an exception. A non-200 response is retried at once.
- The retry count used is the `max_retries=3` default; `config.py`'s `MAX_RETRIES` is not
  read.
- The sync's period counts compare each record's midnight with `now - delta`. So a record
  dated on the first day of a period counts only when the clock reads exactly midnight. The
  API's query compares date texts and always includes that day
  (`Routes.StartDayQueriedButCountedOnlyAtMidnight`).

## Model

| member | source | states |
|---|---|---|
| ExchangeRateModel.AtMostOneRowPerKey | app/models/exchange_rate.py:35-38 | in a table satisfying the schema, two rows with the same `(currency_pair, date)` are the same row |
| Text.Strip | app/services/scraper.py:182 | the result is no longer than the input, and neither of its ends is Python white space |
| Text.StripPadded | app/services/scraper.py:182 | stripping removes exactly the white-space padding around a core without white space at its ends |
| Text.StripUnpadded | app/services/scraper.py:189 | a cell text without padding strips to itself |
| Text.RemoveCommas | app/services/scraper.py:197-202 | the result has no comma and keeps every other character with its multiplicity |
| Text.RemoveCommasNoComma | app/services/scraper.py:197-202 | a text without commas is unchanged |
| Text.AsciiUpper | app/api/routes.py:47 | same length; no lower-case ASCII letter is left; each character is kept or is its letter's upper case |
| Text.AsciiUpperIdempotent | app/api/routes.py:47 | upper-casing twice is upper-casing once |
| Text.LexLeReflexive | app/api/routes.py:80-82 | the text order used by the SQL filter and `ORDER BY date` is reflexive |
| Text.LexLeTotal | app/api/routes.py:80-82 | the text order is total |
| Text.LexLeAntisymmetric | app/api/routes.py:80-82 | the text order is antisymmetric |
| Text.LexLeTransitive | app/api/routes.py:80-82 | the text order is transitive |
| Text.LexLeConcat | app/api/routes.py:80-82 | comparing two concatenations whose first parts have equal length compares the first parts, then the second parts |
| Text.Digits | app/services/scraper.py:186 | `strftime`'s zero-padded fields have exactly the width asked for and are all digits |
| Text.ValueOf | app/api/routes.py:208 | the value read from a digit string is below 10 to the power of its length |
| Text.ValueOfDigits | app/api/routes.py:208 | reading back a fixed-width rendering gives the number |
| Text.DigitsValueOf | app/api/routes.py:208 | rendering the value of a digit string at its width gives the string back |
| Text.DigitsLe | app/api/routes.py:80-82 | fixed-width renderings compare as text exactly as the numbers compare, and are equal exactly when the numbers are |
| Dates.DaysInMonth | app/services/scraper.py:186 | between 28 and 31 days; 29 exactly for February of a leap year |
| Dates.MonthFromAbbreviation | app/services/scraper.py:186 | `%b` matches the twelve abbreviations without regard to case, and nothing else |
| Dates.ParseYahooDate | app/services/scraper.py:186 | a date read with `'%b %d, %Y'` exists and has the month that the text's first three letters name |
| Dates.AfterMonth | app/services/scraper.py:186 | a date is read only after a recognised month followed by white space, and it has that month |
| Dates.AfterDay | app/services/scraper.py:186 | a date is read only when a day and its comma were read and white space follows them; it has the month given and the day read |
| Dates.YearEnding | app/services/scraper.py:186 | a date comes exactly when the rest is four digits that, with the month and day, name a date that exists; it is that year, month and day |
| Dates.YahooDateRoundTrip | app/services/scraper.py:186 | every date written the way Yahoo writes it ("Jan 5, 2024") is read back as that date |
| Dates.YahooTextRead | app/services/scraper.py:186 | text in Yahoo's layout is read as the date its fields name, and rejected when they name none ("Feb 30, 2023", "Feb 29, 2023") |
| Dates.IsoDate | app/services/scraper.py:186 | `strftime('%Y-%m-%d')` gives ten characters |
| Dates.IsoDateRoundTrip | app/services/scraper.py:186 | writing a date as `YYYY-MM-DD` gives a valid ISO text, and reading it gives the date back |
| Dates.IsoFieldsRoundTrip | app/api/routes.py:208 | reading a `YYYY-MM-DD` text and writing it back gives the text |
| Dates.IsoOrderIsChronological | app/api/routes.py:80-82 | on rendered dates, text order is calendar order, and equal texts mean equal dates |
| Dates.IsoCompareIsChronological | app/api/routes.py:78-82 | comparing a stored ISO text with a rendered bound, in either direction, compares the dates |
| Dates.DaysBeforeMonthMonotone | app/api/routes.py:172 | the days before a month never decrease through the year |
| Dates.DaysBeforeYearMonotone | app/api/routes.py:172 | the days before a later year include every day of an earlier one |
| Dates.EarlierDayNumber | app/api/routes.py:172 | an earlier date has a smaller day number |
| Dates.DayNumberOrder | app/api/routes.py:172 | day numbers (`toordinal`) order dates as the calendar does, and differ for different dates |
| Dates.PrevDay | app/api/routes.py:71 | the day before is a valid date whose day number is one less; there is none before 0001-01-01 |
| Dates.PrevDayIsAdjacent | app/api/routes.py:71 | no date lies strictly between a date and the day before it |
| Dates.SubtractDays | app/api/routes.py:172 | going back `n` days gives the valid date whose day number is `n` less; `None`, for `OverflowError`, exactly when that number would be below 1 |
| Dates.SubtractDaysMonotone | app/api/routes.py:204-205 | going further back gives an earlier or equal date, and is possible whenever going back further is |
| ChunkPlanner.PlanChunks | app/services/scraper.py:64-72 | the loop produces exactly the recursive window sequence |
| ChunkPlanner.ChunksClosedForm | app/services/scraper.py:64-72 | there are `ceil((to - from) / 7776001)` windows, the `i`-th starting at `from + i * 7776001` |
| ChunkPlanner.EmptyRangeNoChunks | app/services/scraper.py:69 | `from >= to` plans no windows |
| ChunkPlanner.ChunksWellFormed | app/services/scraper.py:64-72 | the count; the first start; every window inside `[from, to]` and at most ninety days long; consecutive windows one second apart and all but the last full; the last ends at `to`, or at `to - 1` exactly when the span is a multiple of the stride |
| ChunkPlanner.LastWindow | app/services/scraper.py:70 | the last window ends at `to`, or at `to - 1` exactly when the span is a whole number of strides |
| ChunkPlanner.OneHundredFourDaysTwoChunks | app/services/scraper.py:64-72 | a 104-day request is split into two windows |
| ChunkPlanner.FinalSecondDropped | app/services/scraper.py:70-72 | the request `[0, 7776001]` is planned as the single window `[0, 7776000]` |
| Fetch.FetchDataWithRetry | app/services/scraper.py:130-157 | the loop's result, sleeps and attempt count equal the recursive definition of the retry |
| Fetch.ExceptionDelays | app/services/scraper.py:151-155 | one delay at most per attempt in the range |
| Fetch.RetryReturnsFirstSuccess | app/services/scraper.py:145-147 | the first 200 response within the attempts is returned, after sleeping `2^j` for each earlier attempt `j` that raised |
| Fetch.RetryWithoutSuccess | app/services/scraper.py:135-157 | with no 200 response, every attempt is made; the last exception is re-raised, or `None` is returned when the last attempt got a response |
| Fetch.RetryBounded | app/services/scraper.py:135 | between one and `max_retries` attempts, with fewer sleeps than attempts; none at all when `max_retries <= 0` |
| Fetch.NoDelayWithoutException | app/services/scraper.py:146-155 | responses other than 200 never cause a sleep |
| Fetch.TwoExceptionsThenSuccess | app/services/scraper.py:151-155 | two exceptions and then a 200: the text after sleeping 1 s and 2 s, in three attempts |
| Fetch.ThreeExceptionsReraise | app/services/scraper.py:152-153 | three exceptions: the third is re-raised after sleeping 1 s and 2 s |
| Fetch.ChunkDataFirstSuccess | app/services/scraper.py:119-128 | `_fetch_chunk` returns text exactly when some attempt gets a 200, and then the first such body |
| Fetch.FetchChunk | app/services/scraper.py:119-128 | a cache miss returns the retry's text, or `None` where it returned `None` or raised, and sleeps as the retry does |
| Fetch.Without | app/services/scraper.py:119 | removing a key from the recency order keeps every other key, and shortens a duplicate-free order by one exactly when the key was there |
| Fetch.FetchCache.constructor | app/services/scraper.py:119 | the cache starts empty |
| Fetch.LruStep | app/services/scraper.py:119 | after a call its key is the most recently used and holds the cached value, or on a miss the fetched one; no other entry is added or changed; a miss on a full cache evicts the least recently used key and keeps every other entry; otherwise no entry is lost; the keys kept stay in their recency order; on a duplicate-free order, the new order holds exactly the key and the kept keys |
| Fetch.WithoutKeepsOrder | app/services/scraper.py:119 | removing a key from the recency order keeps the other keys in their relative order |
| Fetch.FetchCache.GetOrFetch | app/services/scraper.py:119-128 | a hit returns the cached value (even `None`) without fetching or sleeping; a miss fetches and sleeps as the retry does; the new order and entries are `LruStep`'s; the cached value always equals what a fetch would return |
| Parser.DropUnderscores | app/services/scraper.py:202 | the underscores `int()` allows between digits are removed and nothing else is |
| Parser.DropUnderscoresCons | app/services/scraper.py:202 | an underscore is dropped and any other character kept, one character at a time |
| Parser.DropUnderscoresAppend | app/services/scraper.py:202 | dropping underscores from two texts one after the other is dropping them from each |
| Parser.IntStrip | app/services/scraper.py:202 | neither end of what `int()` reads is white space that `int()` skips |
| Parser.IntStripSlice | app/services/scraper.py:202 | what `int()` reads is a slice of the text with only skippable white space around it |
| Parser.PyInt | app/services/scraper.py:202 | `int()` fails on a text that is empty once the white space it skips is removed |
| Parser.PyIntUnderscore | app/services/scraper.py:202 | one underscore between two runs of digits is ignored: "1_000" reads as 1000 |
| Parser.PyIntAlphabet | app/services/scraper.py:202 | a text `int()` accepts holds only digits, underscores, signs and skippable white space, so "1.5" fails |
| Parser.PyIntNoDoubleUnderscore | app/services/scraper.py:202 | a text `int()` accepts has no two underscores in a row, so "1__0" fails |
| Parser.PyIntUnsigned | app/services/scraper.py:202 | `int()` of a run of digits is its value |
| Parser.PyIntNegative | app/services/scraper.py:202 | `int()` of `-` followed by digits is minus their value |
| Parser.PyIntDigits | app/services/scraper.py:202 | `int()` reads back any zero-padded rendering of a natural number |
| Parser.VolumeWithThousandsSeparator | app/services/scraper.py:202 | the volume "1,234" reads as 1234 |
| Parser.Volume | app/services/scraper.py:202-203 | a volume cell that strips to `-` reads as 0 |
| Parser.RowDate | app/services/scraper.py:182-186 | a blank first cell gives no date; a date read from it exists and is `strptime` of its stripped text |
| Parser.RowPrices | app/services/scraper.py:197-201 | the prices are read exactly when `float()` accepts each of cells 1 to 5 without commas; open, high, low, close and adjusted close are cells 1 to 5 in that order |
| Parser.ParseRow | app/services/scraper.py:178-209 | a row yields a record exactly when it has at least 7 cells, a readable date, no placeholder among cells 1 to 5, and readable prices and volume; the record has the pair, the date rendered as `YYYY-MM-DD`, the five prices from cells 1 to 5 and cell 6's volume |
| Parser.BlankDateUnreadable | app/services/scraper.py:182-186 | the date cell is `strptime` of its stripped text, which rejects a blank cell as it rejects any unreadable one |
| Parser.PlaceholderDropsRow | app/services/scraper.py:189-192 | a placeholder in any price cell drops the row, whatever the other cells hold |
| Parser.DashVolumeIsZero | app/services/scraper.py:202-203 | a kept row whose volume is `-` has volume 0 |
| Parser.Present | app/services/scraper.py:205 | keeping only the successful rows never lengthens the list |
| Parser.PresentExact | app/services/scraper.py:205-209 | a record is kept exactly when some row produced it |
| Parser.RowResults | app/services/scraper.py:178 | one result per row |
| Parser.ParsedRows | app/services/scraper.py:177-209 | no more records than rows |
| Parser.ParsedRowsAppend | app/services/scraper.py:178-209 | the rows are handled independently, in order |
| Parser.ParsedRowsExact | app/services/scraper.py:178-209 | every record comes from a row, carries the pair and an ISO date; every row that parses contributes its record |
| Parser.ParsedTable | app/services/scraper.py:159-216 | a parse that succeeds has records and came from non-empty content |
| Parser.ParsedTableRecords | app/services/scraper.py:194-196 | every parsed record carries the requested pair and a `YYYY-MM-DD` date |
| Parser.ParsedRowsEmpty | app/services/scraper.py:211-213 | no records exactly when no row yields one |
| Parser.ParsedTableNone | app/services/scraper.py:166-175 | `None` exactly for empty content, no rows, or no row that parses |
| Parser.ParseExchangeData | app/services/scraper.py:159-216 | the loop's result equals the parse function |
| Store.Upsert | app/services/scraper.py:228-233 | the record's key is present and holds the record; every other row is unchanged |
| Store.UpsertValid | app/models/exchange_rate.py:25-38 | an upsert keeps ids positive, unique and below the next id, and each row under its own key |
| Store.LastFor | app/services/scraper.py:227-233 | the last record with a key is in the batch and has that key; there is none exactly when no record has it |
| Store.LastForIsLastIndex | app/services/scraper.py:227-233 | the record at the last position holding a key is that key's last record |
| Store.UpsertAllRow | app/services/scraper.py:227-234 | per key: untouched keys keep their row; a touched key holds its last record, keeping the old id and `created_at` if it existed, or getting a new id and `created_at = now` if not |
| Store.UpsertAllNextId | app/models/exchange_rate.py:25 | ids only grow; none is handed out when every key already exists; no key disappears |
| Store.UpsertAllValid | app/models/exchange_rate.py:25-38 | the schema's guarantees survive a batch |
| Store.LastWriteWins | app/services/scraper.py:227-233 | the last record for a key is what the table holds |
| Store.KeysOutsideUntouched | app/services/scraper.py:229-231 | keys the batch does not mention are untouched |
| Store.UpsertAllConcat | app/services/scraper.py:227-233 | saving `a + b` equals saving `a` and then `b` |
| Store.SaveTwiceIsSaveOnce | app/services/scraper.py:228-232 | saving the same batch again, at any later time, changes nothing |
| Store.Save | app/services/scraper.py:218-243 | an empty batch changes nothing; a failing statement or commit leaves the table as it was and re-raises its error; otherwise every upsert is committed |
| Store.Database.constructor | app/services/scraper.py:40 | a new database has the empty table |
| Store.Database.SaveToDatabase | app/services/scraper.py:218-243 | the outcome and the new table are those of `Save`, and the table stays valid |
| Scraper.ChunkTask | app/services/scraper.py:102-117 | a task that returns returns the fetched text, whatever its parse gave |
| Scraper.ChunkTaskEffect | app/services/scraper.py:109-117 | the chunk task fails exactly when text came, it parsed, and the save was struck; a failed task leaves the table; otherwise the table is the upsert of the chunk task's saved records |
| Scraper.PartOf | app/services/scraper.py:94-96 | a window contributes at most one text, and never an empty one |
| Scraper.ChunkOutcomeIndependent | app/services/scraper.py:102-117 | a task's outcome does not depend on the table |
| Scraper.TableAfterIsUpsertAll | app/services/scraper.py:91-98 | the table after all tasks is one upsert of all the saved batches in completion order |
| Scraper.JoinLines | app/services/scraper.py:100 | the joined text is at least as long as the first part |
| Scraper.JoinLinesAppend | app/services/scraper.py:100 | joining two non-empty runs of texts puts exactly one line break between their joins |
| Scraper.CacheAfterEntries | app/services/scraper.py:91-96 | the chunk tasks add no cache entry but their own calls', change no value already cached, and leave the last call most recently used |
| Scraper.CollectedOrderIndependent | app/services/scraper.py:91-96 | two completion orders of the same windows collect the same multiset of texts |
| Scraper.PartsOrderIndependent | app/services/scraper.py:77-100 | `all_data` holds the same texts, whatever the completion order |
| Scraper.CollectedEmpty | app/services/scraper.py:95-96 | nothing is collected exactly when no window contributes |
| Scraper.CombinedNone | app/services/scraper.py:100 | `None` exactly when no window returned a non-empty text |
| Scraper.ExchangeRateScraper.constructor | app/services/scraper.py:27-41 | the scraper is bound to its database, cache and world |
| Scraper.ExchangeRateScraper.FetchAndSaveChunk | app/services/scraper.py:102-117 | the outcome and the new table are the chunk task's; the cache takes one `LruStep` for the call |
| Scraper.ExchangeRateScraper.GetExchangeData | app/services/scraper.py:43-100 | the result is the join of the collected texts, or `None`; the table and the cache are those after all tasks in completion order |
| Routes.PeriodLength | app/api/routes.py:39-45 | a length exactly for the five supported keys, each between 7 and 365 days |
| Routes.ParsePeriod | app/api/routes.py:26-53 | accepted exactly when the upper-cased text is a supported period, with a length of 7 to 365 days; otherwise the `ValueError` text quotes the period as given |
| Routes.PeriodLengthsIncrease | app/api/routes.py:39-45 | the supported periods, in order, are strictly longer each time |
| Routes.PeriodsParse | app/api/routes.py:47-49 | each supported period, as written, parses to its length |
| Routes.ParsePeriodIgnoresCase | app/api/routes.py:47 | a period and its upper-cased form are accepted alike and mean the same |
| Routes.PeriodExamples | app/api/routes.py:47-53 | "1y" is a year; "2W" is refused with its own text in the message |
| Routes.PairIdInjective | app/api/routes.py:74 | for currency codes of equal length, the pair symbol determines both codes |
| Routes.MinusDays | app/api/routes.py:172 | subtracting `n` days keeps the time of day and gives the date whose day number is `n` less, an earlier or equal moment; `None`, for `OverflowError`, exactly when that number would be below 1 |
| Routes.MinusDaysMonotone | app/api/routes.py:204-205 | going back fewer days gives a later moment, and is possible when going back more is |
| Routes.CountSince | app/api/routes.py:206-209 | the count never exceeds the records |
| Routes.CountSinceMonotone | app/api/routes.py:206-209 | an earlier start counts at least as many records |
| Routes.CountSinceExtremes | app/api/routes.py:206-209 | records all after the start's day all count; records all before it count none |
| Routes.StartDayCountsOnlyAtMidnight | app/api/routes.py:208 | a record of the start's own day counts only when the start time is midnight |
| Routes.PeriodStart | app/api/routes.py:204-205 | a period's start is valid and no earlier than a year before now |
| Routes.PeriodCountsNested | app/api/routes.py:203-214 | every period is a success, its count is at most the records, and counts grow from one period to the next longer one |
| Routes.PairReport | app/api/routes.py:154-225 | the results have the pair as the one key and all five periods under it |
| Routes.PairReportOutcomes | app/api/routes.py:184-225 | either every period fails with one message, or every period succeeds with nested counts; when no chunk returned text, every period says "Failed to fetch data" |
| Routes.SavedReport | app/api/routes.py:201-225 | once records are parsed, the results still have the pair as the one key and all five periods under it, whether or not the save fails |
| Routes.CountPeriods | app/api/routes.py:203-214 | the loop's counts are the per-period counts |
| Routes.PeriodStartParsed | app/api/routes.py:204-205 | `end_date - parse_period(period)` is the period's start |
| Routes.TextReport | app/api/routes.py:184-225 | once text has come back, the results still have the pair as the one key and all five periods under it |
| Routes.ProcessSinglePair | app/api/routes.py:154-225 | the results are `PairReport` of the world; the table is that after the chunk saves and the final save; the cache is that after the chunk tasks, unchanged when the start date overflows |
| Routes.SaveAndCount | app/api/routes.py:184-216 | after the fetch, the results are `TextReport` of the text and the table is that after saving its parsed records |
| Routes.PairsDistinct | app/api/routes.py:121-124 | the two pairs have different symbols |
| Routes.MergeTwoOrderIndependent | app/api/routes.py:136-140 | two updates with disjoint keys commute, and their merge is the union |
| Routes.SyncResultsOrderIndependent | app/api/routes.py:129-140 | the results are the same whichever future completes first; they hold both pairs, each with its own report |
| Routes.SyncPair | app/api/routes.py:131 | one future's results, table and cache are those of its pair |
| Routes.SyncForexData | app/api/routes.py:115-146 | each pair runs with its own clock reading; the results are the merge in completion order, equal to the merge in submission order; the table and the cache are those after both pairs in completion order |
| Routes.StatusAndError | app/api/routes.py:84-113 | status 200 exactly for a found series, and then no error text; 400 exactly for a bad request, with its message; 404 exactly for an empty range and 500 exactly for an internal error, each with its fixed message |
| Routes.InsertByDate | app/api/routes.py:82 | inserting adds exactly the record and lengthens by one |
| Routes.InsertByDateAscending | app/api/routes.py:82 | inserting a record of a new date keeps the rows in strictly ascending date order |
| Routes.QueryRange | app/api/routes.py:77-82 | the rows are exactly the stored records of the pair with a date between the bounds, each once, in strictly ascending date order |
| Routes.PrepareQuery | app/api/routes.py:60-74 | defaults "AED", "INR", "1W", 1.0; a bad period gives 400 with its `ValueError` text; an overflowing start gives 500; otherwise the pair symbol and the bounds `start` and `now`, as `YYYY-MM-DD` |
| Routes.Converted | app/api/routes.py:92 | no converted amount exactly when the amount is zero; otherwise the amount times the rate |
| Routes.Series | app/api/routes.py:94-97 | one point per row, with its date and closing rate, in row order; rows in ascending date order give points in ascending date order |
| Routes.GetForexData | app/api/routes.py:55-113 | early failures answer as `PrepareQuery` says; a query that raises answers 500; otherwise 404 exactly when nothing is in range, else 200 with every in-range record once, in ascending date order, the last close as the current rate, and the converted amount |
| Routes.LatestIsMostRecent | app/api/routes.py:91 | the current rate is the close of the stored in-range record with the greatest date |
| Routes.SeriesIsChronological | app/api/routes.py:77-97 | on ISO-dated rows the series runs forward in calendar time, every point between the period's first day and today |
| Routes.StartDayQueriedButCountedOnlyAtMidnight | app/api/routes.py:80-82 | a record dated on a period's first day is selected by the API query, but counted by the sync only when the clock reads midnight |

## Left out

- HTTP, the `User-Agent` header, the URL and `requests.get` are left out. The answer to each
  attempt is a parameter.
- `time.sleep` is left out. The delays asked for are returned instead.
- BeautifulSoup's row and cell selection, and Python's `float()`, are parameters.
- Python floats are reals. Rounding, NaN and infinities are left out.
- Threads are not modelled as concurrency. The scraper's chunk futures and the sync's two pair
  futures run one after the other, in a completion order given as a parameter. Interleaved
  saves and cache updates of concurrent tasks are not modelled.
- `created_at` takes one clock reading per world (`World.now`) for every save, rather than one
  per insert.
- SQLAlchemy and SQLite internals are left out: the session and engine, the connection pool,
  the 30-second lock timeout and `session.close`. A failing statement or commit in a save, and a
  failing query in `get_forex_data` (for instance on a missing table), is an injected
  `StoreFault`.
- Logging is left out.
- `__repr__` of the record is left out.
- Flask request handling is left out: a non-JSON body, non-string field values, and the
  `ValueError` of `float()` on the amount (which the handler turns into a 400). The request's
  fields arrive already decoded, the amount as a real.
- The JSON rendering of the responses is left out.
- `int(from_date)` and `int(to_date)` in `get_exchange_data` take integers. Each pair's window
  bounds are the epoch `nowEpoch - 365 * 86400` and `nowEpoch` of its own clock reading. The conversion of local time
  to timestamps is left out, together with daylight-saving shifts and
  `datetime.fromtimestamp`.
- `Text.AsciiUpper`: upper-cases ASCII letters only. Non-ASCII case mapping is left out; it
  never makes a period text match one of the five keys.
- `Parser.PyInt`: reads ASCII digits only. Unicode digits and the 4300-digit limit of `int()`
  are left out.
- `Dates.ParseYahooDate`: reads ASCII digits only. `strptime` also accepts other Unicode
  decimal digits in `%d` and `%Y`.
- `Dates.IsoDate`: pads years to four digits. C libraries that do not pad years below 1000
  would differ.
- The `except` of `sync_forex_data` is not modelled. `process_single_pair` catches every
  exception itself, so no future raises.
- `lru_cache` never refreshes an entry: it keeps returning what the first call returned,
  `None` included, however stale. The network's answer for a given call is fixed in the model,
  so that staleness cannot be observed here.
