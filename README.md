# stonks: a Dafny model of the price updater

stonks keeps a Google Sheet of stock prices current. The first row of the
sheet holds ticker symbols. At interval boundaries during market hours the
updater looks up a quote for each ticker with bounded retries. As written, a
cycle that takes any time makes the next boundary's check decline, so
cycles run every second interval (see "## Findings"). It writes
the prices into the price row, numbering the columns over the ticker row with
its blank cells removed, then writes the CAD exchange rate and a timestamp.
Two generations of the program exist:

- the refactored application (`scheduler.py`, `stock_fetcher.py`,
  `sheets_client.py`, `main.py`);
- the original single script (`getStock.py`).

Both are modelled here:

| module | models |
|---|---|
| `Common` (common.dfy) | Python's `str.strip()` and ASCII `str.upper()`. |
| `Clock` (clock.dfy) | Local time as whole seconds, and its hour, minute and second fields. |
| `Scheduler` (scheduler.dfy) | `UpdateScheduler` as a class. `last_update` is the field `lastUpdate`. The market-hours test, the wait arithmetic and `should_update` are functions proved against "next boundary" statements. |
| `StockFetcher` (stock_fetcher.dfy) | `_extract_price_from_info`, `get_ticker_price` and `get_multiple_prices`. The quote service is a `Provider`: attempt `n` raises or answers a record. The retry loop is a method that returns the price and the trace of lookups and sleeps. That method is proved equal to the specification function `RetryFrom`. |
| `SheetsClient` (sheets_client.dfy) | `_get_column_letter` (loop), cell addresses, `get_tickers`' cleaning, the batch that `update_prices` builds, and the `update_timestamp` text. |
| `App` (app.dfy) | `StockDataApp`: `_filter_tickers` and `perform_update`. The collaborators' answers (ticker row, quotes, write results, exchange rate, clock) are an `Environment`. The cycle's result and sheet effects equal `CycleSpec`. |
| `GetStock` (get_stock.dfy) | The original script: `waitUntilNextTime` as a number of seconds, `findTickerValue`, and the sweep over the ticker row. A finite script of lookup answers drives the sweep. Running out of answers stands for the script retrying forever. |

Modelling choices:

- Prices are `real`.
- A quote record is a map from field names to `Num(x)`, `NonNumeric` (a value
  `float()` rejects) or `Null` (`None`).
- Instants are integers counting seconds. Dafny's Euclidean `%` and `/`
  give the clock fields for every instant, including negative ones.

Behaviour of the code worth stating up front:

- In `get_ticker_price`, an empty quote record leads to `continue`
  (stock_fetcher.py:38-40), which skips the retry delay at lines 54-56. So
  an empty record is followed by the next lookup without a sleep
  (`SkipsDelay`), while a raised lookup or a record without a price is
  followed by the delay unless it was the last attempt.
- `update_prices` numbers columns by position in the list `get_tickers`
  returns (sheets_client.py:102, 108), which has blank cells removed; see
  "## Findings".
- Nothing in `UpdateScheduler` validates the market-hours configuration;
  the model takes it as the subset type `Window` (`0 <= open < close <= 24`,
  `interval > 0`).

## Model

| member | source | states |
|---|---|---|
| Common.Strip | main.py:54 | the result has no leading or trailing whitespace, is the slice of the input after its leading whitespace, only whitespace follows it, and is empty exactly when the input is all whitespace |
| Common.StripIdempotent | sheets_client.py:78 | stripping twice is stripping once |
| Common.ToUpper | stock_fetcher.py:30 | same length; each character is upper-cased and no lower-case ASCII letter remains |
| Common.ToUpperIdempotent | stock_fetcher.py:30 | upper-casing twice is upper-casing once |
| Scheduler.OutsideMarketHours | scheduler.py:37-48 | outside market hours when the hour is before the opening hour or at or after the closing hour; `InsideMarketHoursIsHalfOpenWindow` states it as a half-open window |
| Scheduler.InsideMarketHoursIsHalfOpenWindow | scheduler.py:37-48 | not outside market hours exactly when the second of the day is in [open:00:00, close:00:00) |
| Scheduler.WaitUntilMarketOpen | scheduler.py:50-81 | the wait is positive and at most a day, ends at open:00:00, and no open:00:00 instant lies strictly before it |
| Scheduler.OpenTargetIsNextOpening | scheduler.py:60-78 | the target time is the first open:00:00 strictly after now (today if still before the open, else tomorrow) |
| Scheduler.WaitUntilNextInterval | scheduler.py:83-107 | the wait is at least one second and at most one interval and one hour; it ends on an interval boundary (a whole minute that is a multiple of the interval, or the top of the hour), and no boundary lies strictly before it |
| Scheduler.IntervalTargetIsNextBoundary | scheduler.py:93-104 | the target is the first interval boundary strictly after now |
| Scheduler.NoBoundaryBeforeIntervalTarget | scheduler.py:97-104 | no instant strictly between now and the target is a boundary |
| Scheduler.NextUpdateTime | scheduler.py:150-185 | the opening instant outside market hours, the next interval boundary inside them, by the branches `get_next_update_time` repeats; `NextUpdateTimeIsWaitTarget` ties it to the waits |
| Scheduler.NextUpdateTimeIsWaitTarget | scheduler.py:150-185 | `get_next_update_time` is the instant `wait_until_next_update` sleeps until, strictly after now |
| Scheduler.UpdateDue | scheduler.py:119-143 | forced: yes; outside market hours: no; no previous update: yes; else yes exactly when a whole interval has passed; `DueAfterCompletion` and `UpdateScheduler.ShouldUpdate` state it |
| Scheduler.DueAfterCompletion | scheduler.py:109-143 | after a cycle completed at c, an unforced check says no outside market hours, and inside them says yes exactly when a whole interval has passed since c |
| Scheduler.CheckAfterSlowCycleDeclines | scheduler.py:83-143 | a cycle that starts on a boundary and completes before the next boundary sleeps exactly until that next boundary, where the unforced check declines |
| Scheduler.LastBoundaryBounds | scheduler.py:93-104 | the latest interval boundary at or before an instant is a boundary, not after the instant, at least every boundary not after the instant, and the instant itself on a boundary |
| Scheduler.UpdateDueByBoundary | scheduler.py:119-148 | `should_update` as evidently intended: forced yes, outside market hours no, first update yes, otherwise yes exactly when the last completion lies before the latest interval boundary; `CorrectedCheckRunsEveryBoundary` states what it achieves |
| Scheduler.CorrectedCheckRunsEveryBoundary | scheduler.py:119-148 | with the due check compared against the latest boundary, the boundary after a slow cycle runs the next cycle inside market hours, and a re-check before that boundary declines |
| Scheduler.UpdateScheduler.constructor | scheduler.py:13-14 | no update has completed yet |
| Scheduler.UpdateScheduler.ShouldUpdate | scheduler.py:109-143 | forced: yes; outside market hours: no; no previous update: yes; otherwise yes exactly when a full interval has passed since the last update |
| Scheduler.UpdateScheduler.MarkUpdateCompleted | scheduler.py:145-148 | the last update becomes now |
| Scheduler.UpdateScheduler.WaitUntilNextUpdate | scheduler.py:16-35 | sleeps a positive time and wakes exactly at the next update time (market open when outside hours, next interval boundary inside) |
| Scheduler.UpdateScheduler.GetNextUpdateTime | scheduler.py:150-185 | a time strictly after now, the same instant the wait targets |
| StockFetcher.FirstUsable | stock_fetcher.py:80-87 | the index of the first field that is present, numeric and positive, all earlier ones are not usable |
| StockFetcher.BidAskPrice | stock_fetcher.py:89-97 | a price exactly when bid and ask are both present, numeric and positive, and then it is their mean |
| StockFetcher.ExtractPrice | stock_fetcher.py:61-99 | any price returned is strictly positive |
| StockFetcher.ExtractPriceFollowsPriority | stock_fetcher.py:72-87 | when the k-th priority field is the first usable one, its value is the price |
| StockFetcher.PositiveCurrentPriceWins | stock_fetcher.py:80-85 | a positive numeric `currentPrice` is returned whatever else the record holds |
| StockFetcher.FallbackWhenNoDirectField | stock_fetcher.py:89-99 | with no usable direct field the result is the bid/ask mean or nothing |
| StockFetcher.UnusableFieldIsAsAbsent | stock_fetcher.py:80-87 | a null, non-numeric or non-positive direct field gives the same price as leaving it out |
| StockFetcher.BidWithoutAskGivesNoPrice | stock_fetcher.py:90-95 | a bid with a null ask gives no price; bid 10 and ask 12 give 11 |
| StockFetcher.AttemptPrice | stock_fetcher.py:36-47 | a price from one attempt is strictly positive |
| StockFetcher.Normalize | stock_fetcher.py:26-30 | stripped, no longer than the input, no lower-case ASCII letter, and empty exactly when the input is blank |
| StockFetcher.NormalizeIdempotent | stock_fetcher.py:26-30 | normalising a normalised symbol changes nothing |
| StockFetcher.RetryFrom | stock_fetcher.py:33-59 | the retry loop from one attempt on: a resolved attempt ends it with one lookup; a failed one adds its lookup and, unless it was an empty record or the last attempt, a delay; `RetryOutcome`, `SleepsOnlyBetweenLookups` and `DelaysBetweenAttempts` state its properties |
| StockFetcher.FetchPrice | stock_fetcher.py:16-59 | a blank ticker gives none with no lookup, any other the retry loop on the normalised symbol; `FetchPriceBounds` states its bounds |
| StockFetcher.FirstSuccess | stock_fetcher.py:33-47 | the index of the first attempt that yields a price, every earlier attempt yields none |
| StockFetcher.RetryOutcome | stock_fetcher.py:33-59 | the price is the first successful attempt's price, or none when every attempt fails; there is one lookup per attempt made, up to and including the first success; every lookup is of the given symbol |
| StockFetcher.RetryStartsWithLookup | stock_fetcher.py:33-36 | with attempts left, the trace starts with a lookup of the symbol |
| StockFetcher.SleepsOnlyBetweenLookups | stock_fetcher.py:54-56 | every sleep sits between two lookups: a fetch never starts or ends with a sleep, and never sleeps twice in a row |
| StockFetcher.DelaysBetweenAttempts | stock_fetcher.py:54-56 | when no answer is an empty record, a fetch makes exactly one delay fewer than its lookups (three retries failing twice then succeeding, or failing three times, give two delays) |
| StockFetcher.RetryExamples | stock_fetcher.py:33-59 | raise, non-numeric, 5.0 gives 5.0 after three lookups and two delays; an empty record then `open` 7.0 gives 7.0 after two lookups with no delay |
| StockFetcher.FetchPriceBounds | stock_fetcher.py:16-59 | lookups never exceed the retry count, every lookup is of the normalised symbol, and any price is positive |
| StockFetcher.GetTickerPrice | stock_fetcher.py:16-59 | price and trace equal `FetchPrice`: blank gives none with no lookup, any price is positive, at most `MAX_RETRIES` lookups |
| StockFetcher.Attempt | stock_fetcher.py:34-56 | one pass of the loop body: its price is the attempt's price, and it makes one lookup, then a delay only when no price was found, the record was not empty and attempts remain |
| StockFetcher.RetryLoop | stock_fetcher.py:33-59 | the loop's price and trace equal `RetryFrom` from attempt 0 |
| StockFetcher.MultiFetch | stock_fetcher.py:139-145 | the result has exactly the given tickers as keys |
| StockFetcher.MultiFetchResults | stock_fetcher.py:141-145 | a blank ticker maps to none; every price in the result is positive |
| StockFetcher.MultiFetchOwnResult | stock_fetcher.py:141-145 | the result for a ticker, at its last occurrence, is that ticker's own `get_ticker_price` result, with the provider advanced past the lookups of the tickers before it |
| StockFetcher.NonBlankCount | stock_fetcher.py:142 | the number of tickers that are looked up, at most the number of tickers |
| StockFetcher.MultiFetchLookupBound | stock_fetcher.py:26-28 | the batch makes at most `MAX_RETRIES` lookups per non-blank ticker, and none for a blank one |
| StockFetcher.OtherTickerUnaffected | stock_fetcher.py:141-145 | appending a different ticker leaves an existing ticker's result unchanged |
| StockFetcher.GetMultiplePrices | stock_fetcher.py:128-150 | the loop's results and trace equal `MultiFetch`, keyed by exactly the input tickers |
| SheetsClient.ColumnName | sheets_client.py:198-202 | empty exactly for column numbers up to 0, otherwise upper-case letters only |
| SheetsClient.ColumnNumberOfName | sheets_client.py:198-202 | reading the letters back as bijective base 26 gives the column number |
| SheetsClient.ColumnNameOfNumber | sheets_client.py:198-202 | every string of letters is the name of its own column number |
| SheetsClient.ColumnNameInjective | sheets_client.py:198-202 | distinct positive columns get distinct names |
| SheetsClient.ColumnNameExamples | sheets_client.py:188-202 | 1 A, 26 Z, 27 AA, 52 AZ, 53 BA, 702 ZZ, 703 AAA |
| SheetsClient.GetColumnLetter | sheets_client.py:188-202 | the loop computes `ColumnName` |
| SheetsClient.DecimalValueOfDecimal | sheets_client.py:111 | the row number in the address reads back as itself |
| SheetsClient.ParseAddressOfAddress | sheets_client.py:111 | a cell address parses back to its column and row |
| SheetsClient.AddressInjective | sheets_client.py:111 | distinct cells get distinct addresses |
| SheetsClient.CleanTickers | sheets_client.py:78 | no longer than the row; every entry is non-empty and stripped |
| SheetsClient.CleanTickersMembers | sheets_client.py:78 | x is kept exactly when x is non-empty and some cell strips to x |
| SheetsClient.CleanTickersOfConcat | sheets_client.py:78 | cleaning works cell by cell and keeps order |
| SheetsClient.CleanTickersIdempotent | sheets_client.py:78 | cleaning a cleaned list changes nothing |
| SheetsClient.CleanTickersWithoutBlanks | sheets_client.py:78 | with no blank cell, cleaning only strips |
| SheetsClient.PriceFor | sheets_client.py:109 | a cell has a price exactly when its stripped ticker is non-empty, in the prices and not none |
| SheetsClient.GetTickers | sheets_client.py:74-83 | the cleaned row when the read succeeds, no tickers when it raises; `CleanTickersMembers` states what is kept |
| SheetsClient.PriceUpdates | sheets_client.py:108-117 | the batch with each price under its own ticker cell, the evidently intended placement; `PriceUpdatesPlacement` and `PriceUpdatesColumnsIncrease` state it |
| SheetsClient.PriceUpdatesAsWritten | sheets_client.py:102-117 | the batch `update_prices` builds: columns numbered over the cleaned ticker list; `BlankCellShiftsLaterPrices` and `AsWrittenAgreesWithoutBlanks` relate it to the intended one |
| SheetsClient.PriceUpdatesPlacement | sheets_client.py:102-117 | u is in the batch exactly when some column c of the row has a price equal to u's value and u's range is column c of the price row |
| SheetsClient.PriceUpdatesColumnsIncrease | sheets_client.py:108-117 | every update lies within the row's columns, in strictly increasing column order (so no cell is written twice) |
| SheetsClient.PriceUpdatesOfStripped | sheets_client.py:108-109 | the batch is the same whether cells are stripped first or not |
| SheetsClient.AsWrittenAgreesWithoutBlanks | sheets_client.py:102-117 | with no blank cell in the row, the batch as written equals the corrected one |
| SheetsClient.BlankCellShiftsLaterPrices | sheets_client.py:102-117 | for any row of two priced tickers around a blank cell, the batch as written puts the second price in column B, under the blank cell |
| SheetsClient.BlankCellKeepsColumnsWhenCorrected | sheets_client.py:108-117 | on the same row the corrected batch puts the second price in column C, under its own ticker |
| SheetsClient.ExampleAddresses | sheets_client.py:111 | columns 1, 2 and 3 of row 2 are A2, B2 and C2 |
| SheetsClient.PriceUpdatesNonEmpty | sheets_client.py:108-117 | a cell whose ticker has a price puts an update in the batch |
| SheetsClient.UpdatePrices | sheets_client.py:85-130 | the batch is the one numbered over the cleaned ticker list (`PriceUpdatesAsWritten`); the count is its size; it is written only when non-empty; success exactly when it is non-empty and the write succeeds |
| SheetsClient.TwoDigits | sheets_client.py:166 | two digits that read back as the number |
| SheetsClient.Hour12 | sheets_client.py:166 | `%I`: between 1 and 12 and equal to the hour modulo 12 |
| SheetsClient.Meridiem | sheets_client.py:166 | `%p`: AM before noon, PM from noon on; always two characters, and `ReadFormattedTimestamp` shows that with the 12-hour hour it gives the hour of the day back |
| SheetsClient.FormatTimestamp | sheets_client.py:166 | the text is always 20 characters |
| SheetsClient.ReadFormattedTimestamp | sheets_client.py:166 | the text reads back to the year, month, day, hour and minute |
| SheetsClient.FormatTimestampInjective | sheets_client.py:166 | distinct minutes give distinct timestamps |
| App.Filter | main.py:40-60 | no longer than the input; every kept ticker is non-empty, stripped, not skipped and has no '@' |
| App.FilterMembers | main.py:53-56 | x is kept exactly when some ticker passes the test and strips to x |
| App.FilterOfConcat | main.py:53-56 | filtering works ticker by ticker and keeps order |
| App.FilterOfOne | main.py:53-56 | one ticker is kept, stripped, exactly when it passes the test |
| App.FilterOfCleanTickers | main.py:73-79 | cleaning the row first does not change the valid tickers |
| App.FilterIdempotent | main.py:53-56 | filtering a filtered list changes nothing |
| App.SuccessfulPrices | main.py:91 | exactly the tickers with a price, with that price |
| App.FailedTickers | main.py:92 | exactly the tickers without a price |
| App.SuccessAndFailurePartition | main.py:91-92 | successes and failures split the fetched tickers |
| App.Decide | main.py:62-131 | the verdict and effects from the stages' products: stops with false at the first empty stage or a failed price write, otherwise writes the batch, the rate when known and the timestamp, then marks completion; `CycleOkIff` and `CompletedOnlyOnSuccess` state it |
| App.CycleSpec | main.py:62-131 | `perform_update` from the collaborators' answers: `Decide` on the ticker row, the valid tickers, the fetched prices and the batch `update_prices` builds |
| App.CycleOkIff | main.py:62-131 | a cycle succeeds exactly when the row has tickers, some pass the filter, some price was fetched, the batch is non-empty and its write succeeds |
| App.CompletedOnlyOnSuccess | main.py:101-127 | the completion mark is the last effect exactly on success and appears nowhere else; the price batch comes first |
| App.RateAndTimestampDoNotDecide | main.py:108-127 | the exchange rate and the timestamp write never change the verdict |
| App.ValidTickerHasCell | main.py:73-79 | every valid ticker comes from a cell of the row |
| App.ValidPriceIsWritten | main.py:88-106 | a valid ticker with a price gives a non-empty batch, both as `update_prices` builds it and with each price under its own ticker |
| App.FetchedPriceIsWritten | main.py:97-106 | when both reads of the row agree and some price was fetched, the batch is non-empty and the cycle succeeds exactly when the write does |
| App.StockDataApp.constructor | main.py:25-28 | a fresh scheduler with no completed update |
| App.StockDataApp.FilterTickers | main.py:40-60 | the loop computes `Filter` |
| App.StockDataApp.PerformUpdate | main.py:62-131 | verdict and effects equal `CycleSpec`; the scheduler's last update becomes now exactly on success and is otherwise unchanged |
| App.StockDataApp.WriteResults | main.py:101-127 | the writing stages give `Decide` on the batch `update_prices` builds from the row read (columns numbered over the cleaned list); completion is marked exactly on success |
| GetStock.WaitUntilNextTime | getStock.py:11-20 | the sleep is always positive |
| GetStock.EarlyWakeAtNine | getStock.py:13-15 | before 9:00 the script wakes the same day in the 9 o'clock hour, at the minute and second it went to sleep |
| GetStock.DaytimeWakeOnNextTen | getStock.py:18-20 | from 9:00 to 15:59 it sleeps 1 to 10 minutes and wakes at the same second on the next minute that is a multiple of ten, at the top of the next hour after :50 |
| GetStock.LateWakeBeforeNine | getStock.py:16-20 | from 16:00 on it wakes the next day at the same second: in the 8 o'clock hour on the next multiple of ten minutes, or at 09:00 when the minute was 50 or more |
| GetStock.FindTickerValue | getStock.py:30-44 | a raised lookup raises; a non-None `currentPrice` is returned as it is (zero, negative or non-numeric included); otherwise, with bid and ask both non-None, their mean, or an exception when a side is not a number; `None` exactly when `currentPrice` is None or absent and bid or ask is |
| GetStock.AgreesOnBidAskMean | getStock.py:41-42 | without `currentPrice` or any qualifying direct field, the script and the refactored extractor both take the mean of a positive bid and ask |
| GetStock.AgreesOnPositiveCurrentPrice | getStock.py:39-40 | on a positive numeric `currentPrice` the script and the refactored extractor agree |
| GetStock.ZeroCurrentPriceAccepted | getStock.py:39-40 | a zero `currentPrice` is written by the script, while the refactored extractor moves on to the next field |
| GetStock.SpinFrom | getStock.py:59-61 | the retry loop from answer k: a lookup that raises ends it, a value ends it after its pause, nothing found adds a lookup and a pause; the position in the answers never goes back; `SpinResolvesToFound` and `SpinStepsAreLookups` state its properties |
| GetStock.SweepFrom | getStock.py:54-62 | the sweep from a column: skipped cells are passed over, other tickers are retried and their value written to row 3 of their column; `WritesGoToRowThree` states it |
| GetStock.SweepSpec | getStock.py:53-62 | the sweep of the row read, from the second column on; `LabelColumnNeverWritten` states it |
| GetStock.SweepAfterMiss | getStock.py:59-61 | a lookup that finds nothing only adds a lookup and a one-second pause before the rest |
| GetStock.SpinStepsAreLookups | getStock.py:59-61 | retrying a ticker only looks that ticker up and pauses one second |
| GetStock.WritesGoToRowThree | getStock.py:54-62 | every write goes to row 3, under a non-skipped ticker of a later column, with a non-null value |
| GetStock.SpinResolvesToFound | getStock.py:59-61 | a resolved retry holds a non-null value |
| GetStock.LabelColumnNeverWritten | getStock.py:54 | column A is never written by the sweep |
| GetStock.NoRetryBound | getStock.py:59-61 | a ticker that is never found is looked up once for every answer and never resolves: the loop has no bound |
| GetStock.RetryUntilFound | getStock.py:59-61 | the loop's outcome, steps and position in the answers equal `SpinFrom` |
| GetStock.SweepRow | getStock.py:53-62 | the loop's status and steps equal `SweepSpec` |

## Left out

- Logging, `print`, the `run` loop, signal handling, the command line and the error back-off of main.py (main.py:133-230). The scheduler's `get_market_status` is left out too. None of these is part of the update logic.
- Authentication and the gspread worksheet object are left out. A read of the ticker row is an `Option` (`None` when it raises). A batch write is a boolean result. `update_cell` and `get_sheet_info` are not modelled.
- `get_exchange_rate` is not modelled. The exchange rate is an input of the cycle (`Environment.exchangeRate`), because it is a single `previousClose` lookup whose result never decides the cycle.
- GetStock.FindTickerValue: a bid and an ask that are both numeric strings give their mean in the model, while getStock.py:42 concatenates the two strings with `+` and the division by 2 then raises. The three field kinds do not tell a number from a numeric string.
- Floating point is left out. Prices are mathematical reals. `float()` parsing is reduced to the three field kinds `Num`, `NonNumeric` and `Null`, so a numeric string is a `Num`.
- Microseconds, time zones and daylight-saving changes are left out. Instants are whole local seconds, and the `int()` truncation of fractional waits is therefore invisible.
- Common.ToUpper: upper-cases ASCII letters only. Python's `str.upper()` also maps other Unicode letters.
- SheetsClient.FormatTimestamp: covers years 1000 to 9999 only. Those are the years for which `%Y` prints four digits.
- The `except Exception` around `perform_update` and `update_prices` is not modelled separately. The only failures inside them are the collaborators' failures, which are modelled as results.
- Prices are a `map`, so the key order of the Python dict is not modelled. `failed_tickers` is a set rather than a list.
- The clock the timestamp shows (`Environment.clock`) is independent of the completion instant `now`.
- App.StockDataApp.WriteResults: requires the stages before it to have produced tickers. This is the branch `perform_update` is in when it calls the writing stages.
- Scheduler.UpdateScheduler.ShouldUpdate, SheetsClient.UpdatePrices and App.StockDataApp.PerformUpdate model the code as written, including the two behaviours under "## Findings". The corrected definitions (`UpdateDueByBoundary`, `PriceUpdates`) are stated and proved beside them, and no operational member uses them.
- getStock.py's endless `while True` loop, the exchange-rate and timestamp writes (getStock.py:63-66) and `update_cell` failures are not modelled. A sweep that would retry forever is modelled as a finite script of answers that runs out (`Spinning`). A raising lookup ends the sweep (`Abandoned`), because the bare `except` catches it.

## Findings

| source | as written | input that shows it | evidently intended | confidence | as-written member | corrected member |
|---|---|---|---|---|---|---|
| sheets_client.py:102-117 | `update_prices` numbers columns by position in the cleaned ticker list, which has blank cells removed | ticker row `AAPL`, blank, `MSFT` with both prices known: MSFT's price goes to B2, under the blank cell, instead of C2 (SheetsClient.BlankCellShiftsLaterPrices, SheetsClient.BlankCellKeepsColumnsWhenCorrected) | each price goes in the column of its own ticker cell | not executed | SheetsClient.PriceUpdatesAsWritten | SheetsClient.PriceUpdates |
| scheduler.py:119-148 | `should_update` requires a whole interval since `mark_update_completed`, which records when a cycle ended; the run loop (main.py:151-158) checks right after each sleep to the next boundary | with a 10-minute interval, a cycle starting at 09:10:00 that completes at 09:10:05: the check at 09:20:00 finds 9 min 55 s and declines, so the next update is at 09:30 (Scheduler.CheckAfterSlowCycleDeclines, Scheduler.WindowScenarioChecks) | an update on every interval boundary inside market hours | not executed | Scheduler.CheckAfterSlowCycleDeclines | Scheduler.CorrectedCheckRunsEveryBoundary |
