/** The application (`StockDataApp` in main.py): filters the ticker row and
    runs one update cycle, fetching prices and writing them, the exchange
    rate and the timestamp to the sheet. Every collaborator is an input of
    the cycle: the sheet's row reads, the quote provider, the outcomes of the
    writes, the exchange-rate lookup and the clock. */
module App {
  import opened Common
  import opened Scheduler
  import opened StockFetcher
  import opened SheetsClient

  // ---------------------------------------------------------------------
  // Ticker filtering (`_filter_tickers`)
  // ---------------------------------------------------------------------

  /** The test `_filter_tickers` applies to a ticker's stripped text: not
      empty, not in the skip set, and without an '@'. */
  predicate Keeps(ticker: string, skip: set<string>) {
    var clean := Strip(ticker);
    clean != [] && clean !in skip && '@' !in clean
  }

  /** The tickers `_filter_tickers` keeps, stripped, in input order. */
  function Filter(tickers: seq<string>, skip: set<string>): (r: seq<string>)
    ensures |r| <= |tickers|
    ensures forall i :: 0 <= i < |r| ==>
      r[i] != [] && IsStripped(r[i]) && r[i] !in skip && '@' !in r[i]
  {
    if tickers == [] then []
    else
      var init := Filter(tickers[..|tickers| - 1], skip);
      var last := tickers[|tickers| - 1];
      if Keeps(last, skip) then init + [Strip(last)] else init
  }

  /** The last ticker adds at most its own stripped form to the filtered
      tickers before it. */
  lemma FilterOfLast(tickers: seq<string>, skip: set<string>, x: string)
    requires tickers != []
    ensures x in Filter(tickers, skip)
        <==> x in Filter(tickers[..|tickers| - 1], skip)
             || (Keeps(tickers[|tickers| - 1], skip) && Strip(tickers[|tickers| - 1]) == x)
  {
  }

  /** Ticker `t` passes the test and is kept as `x`. */
  predicate KeptAs(t: string, skip: set<string>, x: string) {
    Keeps(t, skip) && Strip(t) == x
  }

  /** A string is kept exactly when it is the stripped form of an input that
      passes the test. */
  lemma {:induction false} FilterMembers(tickers: seq<string>, skip: set<string>, x: string)
    ensures x in Filter(tickers, skip) <==> exists t :: t in tickers && KeptAs(t, skip, x)
  {
    if tickers != [] {
      var init, last := tickers[..|tickers| - 1], tickers[|tickers| - 1];
      FilterMembers(init, skip, x);
      FilterOfLast(tickers, skip, x);
      if x in Filter(init, skip) {
        var t :| t in init && KeptAs(t, skip, x);
        assert t in tickers;
      } else if x in Filter(tickers, skip) {
        assert KeptAs(last, skip, x) && last in tickers;
      }
      if t :| t in tickers && KeptAs(t, skip, x) {
        if t != last {
          assert t in init;
        }
      }
    }
  }

  /** Filtering works ticker by ticker, so the input order is kept. */
  lemma {:induction false} FilterOfConcat(a: seq<string>, b: seq<string>, skip: set<string>)
    ensures Filter(a + b, skip) == Filter(a, skip) + Filter(b, skip)
    decreases |b|
  {
    if b == [] {
      assert a + b == a;
    } else {
      var init := b[..|b| - 1];
      assert (a + b)[..|a + b| - 1] == a + init;
      FilterOfConcat(a, init, skip);
    }
  }

  /** Filtering the single ticker `t`. */
  lemma FilterOfOne(t: string, skip: set<string>)
    ensures Filter([t], skip) == if Keeps(t, skip) then [Strip(t)] else []
  {
    assert [t][..0] == [];
  }

  /** A ticker passes the test exactly when its stripped form does, and is
      kept as the same string. */
  lemma KeepsStripped(t: string, skip: set<string>)
    ensures Keeps(Strip(t), skip) == Keeps(t, skip)
    ensures Strip(Strip(t)) == Strip(t)
  {
    StripIdempotent(t);
  }

  /** The row cleaning of `get_tickers` before the filter changes nothing:
      the filter strips and drops blank tickers itself. */
  lemma {:induction false} FilterOfCleanTickers(row: seq<string>, skip: set<string>)
    ensures Filter(CleanTickers(row), skip) == Filter(row, skip)
  {
    if row != [] {
      var t, rest := row[0], row[1..];
      FilterOfCleanTickers(rest, skip);
      assert row == [t] + rest;
      FilterOfConcat([t], rest, skip);
      FilterOfOne(t, skip);
      var kept := if Keeps(t, skip) then [Strip(t)] else [];
      assert Filter(row, skip) == kept + Filter(rest, skip);
      if Strip(t) != [] {
        assert CleanTickers(row) == [Strip(t)] + CleanTickers(rest);
        FilterOfConcat([Strip(t)], CleanTickers(rest), skip);
        FilterOfOne(Strip(t), skip);
        KeepsStripped(t, skip);
      } else {
        assert CleanTickers(row) == CleanTickers(rest);
      }
    }
  }

  /** Filtering a filtered list changes nothing. */
  lemma {:induction false} FilterIdempotent(tickers: seq<string>, skip: set<string>)
    ensures Filter(Filter(tickers, skip), skip) == Filter(tickers, skip)
  {
    if tickers != [] {
      var init := tickers[..|tickers| - 1];
      var last := tickers[|tickers| - 1];
      FilterIdempotent(init, skip);
      if Keeps(last, skip) {
        FilterOfConcat(Filter(init, skip), [Strip(last)], skip);
        FilterOfOne(Strip(last), skip);
        StripIdempotent(last);
      }
    }
  }

  // ---------------------------------------------------------------------
  // Fetched prices
  // ---------------------------------------------------------------------

  /** `successful_prices`: the tickers with a price, and the price. */
  function SuccessfulPrices(prices: Prices): (r: map<string, real>)
    ensures forall k :: k in r <==> k in prices && prices[k].Some?
    ensures forall k :: k in r ==> prices[k] == Some(r[k])
  {
    map k | k in prices && prices[k].Some? :: prices[k].value
  }

  /** `failed_tickers`: the tickers without a price. */
  function FailedTickers(prices: Prices): (r: set<string>)
    ensures forall k :: k in r <==> k in prices && prices[k].None?
  {
    set k | k in prices && prices[k].None?
  }

  /** Every fetched ticker is either successful or failed, never both. */
  lemma SuccessAndFailurePartition(prices: Prices)
    ensures SuccessfulPrices(prices).Keys + FailedTickers(prices) == prices.Keys
    ensures SuccessfulPrices(prices).Keys * FailedTickers(prices) == {}
  {
  }

  // ---------------------------------------------------------------------
  // One update cycle (`perform_update`)
  // ---------------------------------------------------------------------

  /** The configuration the application runs with (`SKIP_TICKERS`,
      `MAX_RETRIES`, `RETRY_DELAY_SECONDS`, `PRICE_ROW`). */
  datatype Config = Config(skip: set<string>, maxRetries: nat, retryDelay: nat, priceRow: nat)

  /** What the collaborators answer during one cycle: the ticker row as read
      by `get_tickers` in `perform_update` and again in `update_prices` (a
      failed read is `None`), the quote provider, whether the batch write
      succeeds, the exchange rate, whether the timestamp write succeeds, and
      the clock reading the timestamp shows. */
  datatype Environment = Environment(
    tickerRead: Option<seq<string>>,
    tickerReread: Option<seq<string>>,
    provider: Provider,
    priceWriteOk: bool,
    exchangeRate: Option<real>,
    timestampWriteOk: bool,
    clock: LocalTime)

  /** The effects of a cycle on the sheet and the scheduler, in order. */
  datatype Effect =
    | PriceBatch(updates: seq<CellUpdate>)
    | ExchangeRateCell(rate: real)
    | TimestampCell(text: string)
    | Completed(at: int)

  datatype Cycle = Cycle(ok: bool, effects: seq<Effect>)

  /** The tickers a cycle fetches. */
  function ValidTickers(cfg: Config, env: Environment): seq<string> {
    Filter(GetTickers(env.tickerRead), cfg.skip)
  }

  /** The prices a cycle fetches. */
  function FetchedPrices(cfg: Config, env: Environment): Prices {
    MultiFetch(ValidTickers(cfg, env), env.provider, cfg.maxRetries, cfg.retryDelay).results
  }

  /** The batch `update_prices` builds in a cycle, numbering the columns
      over the cleaned ticker row. */
  function CycleUpdates(cfg: Config, env: Environment): seq<CellUpdate> {
    PriceUpdatesAsWritten(RowCells(env.tickerReread), FetchedPrices(cfg, env), cfg.priceRow)
  }

  /** The verdict and effects of `perform_update` from what its stages
      produced: the cleaned ticker row, the valid tickers, the fetched prices
      and the price batch. Each stage either stops the cycle with `False` or
      hands on to the next; only a cycle whose prices were written goes on to
      the exchange rate, the timestamp and the completion mark at `now`. */
  function Decide(allTickers: seq<string>, valid: seq<string>, prices: Prices,
                  updates: seq<CellUpdate>, env: Environment, now: int): Cycle {
    if allTickers == [] then Cycle(false, [])
    else if valid == [] then Cycle(false, [])
    else if |SuccessfulPrices(prices)| == 0 then Cycle(false, [])
    else if updates == [] then Cycle(false, [])
    else if !env.priceWriteOk then Cycle(false, [PriceBatch(updates)])
    else
      var rate := if env.exchangeRate.Some? then [ExchangeRateCell(env.exchangeRate.value)] else [];
      Cycle(true, [PriceBatch(updates)] + rate
                  + [TimestampCell(FormatTimestamp(env.clock)), Completed(now)])
  }

  /** `perform_update` with configuration `cfg`, completed at instant `now`. */
  function CycleSpec(cfg: Config, env: Environment, now: int): Cycle {
    Decide(GetTickers(env.tickerRead), ValidTickers(cfg, env), FetchedPrices(cfg, env),
           CycleUpdates(cfg, env), env, now)
  }

  /** A cycle succeeds exactly when the row has tickers, some pass the
      filter, some price was fetched, and a non-empty batch was written. */
  lemma CycleOkIff(cfg: Config, env: Environment, now: int)
    ensures CycleSpec(cfg, env, now).ok
        <==> && GetTickers(env.tickerRead) != []
             && ValidTickers(cfg, env) != []
             && |SuccessfulPrices(FetchedPrices(cfg, env))| > 0
             && CycleUpdates(cfg, env) != []
             && env.priceWriteOk
  {
  }

  /** The completion mark is made once, as the last effect, and exactly on
      the cycles that return `True`; the price batch, when written, comes
      first. */
  lemma CompletedOnlyOnSuccess(allTickers: seq<string>, valid: seq<string>, prices: Prices,
                               updates: seq<CellUpdate>, env: Environment, now: int)
    ensures var c := Decide(allTickers, valid, prices, updates, env, now);
      && (c.ok <==> c.effects != [] && c.effects[|c.effects| - 1] == Completed(now))
      && (forall i :: 0 <= i < |c.effects| - 1 ==> !c.effects[i].Completed?)
      && (c.effects != [] ==> c.effects[0] == PriceBatch(updates))
  {
  }

  /** The exchange rate and the timestamp write never decide the outcome: two
      environments that differ only in them give the same verdict. */
  lemma RateAndTimestampDoNotDecide(allTickers: seq<string>, valid: seq<string>, prices: Prices,
                                    updates: seq<CellUpdate>, env: Environment, now: int,
                                    rate: Option<real>, stampOk: bool)
    ensures Decide(allTickers, valid, prices, updates, env, now).ok
         == Decide(allTickers, valid, prices, updates,
                   env.(exchangeRate := rate, timestampWriteOk := stampOk), now).ok
  {
  }

  /** A successful price of a valid ticker has a cell in the row it came from:
      its ticker is the stripped text of some cell. */
  lemma {:induction false} ValidTickerHasCell(row: seq<string>, skip: set<string>, k: string)
    requires k in Filter(CleanTickers(row), skip)
    ensures exists i :: 0 <= i < |row| && Strip(row[i]) == k
  {
    FilterMembers(CleanTickers(row), skip, k);
    var t :| t in CleanTickers(row) && KeptAs(t, skip, k);
    CleanTickersMembers(row, t);
    var cell :| cell in row && Strip(cell) == t;
    StripIdempotent(cell);
    var i :| 0 <= i < |row| && row[i] == cell;
  }

  /** A price fetched for a ticker that passed the filter over the cleaned
      row is written: the batch `update_prices` builds over that row is not
      empty, and neither is the batch that keeps each price under its own
      ticker. */
  lemma ValidPriceIsWritten(row: seq<string>, skip: set<string>, prices: Prices, priceRow: nat, k: string)
    requires k in Filter(CleanTickers(row), skip)
    requires k in prices && prices[k].Some?
    ensures PriceUpdatesAsWritten(row, prices, priceRow) != []
    ensures PriceUpdates(row, prices, priceRow) != []
  {
    FilterMembers(CleanTickers(row), skip, k);
    var t :| t in CleanTickers(row) && KeptAs(t, skip, k);
    var j :| 0 <= j < |CleanTickers(row)| && CleanTickers(row)[j] == t;
    StripOfStripped(t);
    PriceUpdatesNonEmpty(CleanTickers(row), prices, priceRow, j);
    ValidTickerHasCell(row, skip, k);
    var i :| 0 <= i < |row| && Strip(row[i]) == k;
    PriceUpdatesNonEmpty(row, prices, priceRow, i);
  }

  /** When the sheet row reads the same for `get_tickers` and for
      `update_prices`, every fetched price is written: a cycle whose fetch
      found a price fails only if the batch write fails. */
  lemma FetchedPriceIsWritten(cfg: Config, env: Environment, now: int)
    requires env.tickerRead.Some? && env.tickerReread == env.tickerRead
    requires |SuccessfulPrices(FetchedPrices(cfg, env))| > 0
    ensures CycleUpdates(cfg, env) != []
    ensures CycleSpec(cfg, env, now).ok == env.priceWriteOk
  {
    var row := env.tickerRead.value;
    var prices := FetchedPrices(cfg, env);
    var k :| k in SuccessfulPrices(prices);
    assert k in ValidTickers(cfg, env);
    ValidPriceIsWritten(row, cfg.skip, prices, cfg.priceRow, k);
    assert GetTickers(env.tickerRead) != [] && ValidTickers(cfg, env) != [];
  }

  /** The application: its configuration and its scheduler, whose
      `lastUpdate` a successful cycle sets. */
  class StockDataApp {
    const config: Config
    const scheduler: UpdateScheduler

    constructor (config: Config, window: Window)
      ensures this.config == config
      ensures fresh(scheduler) && scheduler.window == window && scheduler.lastUpdate == None
    {
      this.config := config;
      scheduler := new UpdateScheduler(window);
    }

    /** `_filter_tickers(tickers)`. */
    method FilterTickers(tickers: seq<string>) returns (valid: seq<string>)
      ensures valid == Filter(tickers, config.skip)
    {
      valid := [];
      for i := 0 to |tickers|
        invariant valid == Filter(tickers[..i], config.skip)
      {
        assert tickers[..i + 1][..i] == tickers[..i];
        var clean := Strip(tickers[i]);
        if clean != [] && clean !in config.skip && '@' !in clean {
          valid := valid + [clean];
        }
      }
      assert tickers[..|tickers|] == tickers;
    }

    /** `perform_update()`, with the collaborators' answers `env`, completed
        at instant `now`. The scheduler records the completion exactly when
        the cycle succeeds. */
    method PerformUpdate(env: Environment, now: int) returns (ok: bool, effects: seq<Effect>)
      modifies scheduler
      ensures Cycle(ok, effects) == CycleSpec(config, env, now)
      ensures scheduler.lastUpdate == if ok then Some(now) else old(scheduler.lastUpdate)
    {
      var allTickers := GetTickers(env.tickerRead);
      if allTickers == [] {
        return false, [];
      }
      var validTickers := FilterTickers(allTickers);
      assert validTickers == ValidTickers(config, env);
      if validTickers == [] {
        return false, [];
      }
      var tickerPrices, _ := GetMultiplePrices(validTickers, env.provider, config.maxRetries, config.retryDelay);
      assert tickerPrices == FetchedPrices(config, env);
      ok, effects := WriteResults(allTickers, validTickers, tickerPrices, env, now);
    }

    /** The stages of `perform_update` after the fetch: give up without a
        price, write the batch, then the exchange rate and the timestamp, and
        mark the cycle completed. */
    method WriteResults(allTickers: seq<string>, validTickers: seq<string>, tickerPrices: Prices,
                        env: Environment, now: int)
      returns (ok: bool, effects: seq<Effect>)
      requires allTickers != [] && validTickers != []
      modifies scheduler
      ensures Cycle(ok, effects)
           == Decide(allTickers, validTickers, tickerPrices,
                     PriceUpdatesAsWritten(RowCells(env.tickerReread), tickerPrices, config.priceRow), env, now)
      ensures scheduler.lastUpdate == if ok then Some(now) else old(scheduler.lastUpdate)
    {
      effects := [];
      var successfulPrices := SuccessfulPrices(tickerPrices);
      if |successfulPrices| == 0 {
        return false, effects;
      }
      var priceUpdateSuccess, written, _ := UpdatePrices(tickerPrices, env.tickerReread, config.priceRow, env.priceWriteOk);
      if written.Some? {
        effects := effects + [PriceBatch(written.value)];
      }
      if !priceUpdateSuccess {
        return false, effects;
      }
      if env.exchangeRate.Some? {
        effects := effects + [ExchangeRateCell(env.exchangeRate.value)];
      }
      effects := effects + [TimestampCell(FormatTimestamp(env.clock))];
      scheduler.MarkUpdateCompleted(now);
      effects := effects + [Completed(now)];
      ok := true;
    }
  }
}
