/** Price resolution and bounded retry (`StockDataFetcher` in stock_fetcher.py).
    The data provider is a collaborator: the record `yf.Ticker(t).info` is a
    `QuoteRecord`, and the provider's answers in one cycle are scripted as a
    `Provider`, the answer to the n-th lookup. Sleeps become `Sleep` events of a
    trace, so lookups and delays can be counted. */
module StockFetcher {
  import opened Common

  /** A field of a quote record as `float()` sees it: a number it converts to,
      something it rejects with `ValueError`/`TypeError`, or `None`. */
  datatype FieldValue = Num(x: real) | NonNumeric | Null

  /** The provider's loosely typed record for one ticker. */
  type QuoteRecord = map<string, FieldValue>

  /** The direct price fields, in order of preference. */
  const PriceFields: seq<string> := ["currentPrice", "regularMarketPrice", "previousClose", "open"]

  /** A direct field qualifies when it is present, not `None`, converts to a
      float, and is strictly positive. */
  predicate Usable(info: QuoteRecord, field: string) {
    field in info && info[field].Num? && info[field].x > 0.0
  }

  /** Position of the first qualifying field of `fields`, `|fields|` if none does. */
  function FirstUsable(info: QuoteRecord, fields: seq<string>): (k: nat)
    ensures k <= |fields|
    ensures forall j :: 0 <= j < k ==> !Usable(info, fields[j])
    ensures k < |fields| ==> Usable(info, fields[k])
  {
    if fields == [] then 0
    else if Usable(info, fields[0]) then 0
    else 1 + FirstUsable(info, fields[1..])
  }

  /** The bid/ask fallback: with both keys present, a `None` side counts as 0, a
      side `float()` rejects abandons the fallback, and both sides must be
      positive; the price is their mean. */
  function BidAskPrice(info: QuoteRecord): (r: Option<real>)
    ensures r.Some? <==> ("bid" in info && "ask" in info
                          && info["bid"].Num? && info["bid"].x > 0.0
                          && info["ask"].Num? && info["ask"].x > 0.0)
    ensures r.Some? ==> r.value == (info["bid"].x + info["ask"].x) / 2.0
  {
    if "bid" in info && "ask" in info then
      var bid, ask := info["bid"], info["ask"];
      if bid.NonNumeric? || ask.NonNumeric? then None
      else
        var b := if bid.Null? then 0.0 else bid.x;
        var a := if ask.Null? then 0.0 else ask.x;
        if b > 0.0 && a > 0.0 then Some((b + a) / 2.0) else None
    else None
  }

  /** `_extract_price_from_info`: the first qualifying direct field, else the
      bid/ask mean, else `None`. Any price it gives is strictly positive. */
  function ExtractPrice(info: QuoteRecord): (r: Option<real>)
    ensures r.Some? ==> r.value > 0.0
  {
    var k := FirstUsable(info, PriceFields);
    if k < |PriceFields| then Some(info[PriceFields[k]].x) else BidAskPrice(info)
  }

  /** Direct fields are tried in order: the result is the first qualifying one,
      and when none qualifies it is exactly the bid/ask fallback. */
  lemma ExtractPriceFollowsPriority(info: QuoteRecord, k: nat)
    requires k < |PriceFields| && Usable(info, PriceFields[k])
    requires forall j :: 0 <= j < k ==> !Usable(info, PriceFields[j])
    ensures ExtractPrice(info) == Some(info[PriceFields[k]].x)
  {
  }

  /** A positive `currentPrice` always wins, whatever the other fields hold. */
  lemma PositiveCurrentPriceWins(info: QuoteRecord)
    requires "currentPrice" in info && info["currentPrice"].Num? && info["currentPrice"].x > 0.0
    ensures ExtractPrice(info) == Some(info["currentPrice"].x)
  {
    ExtractPriceFollowsPriority(info, 0);
  }

  /** Without a qualifying direct field the result is the bid/ask mean when
      both are positive numbers, and `None` otherwise. */
  lemma FallbackWhenNoDirectField(info: QuoteRecord)
    requires forall j :: 0 <= j < |PriceFields| ==> !Usable(info, PriceFields[j])
    ensures ExtractPrice(info) == BidAskPrice(info)
  {
  }

  /** A direct field that does not qualify (non-numeric, zero, negative or
      `None`) is treated exactly as if it were absent. */
  lemma UnusableFieldIsAsAbsent(info: QuoteRecord, field: string)
    requires field in PriceFields && !Usable(info, field)
    ensures ExtractPrice(info) == ExtractPrice(info - {field})
  {
    var other := info - {field};
    forall g ensures Usable(info, g) <==> Usable(other, g) {
    }
    FirstUsableSameWhenUsabilityAgrees(info, other, PriceFields);
  }

  /** `FirstUsable` only looks at which fields qualify and their values. */
  lemma {:induction false} FirstUsableSameWhenUsabilityAgrees(a: QuoteRecord, b: QuoteRecord, fields: seq<string>)
    requires forall g :: Usable(a, g) <==> Usable(b, g)
    ensures FirstUsable(a, fields) == FirstUsable(b, fields)
  {
    if fields != [] && !Usable(a, fields[0]) {
      FirstUsableSameWhenUsabilityAgrees(a, b, fields[1..]);
    }
  }

  /** A `None` side of the quote counts as 0, so a bid without an ask gives
      no price. */
  lemma BidWithoutAskGivesNoPrice()
    ensures ExtractPrice(map["bid" := Num(10.0), "ask" := Null]) == None
    ensures ExtractPrice(map["bid" := Num(10.0), "ask" := Num(12.0)]) == Some(11.0)
  {
    var one := map["bid" := Num(10.0), "ask" := Null];
    var two := map["bid" := Num(10.0), "ask" := Num(12.0)];
    assert FirstUsable(one, PriceFields) == |PriceFields|;
    assert FirstUsable(two, PriceFields) == |PriceFields|;
  }

  /** The provider's answer to one lookup: it raised, or it returned a record
      (possibly empty). */
  datatype LookupOutcome = Raised | Answer(info: QuoteRecord)

  /** The answer to the n-th lookup of a cycle. */
  type Provider = nat -> LookupOutcome

  /** The provider as seen after `n` lookups have already been made. */
  function Shift(provider: Provider, n: nat): Provider {
    (k: nat) => provider(n + k)
  }

  /** What one attempt of `get_ticker_price` resolves: nothing when the lookup
      raised or returned an empty record, otherwise `_extract_price_from_info`. */
  function AttemptPrice(o: LookupOutcome): (r: Option<real>)
    ensures r.Some? ==> r.value > 0.0
  {
    match o
    case Raised => None
    case Answer(info) => if |info| == 0 then None else ExtractPrice(info)
  }

  /** An empty record `continue`s straight to the next attempt, skipping the
      delay that follows a raised lookup or a record without a price. */
  predicate SkipsDelay(o: LookupOutcome) {
    o.Answer? && |o.info| == 0
  }

  /** An observable step of a fetch: a provider lookup or a blocking sleep. */
  datatype Event = Lookup(symbol: string) | Sleep(seconds: nat)

  /** The price a fetch resolves and the steps it takes. */
  datatype Fetch = Fetch(price: Option<real>, trace: seq<Event>)

  /** Number of lookups in a trace. */
  function Lookups(trace: seq<Event>): (n: nat)
    ensures n <= |trace|
  {
    if trace == [] then 0 else (if trace[0].Lookup? then 1 else 0) + Lookups(trace[1..])
  }

  /** Number of sleeps in a trace. */
  function Sleeps(trace: seq<Event>): (n: nat)
    ensures n <= |trace|
  {
    if trace == [] then 0 else (if trace[0].Sleep? then 1 else 0) + Sleeps(trace[1..])
  }

  /** Counting distributes over concatenation. */
  lemma {:induction false} CountsOfConcat(a: seq<Event>, b: seq<Event>)
    ensures Lookups(a + b) == Lookups(a) + Lookups(b)
    ensures Sleeps(a + b) == Sleeps(a) + Sleeps(b)
  {
    if a == [] {
      assert a + b == b;
    } else {
      assert (a + b)[1..] == a[1..] + b;
      CountsOfConcat(a[1..], b);
    }
  }

  /** The counts of one attempt's steps: one lookup, then at most one sleep. */
  lemma CountsOfAttempt(symbol: string, pause: seq<Event>, rest: seq<Event>)
    requires pause == [] || (|pause| == 1 && pause[0].Sleep?)
    ensures Lookups([Lookup(symbol)] + pause + rest) == 1 + Lookups(rest)
    ensures Sleeps([Lookup(symbol)] + pause + rest) == |pause| + Sleeps(rest)
  {
    var tr := [Lookup(symbol)] + pause + rest;
    assert tr[1..] == pause + rest;
    if pause != [] {
      assert (pause + rest)[1..] == rest;
    }
  }

  /** The retry loop of `get_ticker_price` from attempt `attempt` on, for the
      normalised `symbol`. */
  function RetryFrom(symbol: string, provider: Provider, maxRetries: nat, delay: nat, attempt: nat): (f: Fetch)
    decreases maxRetries - attempt
  {
    if attempt >= maxRetries then Fetch(None, [])
    else
      var o := provider(attempt);
      var p := AttemptPrice(o);
      if p.Some? then Fetch(p, [Lookup(symbol)])
      else
        var pause := if !SkipsDelay(o) && attempt < maxRetries - 1 then [Sleep(delay)] else [];
        var rest := RetryFrom(symbol, provider, maxRetries, delay, attempt + 1);
        Fetch(rest.price, [Lookup(symbol)] + pause + rest.trace)
  }

  /** Regrouping a trace built up step by step. */
  lemma Regroup(before: seq<Event>, events: seq<Event>, rest: seq<Event>)
    ensures before + (events + rest) == before + events + rest
  {
  }

  /** What one attempt contributes to `RetryFrom`: a resolved price ends the
      fetch with that attempt's events; otherwise they come before the
      remaining attempts. */
  lemma RetryAdvance(symbol: string, provider: Provider, maxRetries: nat, delay: nat, attempt: nat,
                     p: Option<real>, events: seq<Event>)
    requires attempt < maxRetries && p == AttemptPrice(provider(attempt))
    requires events == [Lookup(symbol)]
                       + (if p.None? && !SkipsDelay(provider(attempt)) && attempt != maxRetries - 1
                          then [Sleep(delay)] else [])
    ensures var f, rest := RetryFrom(symbol, provider, maxRetries, delay, attempt),
                           RetryFrom(symbol, provider, maxRetries, delay, attempt + 1);
      && (p.Some? ==> f == Fetch(p, events))
      && (p.None? ==> f.price == rest.price && f.trace == events + rest.trace)
  {
  }

  /** Whitespace-only and empty tickers are never looked up. */
  predicate IsBlank(ticker: string) {
    Strip(ticker) == []
  }

  /** `ticker.strip().upper()`. */
  function Normalize(ticker: string): (r: string)
    ensures IsStripped(r) && |r| <= |ticker|
    ensures forall i :: 0 <= i < |r| ==> !('a' <= r[i] <= 'z')
    ensures IsBlank(ticker) <==> r == []
  {
    ToUpperKeepsStripped(Strip(ticker));
    ToUpper(Strip(ticker))
  }

  /** Normalising twice is normalising once, so `"  aapl  "` and `"AAPL"`
      are looked up under one symbol. */
  lemma NormalizeIdempotent(ticker: string)
    ensures Normalize(Normalize(ticker)) == Normalize(ticker)
  {
    var n := Normalize(ticker);
    StripOfStripped(n);
    ToUpperIdempotent(Strip(ticker));
  }

  /** `get_ticker_price` as a function: a blank ticker returns `None` with no
      lookup; otherwise the retry loop on the normalised symbol. */
  function FetchPrice(ticker: string, provider: Provider, maxRetries: nat, delay: nat): Fetch {
    if IsBlank(ticker) then Fetch(None, [])
    else RetryFrom(Normalize(ticker), provider, maxRetries, delay, 0)
  }

  /** The first attempt from `attempt` on, before `maxRetries`, whose lookup
      resolves a price; `maxRetries` when there is none. */
  function FirstSuccess(provider: Provider, maxRetries: nat, attempt: nat): (k: nat)
    ensures attempt <= maxRetries ==> attempt <= k <= maxRetries
    ensures forall j :: attempt <= j < k ==> AttemptPrice(provider(j)).None?
    ensures k < maxRetries ==> AttemptPrice(provider(k)).Some?
    decreases maxRetries - attempt
  {
    if attempt >= maxRetries then maxRetries
    else if AttemptPrice(provider(attempt)).Some? then attempt
    else FirstSuccess(provider, maxRetries, attempt + 1)
  }

  /** The retry loop returns the price of the first attempt that resolves one,
      immediately, after exactly one lookup per attempt made; it returns `None`
      only after all `maxRetries` attempts failed. Every lookup is for `symbol`. */
  lemma {:induction false} RetryOutcome(symbol: string, provider: Provider, maxRetries: nat, delay: nat, attempt: nat)
    requires attempt <= maxRetries
    ensures var f := RetryFrom(symbol, provider, maxRetries, delay, attempt);
      var k := FirstSuccess(provider, maxRetries, attempt);
      && f.price == (if k < maxRetries then AttemptPrice(provider(k)) else None)
      && Lookups(f.trace) == (if k < maxRetries then k + 1 - attempt else maxRetries - attempt)
      && (forall e :: e in f.trace && e.Lookup? ==> e.symbol == symbol)
    decreases maxRetries - attempt
  {
    if attempt < maxRetries {
      var o := provider(attempt);
      if AttemptPrice(o).None? {
        var pause := if !SkipsDelay(o) && attempt < maxRetries - 1 then [Sleep(delay)] else [];
        var rest := RetryFrom(symbol, provider, maxRetries, delay, attempt + 1);
        RetryOutcome(symbol, provider, maxRetries, delay, attempt + 1);
        CountsOfAttempt(symbol, pause, rest.trace);
      } else {
        CountsOfAttempt(symbol, [], []);
      }
    }
  }

  /** A retry loop with attempts left starts with a lookup. */
  lemma RetryStartsWithLookup(symbol: string, provider: Provider, maxRetries: nat, delay: nat, attempt: nat)
    requires attempt < maxRetries
    ensures var tr := RetryFrom(symbol, provider, maxRetries, delay, attempt).trace;
      tr != [] && tr[0] == Lookup(symbol)
  {
  }

  /** Delays come only between attempts: every sleep is preceded and followed
      by a lookup, so a fetch never starts or ends with a sleep and never
      sleeps twice in a row. */
  lemma {:induction false} SleepsOnlyBetweenLookups(symbol: string, provider: Provider, maxRetries: nat, delay: nat, attempt: nat)
    ensures var tr := RetryFrom(symbol, provider, maxRetries, delay, attempt).trace;
      forall i :: 0 <= i < |tr| && tr[i].Sleep? ==> 0 < i < |tr| - 1 && tr[i - 1].Lookup? && tr[i + 1].Lookup?
    decreases maxRetries - attempt
  {
    if attempt < maxRetries {
      var o := provider(attempt);
      if AttemptPrice(o).None? {
        var pause := if !SkipsDelay(o) && attempt < maxRetries - 1 then [Sleep(delay)] else [];
        var rest := RetryFrom(symbol, provider, maxRetries, delay, attempt + 1).trace;
        var tr := [Lookup(symbol)] + pause + rest;
        SleepsOnlyBetweenLookups(symbol, provider, maxRetries, delay, attempt + 1);
        if pause != [] {
          RetryStartsWithLookup(symbol, provider, maxRetries, delay, attempt + 1);
        }
        forall i | 0 <= i < |tr| && tr[i].Sleep?
          ensures 0 < i < |tr| - 1 && tr[i - 1].Lookup? && tr[i + 1].Lookup?
        {
          var p := |pause|;
          if i > p {
            assert tr[i] == rest[i - 1 - p];
            assert tr[i - 1] == rest[i - 2 - p] || i - 1 == p;
            assert tr[i + 1] == rest[i - p];
          }
        }
      }
    }
  }

  /** When no answer is an empty record, every failed attempt but the last is
      followed by exactly one delay: `n` lookups come with `n - 1` sleeps. With
      three retries, fail, fail, succeed gives two delays, and so does failing
      three times. */
  lemma {:induction false} DelaysBetweenAttempts(symbol: string, provider: Provider, maxRetries: nat, delay: nat, attempt: nat)
    requires attempt < maxRetries
    requires forall j :: attempt <= j < maxRetries ==> !SkipsDelay(provider(j))
    ensures var tr := RetryFrom(symbol, provider, maxRetries, delay, attempt).trace;
      Lookups(tr) >= 1 && Sleeps(tr) == Lookups(tr) - 1
    decreases maxRetries - attempt
  {
    var o := provider(attempt);
    var rest := RetryFrom(symbol, provider, maxRetries, delay, attempt + 1).trace;
    if AttemptPrice(o).None? && attempt < maxRetries - 1 {
      DelaysBetweenAttempts(symbol, provider, maxRetries, delay, attempt + 1);
      CountsOfAttempt(symbol, [Sleep(delay)], rest);
    } else if AttemptPrice(o).None? {
      CountsOfAttempt(symbol, [], rest);
    } else {
      CountsOfAttempt(symbol, [], []);
    }
  }

  /** With three retries and a two-second delay: a lookup that raises, then a
      record whose price field `float()` rejects, then a record with a price,
      give that price after three lookups and two delays. An empty record
      first instead is retried without a delay. */
  lemma RetryExamples(p: Provider, q: Provider)
    requires p(0) == Raised && p(1) == Answer(map["currentPrice" := NonNumeric])
    requires p(2) == Answer(map["currentPrice" := Num(5.0)])
    requires q(0) == Answer(map[]) && q(1) == Answer(map["open" := Num(7.0)])
    ensures RetryFrom("AAPL", p, 3, 2, 0)
         == Fetch(Some(5.0), [Lookup("AAPL"), Sleep(2), Lookup("AAPL"), Sleep(2), Lookup("AAPL")])
    ensures RetryFrom("AAPL", q, 3, 2, 0) == Fetch(Some(7.0), [Lookup("AAPL"), Lookup("AAPL")])
  {
    PositiveCurrentPriceWins(map["currentPrice" := Num(5.0)]);
    ExtractPriceFollowsPriority(map["open" := Num(7.0)], 3);
    assert FirstUsable(map["currentPrice" := NonNumeric], PriceFields) == |PriceFields|;
  }

  /** `get_ticker_price` looks up nothing for a blank ticker and otherwise at
      most `maxRetries` times, always under the normalised symbol; any price it
      returns is positive. */
  lemma FetchPriceBounds(ticker: string, provider: Provider, maxRetries: nat, delay: nat)
    ensures var f := FetchPrice(ticker, provider, maxRetries, delay);
      && Lookups(f.trace) <= maxRetries
      && (forall e :: e in f.trace && e.Lookup? ==> e.symbol == Normalize(ticker))
      && (f.price.Some? ==> f.price.value > 0.0)
  {
    if !IsBlank(ticker) {
      RetryOutcome(Normalize(ticker), provider, maxRetries, delay, 0);
    }
  }

  /** `get_ticker_price(ticker)` with `MAX_RETRIES = maxRetries` and
      `RETRY_DELAY_SECONDS = delay`: returns the price and the lookups and
      sleeps it made, in order. */
  method GetTickerPrice(ticker: string, provider: Provider, maxRetries: nat, delay: nat)
    returns (price: Option<real>, trace: seq<Event>)
    ensures Fetch(price, trace) == FetchPrice(ticker, provider, maxRetries, delay)
    ensures IsBlank(ticker) ==> price == None && trace == []
    ensures price.Some? ==> price.value > 0.0
    ensures Lookups(trace) <= maxRetries
  {
    FetchPriceBounds(ticker, provider, maxRetries, delay);
    if ticker == [] || Strip(ticker) == [] {
      return None, [];
    }
    var symbol := Normalize(ticker);
    price, trace := RetryLoop(symbol, provider, maxRetries, delay);
  }

  /** One pass of the body of the retry loop on the answer `outcome`: an
      empty record skips to the next attempt without a delay, a resolved
      price is returned, and any other failure is followed by a delay unless
      it was the last attempt (`last`). */
  method Attempt(symbol: string, outcome: LookupOutcome, last: bool, delay: nat)
    returns (p: Option<real>, events: seq<Event>)
    ensures p == AttemptPrice(outcome)
    ensures events == [Lookup(symbol)]
                      + (if p.None? && !SkipsDelay(outcome) && !last then [Sleep(delay)] else [])
  {
    events := [Lookup(symbol)];
    p := None;
    if outcome.Answer? {
      var info := outcome.info;
      if |info| == 0 {
        return;
      }
      p := ExtractPrice(info);
      if p.Some? {
        return;
      }
    }
    if !last {
      events := events + [Sleep(delay)];
    }
  }

  /** The `for attempt in range(MAX_RETRIES)` loop of `get_ticker_price` on the
      normalised `symbol`. */
  method RetryLoop(symbol: string, provider: Provider, maxRetries: nat, delay: nat)
    returns (price: Option<real>, trace: seq<Event>)
    ensures Fetch(price, trace) == RetryFrom(symbol, provider, maxRetries, delay, 0)
  {
    ghost var whole := RetryFrom(symbol, provider, maxRetries, delay, 0);
    trace := [];
    for attempt := 0 to maxRetries
      invariant whole.price == RetryFrom(symbol, provider, maxRetries, delay, attempt).price
      invariant whole.trace == trace + RetryFrom(symbol, provider, maxRetries, delay, attempt).trace
    {
      var p, events := Attempt(symbol, provider(attempt), attempt == maxRetries - 1, delay);
      RetryAdvance(symbol, provider, maxRetries, delay, attempt, p, events);
      if p.Some? {
        price := p;
        trace := trace + events;
        return;
      }
      Regroup(trace, events, RetryFrom(symbol, provider, maxRetries, delay, attempt + 1).trace);
      trace := trace + events;
    }
    price := None;
  }

  /** The result of `get_multiple_prices` over `tickers`, and the steps taken.
      Each non-blank ticker is fetched with the provider advanced past the
      lookups already made; a blank one maps to `None`; a repeated ticker keeps
      the result of its last occurrence. */
  datatype Batch = Batch(results: map<string, Option<real>>, trace: seq<Event>)

  function MultiFetch(tickers: seq<string>, provider: Provider, maxRetries: nat, delay: nat): (b: Batch)
    ensures b.results.Keys == set t | t in tickers
  {
    if tickers == [] then Batch(map[], [])
    else
      var before := MultiFetch(tickers[..|tickers| - 1], provider, maxRetries, delay);
      var t := tickers[|tickers| - 1];
      assert tickers == tickers[..|tickers| - 1] + [t];
      if IsBlank(t) then Batch(before.results[t := None], before.trace)
      else
        var f := FetchPrice(t, Shift(provider, Lookups(before.trace)), maxRetries, delay);
        Batch(before.results[t := f.price], before.trace + f.trace)
  }

  /** What each result of `get_multiple_prices` satisfies: a blank input
      maps to `None`, and a price is positive. */
  predicate SoundResult(t: string, r: Option<real>) {
    (IsBlank(t) ==> r == None) && (r.Some? ==> r.value > 0.0)
  }

  /** Every result of `get_multiple_prices` is keyed by an input string as
      given (not normalised), every blank input maps to `None`, and every
      price is positive. */
  lemma {:induction false} MultiFetchResults(tickers: seq<string>, provider: Provider, maxRetries: nat, delay: nat)
    ensures forall t :: t in MultiFetch(tickers, provider, maxRetries, delay).results ==>
                          SoundResult(t, MultiFetch(tickers, provider, maxRetries, delay).results[t])
  {
    if tickers != [] {
      var init := tickers[..|tickers| - 1];
      var before := MultiFetch(init, provider, maxRetries, delay);
      MultiFetchResults(init, provider, maxRetries, delay);
      var t := tickers[|tickers| - 1];
      var shifted := Shift(provider, Lookups(before.trace));
      FetchPriceBounds(t, shifted, maxRetries, delay);
      var b := MultiFetch(tickers, provider, maxRetries, delay);
      var r := if IsBlank(t) then None else FetchPrice(t, shifted, maxRetries, delay).price;
      assert b.results == before.results[t := r];
      assert SoundResult(t, r);
      forall t' | t' in b.results
        ensures SoundResult(t', b.results[t'])
      {
        if t' != t {
          assert t' in before.results;
        }
      }
    }
  }

  /** The result for the ticker at position `i`, when no later position
      holds the same string, is that ticker's own `get_ticker_price` result:
      the fetch of it with the provider advanced past the lookups of the
      tickers before it (`None` without a lookup when it is blank). */
  lemma {:induction false} MultiFetchOwnResult(tickers: seq<string>, provider: Provider, maxRetries: nat, delay: nat, i: int)
    requires 0 <= i < |tickers|
    requires forall j :: i < j < |tickers| ==> tickers[j] != tickers[i]
    ensures var before := MultiFetch(tickers[..i], provider, maxRetries, delay);
      MultiFetch(tickers, provider, maxRetries, delay).results[tickers[i]]
      == FetchPrice(tickers[i], Shift(provider, Lookups(before.trace)), maxRetries, delay).price
  {
    var init := tickers[..|tickers| - 1];
    if i < |tickers| - 1 {
      assert init[..i] == tickers[..i] && init[i] == tickers[i];
      MultiFetchOwnResult(init, provider, maxRetries, delay, i);
      assert tickers[|tickers| - 1] != tickers[i];
    } else {
      assert init == tickers[..i];
    }
  }

  /** Number of non-blank tickers: those `get_multiple_prices` looks up. */
  function NonBlankCount(tickers: seq<string>): (n: nat)
    ensures n <= |tickers|
  {
    if tickers == [] then 0
    else NonBlankCount(tickers[..|tickers| - 1]) + (if IsBlank(tickers[|tickers| - 1]) then 0 else 1)
  }

  /** The whole batch makes at most `maxRetries` lookups per non-blank
      ticker; a blank ticker costs no lookup. */
  lemma {:induction false} MultiFetchLookupBound(tickers: seq<string>, provider: Provider, maxRetries: nat, delay: nat)
    ensures Lookups(MultiFetch(tickers, provider, maxRetries, delay).trace) <= maxRetries * NonBlankCount(tickers)
  {
    if tickers != [] {
      var init := tickers[..|tickers| - 1];
      var before := MultiFetch(init, provider, maxRetries, delay);
      var b := MultiFetch(tickers, provider, maxRetries, delay);
      MultiFetchLookupBound(init, provider, maxRetries, delay);
      var bound := maxRetries * NonBlankCount(init);
      var t := tickers[|tickers| - 1];
      if IsBlank(t) {
        assert b.trace == before.trace;
        assert NonBlankCount(tickers) == NonBlankCount(init);
      } else {
        var f := FetchPrice(t, Shift(provider, Lookups(before.trace)), maxRetries, delay);
        FetchPriceBounds(t, Shift(provider, Lookups(before.trace)), maxRetries, delay);
        assert b.trace == before.trace + f.trace;
        CountsOfConcat(before.trace, f.trace);
        assert NonBlankCount(tickers) == NonBlankCount(init) + 1;
        assert maxRetries * (NonBlankCount(init) + 1) == bound + maxRetries;
      }
    }
  }

  /** Appending another ticker leaves the result of a ticker already fetched
      unchanged: one ticker's outcome never overwrites another's. */
  lemma OtherTickerUnaffected(tickers: seq<string>, u: string, t: string, provider: Provider, maxRetries: nat, delay: nat)
    requires t in tickers && u != t
    ensures MultiFetch(tickers + [u], provider, maxRetries, delay).results[t]
         == MultiFetch(tickers, provider, maxRetries, delay).results[t]
  {
    assert (tickers + [u])[..|tickers + [u]| - 1] == tickers;
  }

  /** `get_multiple_prices(tickers)`: the per-ticker results and all the steps
      taken, in order. */
  method GetMultiplePrices(tickers: seq<string>, provider: Provider, maxRetries: nat, delay: nat)
    returns (results: map<string, Option<real>>, trace: seq<Event>)
    ensures Batch(results, trace) == MultiFetch(tickers, provider, maxRetries, delay)
    ensures results.Keys == set t | t in tickers
  {
    results, trace := map[], [];
    for i := 0 to |tickers|
      invariant Batch(results, trace) == MultiFetch(tickers[..i], provider, maxRetries, delay)
    {
      var ticker := tickers[i];
      assert tickers[..i + 1][..i] == tickers[..i];
      if ticker != [] && Strip(ticker) != [] {
        var price, steps := GetTickerPrice(ticker, Shift(provider, Lookups(trace)), maxRetries, delay);
        results := results[ticker := price];
        trace := trace + steps;
      } else {
        results := results[ticker := None];
      }
    }
    assert tickers[..|tickers|] == tickers;
  }
}
