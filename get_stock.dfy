/** The original script (getStock.py), which the application replaced: its
    wait between sweeps, its price lookup, and its sweep over the ticker row.
    The clock is an instant in whole seconds (module Clock); the answers of
    the quote provider during a sweep are a finite script, one answer per
    lookup, so a sweep that is still retrying when the script runs out is
    reported as spinning instead of running forever. */
module GetStock {
  import opened Common
  import opened Clock
  import opened StockFetcher

  // ---------------------------------------------------------------------
  // The wait between sweeps (`waitUntilNextTime`)
  // ---------------------------------------------------------------------

  /** The seconds `waitUntilNextTime` sleeps in total when called at `now`:
      before 09:00 it sleeps until the same minute of the 9 o'clock hour and
      returns; from 16:00 on it sleeps until the same minute of 8 o'clock the
      next morning and then, since that branch does not return, also the
      minutes to the next multiple of ten; in between, only those minutes. */
  function WaitUntilNextTime(now: int): (wait: int)
    ensures wait > 0
  {
    var hour, minute := Hour(now), Minute(now);
    var toNextTen := (10 - minute % 10) * 60;
    if hour <= 8 then (9 - hour) * 3600
    else if hour >= 16 then (9 + 23 - hour) * 3600 + toNextTen
    else toNextTen
  }

  /** Before 09:00 the script wakes in the 9 o'clock hour of the same day, at
      the minute and second it went to sleep. */
  lemma EarlyWakeAtNine(now: int)
    requires Hour(now) <= 8
    ensures var wake := now + WaitUntilNextTime(now);
      && DayStart(wake) == DayStart(now) && Hour(wake) == 9
      && Minute(wake) == Minute(now) && Second(wake) == Second(now)
  {
    var h, m, sec := Hour(now), Minute(now), Second(now);
    Decompose(now);
    var wake := now + WaitUntilNextTime(now);
    assert wake == DayStart(now) + 9 * 3600 + m * 60 + sec;
    WithinDay(DayStart(now), wake);
    FromFields(wake, 9, m, sec);
  }

  /** During the day the script sleeps one to ten minutes, to the next
      minute that is a multiple of ten (the top of the next hour after :50),
      keeping its second. */
  lemma DaytimeWakeOnNextTen(now: int)
    requires 9 <= Hour(now) <= 15
    ensures 60 <= WaitUntilNextTime(now) <= 600
    ensures var wake := now + WaitUntilNextTime(now);
      && Second(wake) == Second(now) && Minute(wake) % 10 == 0
      && (Minute(now) < 50 ==> Hour(wake) == Hour(now) && Minute(wake) == Minute(now) / 10 * 10 + 10)
      && (Minute(now) >= 50 ==> Hour(wake) == Hour(now) + 1 && Minute(wake) == 0)
  {
    var h, m0, sec := Hour(now), Minute(now), Second(now);
    Decompose(now);
    var wake := now + WaitUntilNextTime(now);
    var m := m0 / 10 * 10 + 10;
    assert wake == DayStart(now) + h * 3600 + m * 60 + sec;
    WithinDay(DayStart(now), wake);
    if m0 < 50 {
      FromFields(wake, h, m, sec);
    } else {
      FromFields(wake, h + 1, 0, sec);
    }
  }

  /** From 16:00 on the script wakes the next morning, at 8 o'clock on the
      next multiple of ten minutes, or at 09:00 after :50; so for most
      evening calls it wakes before the 9 o'clock opening it was written to
      wait for. */
  lemma LateWakeBeforeNine(now: int)
    requires Hour(now) >= 16
    ensures var wake := now + WaitUntilNextTime(now);
      && DayStart(wake) == DayStart(now) + SecondsPerDay && Second(wake) == Second(now)
      && (Minute(now) < 50 ==> Hour(wake) == 8 && Minute(wake) == Minute(now) / 10 * 10 + 10)
      && (Minute(now) >= 50 ==> Hour(wake) == 9 && Minute(wake) == 0)
  {
    var h, m0, sec := Hour(now), Minute(now), Second(now);
    Decompose(now);
    var wake := now + WaitUntilNextTime(now);
    var m := m0 / 10 * 10 + 10;
    var next := DayStart(now) + SecondsPerDay;
    assert wake == next + 8 * 3600 + m * 60 + sec;
    WithinDay(next, wake);
    if m0 < 50 {
      FromFields(wake, 8, m, sec);
    } else {
      FromFields(wake, 9, 0, sec);
    }
  }

  // ---------------------------------------------------------------------
  // The price lookup (`findTickerValue`)
  // ---------------------------------------------------------------------

  /** What `findTickerValue` does with one lookup: returns a value, returns
      `None`, or raises (the lookup itself raised, or `bid + ask` or the
      division by 2 rejected a non-numeric side). */
  datatype Found = Value(v: FieldValue) | NoValue | Raises

  /** `info.get(key) != None`: the key is present and does not hold `None`. */
  predicate Given(info: QuoteRecord, key: string) {
    key in info && !info[key].Null?
  }

  /** `findTickerValue` on one answer of the provider: `currentPrice` when it
      is not `None`, whatever it holds (zero, negative or non-numeric
      included); else the mean of `bid` and `ask` when neither is `None`,
      which raises when a side is not a number; else `None`. */
  function FindTickerValue(o: LookupOutcome): (r: Found)
    ensures o.Raised? ==> r == Raises
    ensures o.Answer? && Given(o.info, "currentPrice") ==> r == Value(o.info["currentPrice"])
    ensures o.Answer? && !Given(o.info, "currentPrice") && Given(o.info, "bid") && Given(o.info, "ask") ==>
      r == if o.info["bid"].Num? && o.info["ask"].Num?
           then Value(Num((o.info["bid"].x + o.info["ask"].x) / 2.0))
           else Raises
    ensures r == NoValue <==>
      o.Answer? && !Given(o.info, "currentPrice") && !(Given(o.info, "bid") && Given(o.info, "ask"))
    ensures r.Value? ==> !r.v.Null?
  {
    match o
    case Raised => Raises
    case Answer(info) =>
      if Given(info, "currentPrice") then Value(info["currentPrice"])
      else if Given(info, "bid") && Given(info, "ask") then
        if info["bid"].Num? && info["ask"].Num? then Value(Num((info["bid"].x + info["ask"].x) / 2.0))
        else Raises
      else NoValue
  }

  /** On a record with a positive `currentPrice` the script and the
      application agree. */
  lemma AgreesOnPositiveCurrentPrice(info: QuoteRecord)
    requires "currentPrice" in info && info["currentPrice"].Num? && info["currentPrice"].x > 0.0
    ensures FindTickerValue(Answer(info)) == Value(Num(info["currentPrice"].x))
    ensures ExtractPrice(info) == Some(info["currentPrice"].x)
  {
    PositiveCurrentPriceWins(info);
  }

  /** Without `currentPrice` and without any qualifying direct field, the
      script and the application both take the mean of a positive bid and
      ask. */
  lemma AgreesOnBidAskMean(info: QuoteRecord)
    requires !Given(info, "currentPrice")
    requires forall j :: 0 <= j < |PriceFields| ==> !Usable(info, PriceFields[j])
    requires "bid" in info && info["bid"].Num? && info["bid"].x > 0.0
    requires "ask" in info && info["ask"].Num? && info["ask"].x > 0.0
    ensures ExtractPrice(info).Some?
    ensures FindTickerValue(Answer(info)) == Value(Num(ExtractPrice(info).value))
  {
    FallbackWhenNoDirectField(info);
  }

  /** The script takes a zero `currentPrice` as the price, where the
      application moves on to the next field. */
  lemma ZeroCurrentPriceAccepted()
    ensures var info := map["currentPrice" := Num(0.0), "regularMarketPrice" := Num(5.0)];
      && FindTickerValue(Answer(info)) == Value(Num(0.0))
      && ExtractPrice(info) == Some(5.0)
  {
    var info := map["currentPrice" := Num(0.0), "regularMarketPrice" := Num(5.0)];
    ExtractPriceFollowsPriority(info, 1);
  }

  // ---------------------------------------------------------------------
  // The sweep over the ticker row
  // ---------------------------------------------------------------------

  /** The steps of a sweep: a lookup of a ticker, a one-second pause, a
      write of a value into the cell at (row, column). */
  datatype Step = Query(ticker: string) | Pause(seconds: nat) | Write(row: nat, col: nat, value: FieldValue)

  /** How retrying one ticker ends: with a value, with an exception, or still
      retrying when the script of answers runs out. */
  datatype SpinEnd = Resolved(v: FieldValue) | Aborted | Exhausted

  datatype Spin = Spin(end: SpinEnd, steps: seq<Step>, next: nat)

  /** The `while price == None` loop for `ticker`, with the answers
      `script[k..]`: each round looks up and pauses a second, until a value
      is found or the lookup raises. */
  function SpinFrom(ticker: string, script: seq<LookupOutcome>, k: nat): (s: Spin)
    ensures k <= s.next
    decreases |script| - k
  {
    if k >= |script| then Spin(Exhausted, [], k)
    else
      match FindTickerValue(script[k])
      case Raises => Spin(Aborted, [Query(ticker)], k + 1)
      case Value(v) => Spin(Resolved(v), [Query(ticker), Pause(1)], k + 1)
      case NoValue =>
        var rest := SpinFrom(ticker, script, k + 1);
        Spin(rest.end, [Query(ticker), Pause(1)] + rest.steps, rest.next)
  }

  /** How a sweep ends: every column done, abandoned by an exception (the
      bare `except` of the script), or retrying forever. */
  datatype Status = Finished | Abandoned | Spinning

  datatype Sweep = Sweep(status: Status, steps: seq<Step>)

  /** A cell of the ticker row that the sweep passes over. */
  predicate Skipped(cell: string) {
    cell == [] || cell == "Total" || cell == "Unused"
  }

  /** The sweep from column index `i` on, with the answers `script[k..]`:
      skipped cells are passed over, every other ticker is retried until it
      has a value, which is written to row 3 of its own column. */
  function SweepFrom(row: seq<string>, script: seq<LookupOutcome>, i: nat, k: nat): Sweep
    decreases |row| - i, 1
  {
    if i >= |row| then Sweep(Finished, [])
    else if Skipped(row[i]) then SweepFrom(row, script, i + 1, k)
    else SweepAfterSpin(row, script, i, SpinFrom(row[i], script, k))
  }

  /** The sweep once the ticker at column index `i` has been retried with
      outcome `spin`: an exception abandons the sweep, running out of answers
      leaves it spinning, and a value is written before the next column. */
  function SweepAfterSpin(row: seq<string>, script: seq<LookupOutcome>, i: nat, spin: Spin): Sweep
    requires i < |row|
    decreases |row| - i, 0
  {
    match spin.end
    case Aborted => Sweep(Abandoned, spin.steps)
    case Exhausted => Sweep(Spinning, spin.steps)
    case Resolved(v) =>
      var rest := SweepFrom(row, script, i + 1, spin.next);
      Sweep(rest.status, spin.steps + [Write(3, i + 1, v)] + rest.steps)
  }

  /** A lookup that finds nothing only adds its lookup and its pause in
      front of the rest of the sweep. */
  lemma SweepAfterMiss(row: seq<string>, script: seq<LookupOutcome>, i: nat, ticker: string, k: nat)
    requires i < |row| && k < |script| && FindTickerValue(script[k]) == NoValue
    ensures var now, later := SweepAfterSpin(row, script, i, SpinFrom(ticker, script, k)),
                              SweepAfterSpin(row, script, i, SpinFrom(ticker, script, k + 1));
      now.status == later.status && now.steps == [Query(ticker), Pause(1)] + later.steps
  {
    var rest := SpinFrom(ticker, script, k + 1);
    if rest.end.Resolved? {
      var after := SweepFrom(row, script, i + 1, rest.next);
      assert ([Query(ticker), Pause(1)] + rest.steps) + [Write(3, i + 1, rest.end.v)] + after.steps
          == [Query(ticker), Pause(1)] + (rest.steps + [Write(3, i + 1, rest.end.v)] + after.steps);
    }
  }

  /** A sweep of the row read from the sheet: the first column holds a label
      and is never looked at. */
  function SweepSpec(row: seq<string>, script: seq<LookupOutcome>): Sweep {
    SweepFrom(row, script, 1, 0)
  }

  /** Retrying one ticker looks up only that ticker, writes nothing, and
      writes a value only once found. */
  lemma {:induction false} SpinStepsAreLookups(ticker: string, script: seq<LookupOutcome>, k: nat)
    ensures forall e :: e in SpinFrom(ticker, script, k).steps ==> e == Query(ticker) || e == Pause(1)
    decreases |script| - k
  {
    if k < |script| && FindTickerValue(script[k]) == NoValue {
      SpinStepsAreLookups(ticker, script, k + 1);
    }
  }

  /** Every write of a sweep from column index `i` goes to row 3, to a
      column after `i` whose cell is not skipped, and writes a found value. */
  lemma {:induction false} WritesGoToRowThree(row: seq<string>, script: seq<LookupOutcome>, i: nat, k: nat)
    ensures forall e :: e in SweepFrom(row, script, i, k).steps && e.Write? ==>
      && e.row == 3 && i + 1 <= e.col <= |row| && !Skipped(row[e.col - 1]) && !e.value.Null?
    decreases |row| - i
  {
    if i < |row| {
      if Skipped(row[i]) {
        WritesGoToRowThree(row, script, i + 1, k);
      } else {
        var spin := SpinFrom(row[i], script, k);
        SpinStepsAreLookups(row[i], script, k);
        SpinResolvesToFound(row[i], script, k);
        if spin.end.Resolved? {
          WritesGoToRowThree(row, script, i + 1, spin.next);
        }
      }
    }
  }

  /** A value a spin resolves to is one `findTickerValue` returned, so it is
      never `None`. */
  lemma {:induction false} SpinResolvesToFound(ticker: string, script: seq<LookupOutcome>, k: nat)
    ensures var s := SpinFrom(ticker, script, k); s.end.Resolved? ==> !s.end.v.Null?
    decreases |script| - k
  {
    if k < |script| && FindTickerValue(script[k]) == NoValue {
      SpinResolvesToFound(ticker, script, k + 1);
    }
  }

  /** The first column, which holds the row's label, is never written. */
  lemma LabelColumnNeverWritten(row: seq<string>, script: seq<LookupOutcome>)
    ensures forall e :: e in SweepSpec(row, script).steps && e.Write? ==> e.col >= 2
  {
    WritesGoToRowThree(row, script, 1, 0);
  }

  /** The number of lookups among `steps`. */
  function Queries(steps: seq<Step>): nat {
    if steps == [] then 0 else (if steps[0].Query? then 1 else 0) + Queries(steps[1..])
  }

  /** `n` answers without a price. */
  function Misses(n: nat): (script: seq<LookupOutcome>)
    ensures |script| == n
    ensures forall j :: 0 <= j < n ==> FindTickerValue(script[j]) == NoValue
  {
    seq(n, j => Answer(map[]))
  }

  /** There is no retry bound: for every `n`, a ticker whose lookups keep
      finding nothing is looked up `n` times and is still being retried. */
  lemma {:induction false} NoRetryBound(ticker: string, n: nat, k: nat)
    requires k <= n
    ensures SpinFrom(ticker, Misses(n), k).end == Exhausted
    ensures Queries(SpinFrom(ticker, Misses(n), k).steps) == n - k
    decreases n - k
  {
    if k < n {
      NoRetryBound(ticker, n, k + 1);
      var rest := SpinFrom(ticker, Misses(n), k + 1);
      assert ([Query(ticker), Pause(1)] + rest.steps)[1..] == [Pause(1)] + rest.steps;
      assert ([Pause(1)] + rest.steps)[1..] == rest.steps;
    }
  }

  /** One round of `SpinFrom`, by what the lookup at `k` found. */
  lemma SpinAdvance(ticker: string, script: seq<LookupOutcome>, k: nat)
    requires k < |script|
    ensures var found, s, rest := FindTickerValue(script[k]), SpinFrom(ticker, script, k),
                                  SpinFrom(ticker, script, k + 1);
      && (found.Raises? ==> s == Spin(Aborted, [Query(ticker)], k + 1))
      && (found.Value? ==> s == Spin(Resolved(found.v), [Query(ticker), Pause(1)], k + 1))
      && (found.NoValue? ==> s == Spin(rest.end, [Query(ticker), Pause(1)] + rest.steps, rest.next))
  {
  }

  /** Regrouping the steps of a spin built up round by round. */
  lemma RegroupSteps(before: seq<Step>, round: seq<Step>, rest: seq<Step>)
    ensures before + (round + rest) == before + round + rest
  {
  }

  /** The `while price == None` loop of the sweep for `ticker`, starting at
      answer `start` of the script: look the ticker up, pause a second, and
      go on while nothing was found. */
  method RetryUntilFound(ticker: string, script: seq<LookupOutcome>, start: nat)
    returns (end: SpinEnd, steps: seq<Step>, next: nat)
    ensures Spin(end, steps, next) == SpinFrom(ticker, script, start)
  {
    steps, next := [], start;
    if start >= |script| {
      return Exhausted, steps, next;
    }
    ghost var whole := SpinFrom(ticker, script, start);
    var price: Found := NoValue;
    while price == NoValue
      invariant next <= |script| && !price.Raises?
      invariant price == NoValue ==>
        && whole.end == SpinFrom(ticker, script, next).end
        && whole.steps == steps + SpinFrom(ticker, script, next).steps
        && whole.next == SpinFrom(ticker, script, next).next
      invariant price.Value? ==> whole == Spin(Resolved(price.v), steps, next)
      decreases |script| - next + (if price == NoValue then 1 else 0)
    {
      if next >= |script| {
        return Exhausted, steps, next;
      }
      SpinAdvance(ticker, script, next);
      price := FindTickerValue(script[next]);
      if price.Raises? {
        return Aborted, steps + [Query(ticker)], next + 1;
      }
      RegroupSteps(steps, [Query(ticker), Pause(1)], SpinFrom(ticker, script, next + 1).steps);
      steps := steps + [Query(ticker), Pause(1)];
      next := next + 1;
    }
    end := Resolved(price.v);
  }

  /** The sweep over `row` with the provider's answers `script`: the loop
      over the columns after the first, retrying each ticker until it has a
      value and writing that value below it. */
  method SweepRow(row: seq<string>, script: seq<LookupOutcome>) returns (status: Status, steps: seq<Step>)
    ensures Sweep(status, steps) == SweepSpec(row, script)
  {
    ghost var whole := SweepSpec(row, script);
    steps := [];
    var k := 0;
    var i := 1;
    while i < |row|
      invariant whole.status == SweepFrom(row, script, i, k).status
      invariant whole.steps == steps + SweepFrom(row, script, i, k).steps
      decreases |row| - i
    {
      var ticker := row[i];
      if |ticker| == 0 || ticker == "Total" || ticker == "Unused" {
        i := i + 1;
        continue;
      }
      var end, spinSteps, next := RetryUntilFound(ticker, script, k);
      if end.Exhausted? {
        return Spinning, steps + spinSteps;
      } else if end.Aborted? {
        return Abandoned, steps + spinSteps;
      }
      ghost var rest := SweepFrom(row, script, i + 1, next);
      assert whole.steps == (steps + spinSteps + [Write(3, i + 1, end.v)]) + rest.steps;
      steps := steps + spinSteps + [Write(3, i + 1, end.v)];
      k := next;
      i := i + 1;
    }
    status := Finished;
  }
}
