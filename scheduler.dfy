/** The update scheduler (`UpdateScheduler` in scheduler.py): decides whether a
    refresh cycle runs now and how long to sleep before the next one. The
    configuration (`MARKET_OPEN_HOUR`, `MARKET_CLOSE_HOUR`,
    `UPDATE_INTERVAL_MINUTES`) is a `Window`; the clock reading `datetime.now()`
    is the parameter `now`, an instant in whole seconds (module Clock). */
module Scheduler {
  import opened Common
  import opened Clock

  /** Market hours are the half-open hour range [openHour, closeHour); an
      update cycle is due every `intervalMinutes` inside them. */
  datatype MarketWindow = MarketWindow(openHour: int, closeHour: int, intervalMinutes: int) {
    predicate Valid() {
      0 <= openHour < closeHour <= 24 && intervalMinutes > 0
    }
  }

  /** The configurations the updater is run with. */
  type Window = w: MarketWindow | w.Valid() witness MarketWindow(9, 16, 10)

  /** `_is_outside_market_hours`. */
  predicate OutsideMarketHours(w: Window, now: int) {
    Hour(now) < w.openHour || Hour(now) >= w.closeHour
  }

  /** Inside market hours means: from `openHour`:00:00 up to, but excluding,
      `closeHour`:00:00 of the same day. */
  lemma InsideMarketHoursIsHalfOpenWindow(w: Window, now: int)
    ensures !OutsideMarketHours(w, now)
        <==> w.openHour * 3600 <= SecondOfDay(now) < w.closeHour * 3600
  {
    var s := SecondOfDay(now);
    assert Hour(now) * 3600 <= s < Hour(now) * 3600 + 3600;
  }

  /** The target instant of `_calculate_wait_until_market_open`: today at
      `openHour`:00:00 before the opening hour, tomorrow at that time otherwise. */
  function MarketOpenTarget(w: Window, now: int): int {
    if Hour(now) < w.openHour then DayStart(now) + w.openHour * 3600
    else DayStart(now) + SecondsPerDay + w.openHour * 3600
  }

  /** `_calculate_wait_until_market_open`, in whole seconds. The sleep is never
      zero, lasts at most a day, and ends on the first `openHour`:00:00 after
      `now`; so the `max(0, ...)` clamp never changes the result. */
  function WaitUntilMarketOpen(w: Window, now: int): (wait: int)
    ensures 0 < wait <= SecondsPerDay
    ensures SecondOfDay(now + wait) == w.openHour * 3600
    ensures forall t :: now < t < now + wait ==> SecondOfDay(t) != w.openHour * 3600
  {
    var waitSeconds := MarketOpenTarget(w, now) - now;
    var r := if waitSeconds < 0 then 0 else waitSeconds;
    OpenTargetIsNextOpening(w, now);
    r
  }

  /** The market-open target is the next opening instant strictly after `now`. */
  lemma OpenTargetIsNextOpening(w: Window, now: int)
    ensures now < MarketOpenTarget(w, now) <= now + SecondsPerDay
    ensures SecondOfDay(MarketOpenTarget(w, now)) == w.openHour * 3600
    ensures forall t :: now < t < MarketOpenTarget(w, now) ==> SecondOfDay(t) != w.openHour * 3600
  {
    var d := DayStart(now);
    var target := MarketOpenTarget(w, now);
    Decompose(now);
    if Hour(now) < w.openHour {
      WithinDay(d, target);
      forall t | now < t < target ensures SecondOfDay(t) != w.openHour * 3600 {
        WithinDay(d, t);
      }
    } else {
      WithinDay(d + SecondsPerDay, target);
      forall t | now < t < target ensures SecondOfDay(t) != w.openHour * 3600 {
        if t < d + SecondsPerDay {
          WithinDay(d, t);
        } else {
          WithinDay(d + SecondsPerDay, t);
        }
      }
    }
  }

  /** The minute `((minute // I) + 1) * I` of `_calculate_wait_until_next_interval`. */
  function NextIntervalMinute(w: Window, now: int): int {
    (Minute(now) / w.intervalMinutes + 1) * w.intervalMinutes
  }

  /** The target instant of `_calculate_wait_until_next_interval`: that minute of
      the current hour, or the top of the next hour when it is 60 or more. */
  function NextIntervalTarget(w: Window, now: int): int {
    var next := NextIntervalMinute(w, now);
    if next >= 60 then HourStart(now) + SecondsPerHour
    else HourStart(now) + next * SecondsPerMinute
  }

  /** An update boundary: a whole minute that is a multiple of the interval past
      the top of the hour. */
  predicate IsIntervalBoundary(w: Window, t: int) {
    Second(t) == 0 && Minute(t) % w.intervalMinutes == 0
  }

  /** `_calculate_wait_until_next_interval`, in whole seconds. The sleep is never
      zero (no busy loop, even exactly on a boundary), lasts at most one interval
      and at most an hour, and ends on the first boundary strictly after `now`. */
  function WaitUntilNextInterval(w: Window, now: int): (wait: int)
    ensures 1 <= wait <= w.intervalMinutes * 60 && wait <= SecondsPerHour
    ensures IsIntervalBoundary(w, now + wait)
    ensures forall t :: now < t < now + wait ==> !IsIntervalBoundary(w, t)
  {
    var waitSeconds := NextIntervalTarget(w, now) - now;
    var r := if waitSeconds < 0 then 0 else waitSeconds;
    IntervalTargetIsNextBoundary(w, now);
    r
  }

  /** Multiplying by a non-negative factor keeps the order. */
  lemma MulMonotone(c: int, a: int, b: int)
    requires 0 <= c && a <= b
    ensures c * a <= c * b
  {
    assert c * b - c * a == c * (b - a);
  }

  /** A multiple of `i` leaves no remainder. */
  lemma MultipleHasNoRemainder(a: int, i: int)
    requires 0 < i
    ensures (a * i) % i == 0
  {
    var q, r := (a * i) / i, (a * i) % i;
    assert a * i == i * q + r && 0 <= r < i;
    assert i * (a - q) == r;
    if a - q > 0 {
      MulMonotone(i, 1, a - q);
    } else if a - q < 0 {
      MulMonotone(i, a - q, -1);
    }
  }

  /** The smallest multiple of `i` above `m` is `(m / i + 1) * i`. */
  lemma NextMultiple(m: int, i: int)
    requires 0 <= m && 0 < i
    ensures m < (m / i + 1) * i <= m + i
    ensures ((m / i + 1) * i) % i == 0
    ensures forall k :: m < k && k % i == 0 ==> (m / i + 1) * i <= k
  {
    var q0 := m / i;
    assert m == i * q0 + m % i;
    assert (q0 + 1) * i == i * q0 + i;
    MultipleHasNoRemainder(q0 + 1, i);
    forall k | m < k && k % i == 0 ensures (q0 + 1) * i <= k {
      var q := k / i;
      assert k == i * q;
      if q <= q0 {
        MulMonotone(i, q, q0);
      } else {
        MulMonotone(i, q0 + 1, q);
      }
    }
  }

  /** The interval target is the first boundary strictly after `now`, at most one
      interval and at most an hour away. */
  lemma IntervalTargetIsNextBoundary(w: Window, now: int)
    ensures now < NextIntervalTarget(w, now)
    ensures NextIntervalTarget(w, now) - now <= w.intervalMinutes * 60
    ensures NextIntervalTarget(w, now) - now <= SecondsPerHour
    ensures IsIntervalBoundary(w, NextIntervalTarget(w, now))
    ensures forall t :: now < t < NextIntervalTarget(w, now) ==> !IsIntervalBoundary(w, t)
  {
    IntervalTargetBounds(w, now);
    IntervalTargetIsBoundary(w, now);
    forall t | now < t < NextIntervalTarget(w, now) ensures !IsIntervalBoundary(w, t) {
      NoBoundaryBeforeIntervalTarget(w, now, t);
    }
  }

  /** The interval target lies in (now, now + interval] and within the next hour. */
  lemma IntervalTargetBounds(w: Window, now: int)
    ensures now < NextIntervalTarget(w, now)
    ensures NextIntervalTarget(w, now) - now <= w.intervalMinutes * 60
    ensures NextIntervalTarget(w, now) - now <= SecondsPerHour
  {
    Decompose(now);
    NextMultiple(Minute(now), w.intervalMinutes);
  }

  /** The interval target is a boundary. */
  lemma IntervalTargetIsBoundary(w: Window, now: int)
    ensures IsIntervalBoundary(w, NextIntervalTarget(w, now))
  {
    var target := NextIntervalTarget(w, now);
    Decompose(now);
    IntervalTargetBounds(w, now);
    NextMultiple(Minute(now), w.intervalMinutes);
    if NextIntervalMinute(w, now) >= 60 {
      var d := DayStart(now);
      if Hour(now) < 23 {
        WithinDay(d, target);
        TopOfHour(target, Hour(now) + 1);
      } else {
        WithinDay(d + SecondsPerDay, target);
        TopOfHour(target, 0);
      }
    } else {
      WithinHour(now, target);
      assert Minute(target) == NextIntervalMinute(w, now);
    }
  }

  /** No instant strictly between `now` and the interval target is a boundary. */
  lemma NoBoundaryBeforeIntervalTarget(w: Window, now: int, t: int)
    requires now < t < NextIntervalTarget(w, now)
    ensures !IsIntervalBoundary(w, t)
  {
    var m := Minute(now);
    Decompose(now);
    NextMultiple(m, w.intervalMinutes);
    IntervalTargetBounds(w, now);
    WithinHour(now, t);
  }

  /** `get_next_update_time`: the opening instant outside market hours, the next
      interval boundary inside them. It repeats the branches of the two wait
      calculations rather than calling them, as the source does. */
  function NextUpdateTime(w: Window, now: int): int {
    if OutsideMarketHours(w, now) then
      if Hour(now) < w.openHour then DayStart(now) + w.openHour * 3600
      else DayStart(now) + SecondsPerDay + w.openHour * 3600
    else
      var next := (Minute(now) / w.intervalMinutes + 1) * w.intervalMinutes;
      if next >= 60 then HourStart(now) + SecondsPerHour
      else HourStart(now) + next * SecondsPerMinute
  }

  /** The wait `wait_until_next_update` computes: until the opening outside
      market hours, until the next interval boundary inside them. */
  function WaitBeforeNextUpdate(w: Window, now: int): int {
    if OutsideMarketHours(w, now) then WaitUntilMarketOpen(w, now)
    else WaitUntilNextInterval(w, now)
  }

  /** `get_next_update_time` reports exactly the instant `wait_until_next_update`
      sleeps until, and that instant is strictly in the future. */
  lemma NextUpdateTimeIsWaitTarget(w: Window, now: int)
    ensures NextUpdateTime(w, now) == now + WaitBeforeNextUpdate(w, now)
    ensures NextUpdateTime(w, now) > now
  {
    OpenTargetIsNextOpening(w, now);
    IntervalTargetIsNextBoundary(w, now);
  }

  /** `should_update`, given the scheduler's `last_update`. */
  predicate UpdateDue(w: Window, lastUpdate: Option<int>, now: int, force: bool) {
    if force then true
    else if OutsideMarketHours(w, now) then false
    else if lastUpdate.None? then true
    else now - lastUpdate.value >= w.intervalMinutes * SecondsPerMinute
  }

  /** Once a cycle completed at `c`, an unforced check inside market hours says
      yes exactly when a whole interval has passed since `c`; outside market
      hours it says no whatever the history. */
  lemma DueAfterCompletion(w: Window, c: int, now: int)
    ensures OutsideMarketHours(w, now) ==> !UpdateDue(w, Some(c), now, false)
    ensures !OutsideMarketHours(w, now) ==>
              (UpdateDue(w, Some(c), now, false) <==> c + w.intervalMinutes * 60 <= now)
  {
  }

  /** The run loop checks `should_update` right after each sleep ends on a
      boundary. When a cycle that started on boundary `b` completes at any
      later instant `c` before the next boundary, the sleep after it ends on
      that next boundary, less than an interval after `c`, so the check made
      there declines (inside market hours): a cycle that takes time is followed
      by a skipped boundary. */
  lemma CheckAfterSlowCycleDeclines(w: Window, b: int, c: int)
    requires IsIntervalBoundary(w, b)
    requires b < c < NextIntervalTarget(w, b)
    ensures c + WaitUntilNextInterval(w, c) == NextIntervalTarget(w, b)
    ensures !UpdateDue(w, Some(c), c + WaitUntilNextInterval(w, c), false)
  {
    IntervalTargetIsNextBoundary(w, b);
    IntervalTargetIsNextBoundary(w, c);
  }

  /** The latest interval boundary at or before `t`. */
  function LastBoundary(w: Window, t: int): int {
    HourStart(t) + Minute(t) / w.intervalMinutes * w.intervalMinutes * SecondsPerMinute
  }

  /** The latest boundary is a boundary, at most `t`, and every boundary at
      or before `t` is at most it; on a boundary it is the instant itself. */
  lemma LastBoundaryBounds(w: Window, t: int)
    ensures LastBoundary(w, t) <= t
    ensures IsIntervalBoundary(w, LastBoundary(w, t))
    ensures IsIntervalBoundary(w, t) ==> LastBoundary(w, t) == t
    ensures forall u :: u <= t && IsIntervalBoundary(w, u) ==> u <= LastBoundary(w, t)
  {
    var i, m := w.intervalMinutes, Minute(t);
    var lb := LastBoundary(w, t);
    Decompose(t);
    assert m == i * (m / i) + m % i;
    WithinHour(t, lb);
    MultipleHasNoRemainder(m / i, i);
    forall u | u <= t && IsIntervalBoundary(w, u) ensures u <= lb {
      if HourStart(t) <= u {
        WithinHour(t, u);
        MultipleBelow(Minute(u), m, i);
      }
    }
  }

  /** A multiple of `i` that is at most `b` is at most the largest multiple
      of `i` not above `b`. */
  lemma MultipleBelow(a: int, b: int, i: int)
    requires 0 < i && 0 <= a <= b && a % i == 0
    ensures a <= b / i * i
  {
    assert a == i * (a / i);
    assert b == i * (b / i) + b % i;
    if a / i > b / i {
      MulMonotone(i, b / i + 1, a / i);
    }
  }

  /** `should_update` as evidently intended: inside market hours an update
      is due when the last one completed before the latest boundary, so a
      cycle that takes time does not cost the next boundary. */
  predicate UpdateDueByBoundary(w: Window, lastUpdate: Option<int>, now: int, force: bool) {
    if force then true
    else if OutsideMarketHours(w, now) then false
    else if lastUpdate.None? then true
    else lastUpdate.value < LastBoundary(w, now)
  }

  /** With the corrected check, the boundary after a cycle that started on
      boundary `b` and completed at `c` runs the next cycle when it is inside
      market hours, while any re-check before that boundary declines. */
  lemma CorrectedCheckRunsEveryBoundary(w: Window, b: int, c: int, now: int)
    requires IsIntervalBoundary(w, b)
    requires b < c < NextIntervalTarget(w, b)
    ensures !OutsideMarketHours(w, NextIntervalTarget(w, b)) ==>
              UpdateDueByBoundary(w, Some(c), c + WaitUntilNextInterval(w, c), false)
    ensures c <= now < NextIntervalTarget(w, b) ==> !UpdateDueByBoundary(w, Some(c), now, false)
  {
    CheckAfterSlowCycleDeclines(w, b, c);
    LastBoundaryBounds(w, NextIntervalTarget(w, b));
    IntervalTargetIsNextBoundary(w, b);
    if c <= now < NextIntervalTarget(w, b) {
      LastBoundaryBounds(w, now);
      if b < LastBoundary(w, now) {
        NoBoundaryBeforeIntervalTarget(w, b, LastBoundary(w, now));
      }
    }
  }

  /** `UpdateScheduler`: the market window it was configured with and its one
      piece of state, the instant the last cycle completed. */
  class UpdateScheduler {
    const window: Window
    var lastUpdate: Option<int>

    /** `__init__`: no cycle has completed yet. */
    constructor (window: Window)
      ensures this.window == window && lastUpdate == None
    {
      this.window := window;
      lastUpdate := None;
    }

    /** `should_update(force)` at clock reading `now`. It changes no state. */
    method ShouldUpdate(now: int, force: bool) returns (r: bool)
      ensures force ==> r
      ensures !force && OutsideMarketHours(window, now) ==> !r
      ensures !force && !OutsideMarketHours(window, now) && lastUpdate.None? ==> r
      ensures !force && !OutsideMarketHours(window, now) && lastUpdate.Some? ==>
                (r <==> now - lastUpdate.value >= window.intervalMinutes * 60)
      ensures r == UpdateDue(window, lastUpdate, now, force)
    {
      if force {
        return true;
      }
      if OutsideMarketHours(window, now) {
        return false;
      }
      if lastUpdate == None {
        return true;
      }
      var sinceLast := now - lastUpdate.value;
      r := sinceLast >= window.intervalMinutes * SecondsPerMinute;
    }

    /** `mark_update_completed` at clock reading `now`. The new state does not
        depend on the old one, so marking twice at the same instant is the same
        as marking once. */
    method MarkUpdateCompleted(now: int)
      modifies this
      ensures lastUpdate == Some(now)
    {
      lastUpdate := Some(now);
    }

    /** `wait_until_next_update` at clock reading `now`: returns the sleep it
        performs, `None` for no sleep. It always sleeps, a positive number of
        seconds, and wakes at `get_next_update_time`. */
    method WaitUntilNextUpdate(now: int) returns (slept: Option<int>)
      ensures slept.Some? && slept.value > 0
      ensures slept == Some(WaitBeforeNextUpdate(window, now))
      ensures now + slept.value == NextUpdateTime(window, now)
    {
      var waitSeconds;
      if OutsideMarketHours(window, now) {
        waitSeconds := WaitUntilMarketOpen(window, now);
      } else {
        waitSeconds := WaitUntilNextInterval(window, now);
      }
      slept := None;
      if waitSeconds > 0 {
        slept := Some(waitSeconds);
      }
      NextUpdateTimeIsWaitTarget(window, now);
    }

    /** `get_next_update_time` at clock reading `now`. */
    method GetNextUpdateTime(now: int) returns (next: int)
      ensures next > now
      ensures next == now + WaitBeforeNextUpdate(window, now)
    {
      next := NextUpdateTime(window, now);
      NextUpdateTimeIsWaitTarget(window, now);
    }
  }

  /** A 09:00-16:00 window with a 10-minute interval: which checks say yes,
      before and after a completion mark (a cycle completed at 09:10:05
      makes the 09:20 check decline), and at closing time with and without
      `force`. */
  method WindowScenarioChecks() {
    var s := new UpdateScheduler(MarketWindow(9, 16, 10));
    var r := s.ShouldUpdate(8 * 3600 + 59 * 60, false);
    assert !r;
    r := s.ShouldUpdate(9 * 3600, false);
    assert r;
    s.MarkUpdateCompleted(9 * 3600);
    r := s.ShouldUpdate(9 * 3600 + 5 * 60, false);
    assert !r;
    r := s.ShouldUpdate(9 * 3600 + 10 * 60, false);
    assert r;
    s.MarkUpdateCompleted(9 * 3600 + 10 * 60 + 5);
    r := s.ShouldUpdate(9 * 3600 + 20 * 60, false);
    assert !r;
    r := s.ShouldUpdate(9 * 3600 + 30 * 60, false);
    assert r;
    r := s.ShouldUpdate(16 * 3600, false);
    assert !r;
    r := s.ShouldUpdate(16 * 3600, true);
    assert r;
  }

  /** The same window: how long the scheduler sleeps inside market hours,
      to the next ten-minute boundary. */
  method WindowScenarioWaits() {
    var s := new UpdateScheduler(MarketWindow(9, 16, 10));
    FromFields(9 * 3600 + 7 * 60, 9, 7, 0);
    var w := s.WaitUntilNextUpdate(9 * 3600 + 7 * 60);
    assert w == Some(180);
    FromFields(9 * 3600 + 50 * 60, 9, 50, 0);
    w := s.WaitUntilNextUpdate(9 * 3600 + 50 * 60);
    assert w == Some(600);
  }
}
