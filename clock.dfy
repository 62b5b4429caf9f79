/** Local wall-clock time as whole seconds. The updater reads `datetime.now()`;
    here an instant is a number of seconds counted from a local midnight, and the
    fields of the reading (`.hour`, `.minute`, `.second`) are derived from it.
    Dafny's `%` and `/` on `int` never give a negative remainder, so every
    instant, also a negative one, has a proper time of day. */
module Clock {

  const SecondsPerMinute: int := 60
  const SecondsPerHour: int := 3600
  const SecondsPerDay: int := 86400

  /** Seconds elapsed since the local midnight that starts the day of `t`. */
  function SecondOfDay(t: int): (s: int)
    ensures 0 <= s < SecondsPerDay
  {
    t % SecondsPerDay
  }

  /** `datetime.hour`. */
  function Hour(t: int): (h: int)
    ensures 0 <= h < 24
  {
    SecondOfDay(t) / SecondsPerHour
  }

  /** `datetime.minute`. */
  function Minute(t: int): (m: int)
    ensures 0 <= m < 60
  {
    SecondOfDay(t) % SecondsPerHour / SecondsPerMinute
  }

  /** `datetime.second`. */
  function Second(t: int): (s: int)
    ensures 0 <= s < 60
  {
    SecondOfDay(t) % SecondsPerMinute
  }

  /** The instant `t.replace(hour=0, minute=0, second=0)`. */
  function DayStart(t: int): int {
    t - SecondOfDay(t)
  }

  /** The instant `t.replace(minute=0, second=0)`. */
  function HourStart(t: int): int {
    DayStart(t) + Hour(t) * SecondsPerHour
  }

  /** A reading splits into its day, hour, minute and second, and the start of
      the day is a whole number of days. */
  lemma Decompose(t: int)
    ensures t == DayStart(t) + Hour(t) * 3600 + Minute(t) * 60 + Second(t)
    ensures DayStart(t) % SecondsPerDay == 0
    ensures t == HourStart(t) + Minute(t) * 60 + Second(t)
  {
  }

  /** Every instant of the day that starts at `d` reads its offset from `d`. */
  lemma WithinDay(d: int, t: int)
    requires d % SecondsPerDay == 0
    requires d <= t < d + SecondsPerDay
    ensures DayStart(t) == d && SecondOfDay(t) == t - d
  {
    var k := d / SecondsPerDay;
    assert d == SecondsPerDay * k;
    assert t == SecondsPerDay * k + (t - d);
  }

  /** Every instant of the hour that starts at `h` reads its minute and second
      from its offset to `h`, and has `h` as its hour start. */
  lemma WithinHour(t0: int, t: int)
    requires HourStart(t0) <= t < HourStart(t0) + SecondsPerHour
    ensures HourStart(t) == HourStart(t0)
    ensures Minute(t) == (t - HourStart(t0)) / 60
    ensures Second(t) == (t - HourStart(t0)) % 60
  {
    Decompose(t0);
    WithinDay(DayStart(t0), t);
  }

  /** An instant on a whole hour of the day reads minute 0 and second 0. */
  lemma TopOfHour(t: int, h: int)
    requires SecondOfDay(t) == h * 3600
    ensures Minute(t) == 0 && Second(t) == 0
  {
  }

  /** An instant whose time of day is h:m:s reads hour h, minute m, second s. */
  lemma FromFields(t: int, h: int, m: int, s: int)
    requires 0 <= h < 24 && 0 <= m < 60 && 0 <= s < 60
    requires SecondOfDay(t) == h * 3600 + m * 60 + s
    ensures Hour(t) == h && Minute(t) == m && Second(t) == s
  {
    var d := SecondOfDay(t);
    assert d / 3600 == h;
    assert d % 3600 == m * 60 + s;
  }
}
