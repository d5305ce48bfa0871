/**
 * The calendar behind Python's naive `datetime`: the proleptic Gregorian
 * calendar for years 1..9999 with no time zone.  An instant is a number of
 * microseconds since 0001-01-01 00:00:00, the resolution of `datetime`.
 */
module Calendar {

  /** Microseconds since 0001-01-01 00:00:00 (naive local time). */
  type Instant = int

  const MicrosPerSecond: int := 1_000_000
  const MicrosPerMinute: int := 60_000_000
  const MicrosPerHour: int := 3_600_000_000
  const MicrosPerDay: int := 86_400_000_000
  const SecondsPerHour: int := 3600

  /** A calendar date, fields in the order of the `%d.%m.%Y` format. */
  datatype Date = Date(day: int, month: int, year: int)

  /** A wall-clock time of day to the minute, as `%H:%M` gives it. */
  datatype Time = Time(hour: int, minute: int)

  predicate IsLeap(y: int)
  {
    y % 4 == 0 && (y % 100 != 0 || y % 400 == 0)
  }

  function DaysInMonth(y: int, m: int): (n: int)
    requires 1 <= m <= 12
    ensures 28 <= n <= 31
    ensures n == 29 <==> m == 2 && IsLeap(y)
  {
    if m == 2 then (if IsLeap(y) then 29 else 28)
    else if m == 4 || m == 6 || m == 9 || m == 11 then 30
    else 31
  }

  function DaysInYear(y: int): int
  {
    if IsLeap(y) then 366 else 365
  }

  /** A date that `datetime` accepts: year 1..9999, a real day of that month. */
  predicate ValidDate(d: Date)
  {
    1 <= d.year <= 9999 && 1 <= d.month <= 12 && 1 <= d.day <= DaysInMonth(d.year, d.month)
  }

  predicate ValidTime(t: Time)
  {
    0 <= t.hour < 24 && 0 <= t.minute < 60
  }

  /** Days from 0001-01-01 to January 1st of year `y`. */
  function DaysBeforeYear(y: int): int
    requires y >= 1
  {
    var p := y - 1;
    365 * p + p / 4 - p / 100 + p / 400
  }

  /** Days from January 1st of year `y` to the first day of month `m`. */
  function DaysBeforeMonth(y: int, m: int): int
    requires 1 <= m <= 12
  {
    var common :=
      if m == 1 then 0 else if m == 2 then 31 else if m == 3 then 59
      else if m == 4 then 90 else if m == 5 then 120 else if m == 6 then 151
      else if m == 7 then 181 else if m == 8 then 212 else if m == 9 then 243
      else if m == 10 then 273 else if m == 11 then 304 else 334;
    if m > 2 && IsLeap(y) then common + 1 else common
  }

  /** Day number of a date, counted from 0001-01-01 as day 0 (Python's ordinal minus one). */
  function DayNumber(d: Date): (n: int)
    requires ValidDate(d)
    ensures DaysBeforeYear(d.year) <= n < DaysBeforeYear(d.year) + DaysInYear(d.year)
  {
    DaysBeforeYear(d.year) + DaysBeforeMonth(d.year, d.month) + d.day - 1
  }

  /** The instant of a full `datetime` value given by its fields. */
  function InstantOfFields(d: Date, hour: int, minute: int, second: int, micro: int): Instant
    requires ValidDate(d)
  {
    DayNumber(d) * MicrosPerDay + hour * MicrosPerHour + minute * MicrosPerMinute
      + second * MicrosPerSecond + micro
  }

  predicate ValidClockFields(hour: int, minute: int, second: int, micro: int)
  {
    0 <= hour < 24 && 0 <= minute < 60 && 0 <= second < 60 && 0 <= micro < MicrosPerSecond
  }

  /** The instant meant by a date and a time of day (seconds and microseconds zero). */
  function InstantOf(d: Date, t: Time): (i: Instant)
    requires ValidDate(d) && ValidTime(t)
    ensures i >= 0 && i % MicrosPerMinute == 0
    ensures i / MicrosPerDay == DayNumber(d)
  {
    InstantOfFields(d, t.hour, t.minute, 0, 0)
  }

  /** The day number of the date part of an instant (`.date()`). */
  function Today(now: Instant): int
  {
    now / MicrosPerDay
  }

  /**
   * Two instants agree in year, month, day, hour and minute; see
   * SameMinuteIffSameFields for why whole-minute division says exactly that.
   */
  predicate SameMinute(a: Instant, b: Instant)
  {
    a / MicrosPerMinute == b / MicrosPerMinute
  }

  /** Lexicographic order on (year, month, day): how `date` values compare. */
  predicate DateBefore(a: Date, b: Date)
  {
    a.year < b.year
    || (a.year == b.year && a.month < b.month)
    || (a.year == b.year && a.month == b.month && a.day < b.day)
  }

  lemma YearLength(y: int)
    requires y >= 1
    ensures DaysBeforeYear(y + 1) == DaysBeforeYear(y) + DaysInYear(y)
  {
    QuarterStep(y);
    CenturyStep(y);
    QuadCenturyStep(y);
  }

  lemma QuarterStep(y: int)
    ensures y / 4 == (y - 1) / 4 + (if y % 4 == 0 then 1 else 0)
  {
  }

  lemma CenturyStep(y: int)
    ensures y / 100 == (y - 1) / 100 + (if y % 100 == 0 then 1 else 0)
  {
  }

  lemma QuadCenturyStep(y: int)
    ensures y / 400 == (y - 1) / 400 + (if y % 400 == 0 then 1 else 0)
  {
  }

  lemma {:induction false} DaysBeforeYearMonotone(y: int, z: int)
    requires 1 <= y <= z
    ensures DaysBeforeYear(y) + (z - y) * 365 <= DaysBeforeYear(z)
    decreases z - y
  {
    if y < z {
      YearLength(y);
      DaysBeforeYearMonotone(y + 1, z);
    }
  }

  lemma MonthsIncrease(y: int, m: int, n: int)
    requires 1 <= m < n <= 12
    ensures DaysBeforeMonth(y, m) + DaysInMonth(y, m) <= DaysBeforeMonth(y, n)
  {
  }

  /** Earlier dates have smaller day numbers: the calendar order is the numeric order. */
  lemma DayNumberMonotone(a: Date, b: Date)
    requires ValidDate(a) && ValidDate(b)
    ensures DateBefore(a, b) <==> DayNumber(a) < DayNumber(b)
  {
    if DateBefore(a, b) {
      DayNumberStrict(a, b);
    } else if DateBefore(b, a) {
      DayNumberStrict(b, a);
    } else {
      assert a == b;
    }
  }

  lemma DayNumberStrict(a: Date, b: Date)
    requires ValidDate(a) && ValidDate(b) && DateBefore(a, b)
    ensures DayNumber(a) < DayNumber(b)
  {
    if a.year < b.year {
      YearLength(a.year);
      DaysBeforeYearMonotone(a.year + 1, b.year);
    } else if a.month < b.month {
      MonthsIncrease(a.year, a.month, b.month);
    }
  }

  /** Different valid dates never share a day number. */
  lemma DayNumberInjective(a: Date, b: Date)
    requires ValidDate(a) && ValidDate(b)
    ensures DayNumber(a) == DayNumber(b) <==> a == b
  {
    DayNumberMonotone(a, b);
    DayNumberMonotone(b, a);
    if a != b {
      assert DateBefore(a, b) || DateBefore(b, a);
    }
  }

  lemma MinuteOfFields(d: Date, hour: int, minute: int, second: int, micro: int)
    requires ValidDate(d) && ValidClockFields(hour, minute, second, micro)
    ensures InstantOfFields(d, hour, minute, second, micro) / MicrosPerMinute
      == DayNumber(d) * 1440 + hour * 60 + minute
    ensures InstantOfFields(d, hour, minute, second, micro) / MicrosPerDay == DayNumber(d)
  {
    var q := DayNumber(d) * 1440 + hour * 60 + minute;
    var r := second * MicrosPerSecond + micro;
    assert InstantOfFields(d, hour, minute, second, micro) == q * MicrosPerMinute + r;
    assert 0 <= r < MicrosPerMinute;
    var s := hour * MicrosPerHour + minute * MicrosPerMinute + r;
    assert InstantOfFields(d, hour, minute, second, micro) == DayNumber(d) * MicrosPerDay + s;
    assert 0 <= s < MicrosPerDay;
  }

  /**
   * The periodic check compares year, month, day, hour and minute of two
   * `datetime` values; for valid field values that is exactly equality of
   * the whole-minute counts of their instants.
   */
  lemma SameMinuteIffSameFields(
    d1: Date, h1: int, m1: int, s1: int, u1: int,
    d2: Date, h2: int, m2: int, s2: int, u2: int)
    requires ValidDate(d1) && ValidClockFields(h1, m1, s1, u1)
    requires ValidDate(d2) && ValidClockFields(h2, m2, s2, u2)
    ensures SameMinute(InstantOfFields(d1, h1, m1, s1, u1), InstantOfFields(d2, h2, m2, s2, u2))
      <==> d1 == d2 && h1 == h2 && m1 == m2
  {
    MinuteOfFields(d1, h1, m1, s1, u1);
    MinuteOfFields(d2, h2, m2, s2, u2);
    DayNumberInjective(d1, d2);
    var a := DayNumber(d1) * 1440 + h1 * 60 + m1;
    var b := DayNumber(d2) * 1440 + h2 * 60 + m2;
    if a == b {
      assert DayNumber(d1) == DayNumber(d2) by {
        assert 0 <= h1 * 60 + m1 < 1440 && 0 <= h2 * 60 + m2 < 1440;
      }
      assert h1 == h2;
    }
  }

  /**
   * `task_date.date() < datetime.now().date()` compares calendar dates; on
   * instants it is a comparison of day numbers.
   */
  lemma BeforeTodayIffEarlierDate(d: Date, nowDate: Date, hour: int, minute: int, second: int, micro: int)
    requires ValidDate(d) && ValidDate(nowDate) && ValidClockFields(hour, minute, second, micro)
    ensures DayNumber(d) < Today(InstantOfFields(nowDate, hour, minute, second, micro))
      <==> DateBefore(d, nowDate)
  {
    MinuteOfFields(nowDate, hour, minute, second, micro);
    DayNumberMonotone(d, nowDate);
  }

  /**
   * `datetime` values compare field by field: date, then hour, minute,
   * second and microsecond.
   */
  predicate FieldsBefore(
    d1: Date, h1: int, m1: int, s1: int, u1: int,
    d2: Date, h2: int, m2: int, s2: int, u2: int)
  {
    DateBefore(d1, d2)
    || (d1 == d2 && (h1 < h2
      || (h1 == h2 && (m1 < m2
      || (m1 == m2 && (s1 < s2
      || (s1 == s2 && u1 < u2)))))))
  }

  /** On instants, the field-by-field order of `datetime` values is the order of integers. */
  lemma InstantOrderIsFieldOrder(
    d1: Date, h1: int, m1: int, s1: int, u1: int,
    d2: Date, h2: int, m2: int, s2: int, u2: int)
    requires ValidDate(d1) && ValidClockFields(h1, m1, s1, u1)
    requires ValidDate(d2) && ValidClockFields(h2, m2, s2, u2)
    ensures InstantOfFields(d1, h1, m1, s1, u1) < InstantOfFields(d2, h2, m2, s2, u2)
      <==> FieldsBefore(d1, h1, m1, s1, u1, d2, h2, m2, s2, u2)
  {
    DayNumberMonotone(d1, d2);
    DayNumberMonotone(d2, d1);
    DayNumberInjective(d1, d2);
    var r1 := h1 * MicrosPerHour + m1 * MicrosPerMinute + s1 * MicrosPerSecond + u1;
    var r2 := h2 * MicrosPerHour + m2 * MicrosPerMinute + s2 * MicrosPerSecond + u2;
    assert 0 <= r1 < MicrosPerDay && 0 <= r2 < MicrosPerDay;
    ClockOrder(h1, m1, s1, u1, h2, m2, s2, u2);
  }

  /** Within a day, the order of clock readings is the order of their microsecond offsets. */
  lemma ClockOrder(h1: int, m1: int, s1: int, u1: int, h2: int, m2: int, s2: int, u2: int)
    requires ValidClockFields(h1, m1, s1, u1) && ValidClockFields(h2, m2, s2, u2)
    ensures h1 * MicrosPerHour + m1 * MicrosPerMinute + s1 * MicrosPerSecond + u1
      < h2 * MicrosPerHour + m2 * MicrosPerMinute + s2 * MicrosPerSecond + u2
      <==> h1 < h2 || (h1 == h2 && (m1 < m2 || (m1 == m2 && (s1 < s2 || (s1 == s2 && u1 < u2)))))
  {
  }

  /**
   * The past test of a new task (`task_datetime < datetime.now()`): a task
   * instant, to the minute, is before a full-precision `now` exactly when
   * its fields come first.
   */
  lemma TaskBeforeNowIffEarlierFields(d: Date, t: Time, nowDate: Date, h: int, m: int, s: int, u: int)
    requires ValidDate(d) && ValidTime(t) && ValidDate(nowDate) && ValidClockFields(h, m, s, u)
    ensures InstantOf(d, t) < InstantOfFields(nowDate, h, m, s, u)
      <==> FieldsBefore(d, t.hour, t.minute, 0, 0, nowDate, h, m, s, u)
  {
    InstantOrderIsFieldOrder(d, t.hour, t.minute, 0, 0, nowDate, h, m, s, u);
  }
}
