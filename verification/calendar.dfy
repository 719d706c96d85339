/** The proleptic Gregorian calendar in UTC, which Python's `datetime` with
    `timezone.utc` uses. An instant is an integer number of seconds since
    1970-01-01T00:00:00Z; leap seconds do not exist, as in Python. */
module Calendar {

  const SecondsPerMinute: nat := 60
  const SecondsPerHour: nat := 3600
  const SecondsPerDay: nat := 86400

  /** The fields of a UTC `datetime`, microseconds left out. */
  datatype DateTime = DateTime(year: int, month: nat, day: nat, hour: nat, minute: nat, second: nat)

  predicate IsLeapYear(y: int) {
    (y % 4 == 0 && y % 100 != 0) || y % 400 == 0
  }

  function DaysInYear(y: int): nat {
    if IsLeapYear(y) then 366 else 365
  }

  function DaysInMonth(y: int, m: nat): nat
    requires 1 <= m <= 12
  {
    if m == 2 then (if IsLeapYear(y) then 29 else 28)
    else if m == 4 || m == 6 || m == 9 || m == 11 then 30
    else 31
  }

  /** Days of year `y` that lie in the months before month `m`. */
  function DaysBeforeMonth(y: int, m: nat): nat
    requires 1 <= m <= 13
  {
    if m == 1 then 0 else DaysBeforeMonth(y, m - 1) + DaysInMonth(y, m - 1)
  }

  /** The twelve months fill the year exactly. */
  lemma MonthsFillYear(y: int)
    ensures DaysBeforeMonth(y, 13) == DaysInYear(y)
  {
    assert DaysBeforeMonth(y, 2) == 31;
    assert DaysBeforeMonth(y, 3) == 31 + DaysInMonth(y, 2);
    assert DaysBeforeMonth(y, 4) == 62 + DaysInMonth(y, 2);
    assert DaysBeforeMonth(y, 5) == 92 + DaysInMonth(y, 2);
    assert DaysBeforeMonth(y, 6) == 123 + DaysInMonth(y, 2);
    assert DaysBeforeMonth(y, 7) == 153 + DaysInMonth(y, 2);
    assert DaysBeforeMonth(y, 8) == 184 + DaysInMonth(y, 2);
    assert DaysBeforeMonth(y, 9) == 215 + DaysInMonth(y, 2);
    assert DaysBeforeMonth(y, 10) == 245 + DaysInMonth(y, 2);
    assert DaysBeforeMonth(y, 11) == 276 + DaysInMonth(y, 2);
    assert DaysBeforeMonth(y, 12) == 306 + DaysInMonth(y, 2);
  }

  /** Days from 1970-01-01 to January 1st of year `y`; negative before 1970. */
  function DaysBeforeYear(y: int): int
    decreases if y < 1970 then 1970 - y else y - 1970
  {
    if y == 1970 then 0
    else if y > 1970 then DaysBeforeYear(y - 1) + DaysInYear(y - 1)
    else DaysBeforeYear(y + 1) - DaysInYear(y)
  }

  /** Consecutive years are one year's length apart. */
  lemma DaysBeforeNextYear(y: int)
    ensures DaysBeforeYear(y + 1) == DaysBeforeYear(y) + DaysInYear(y)
  {
  }

  /** A later year starts at least a whole year after an earlier one. */
  lemma {:induction false} DaysBeforeYearGrows(a: int, b: int)
    requires a < b
    ensures DaysBeforeYear(b) >= DaysBeforeYear(a) + DaysInYear(a)
    decreases b - a
  {
    DaysBeforeNextYear(b - 1);
    if a < b - 1 {
      DaysBeforeYearGrows(a, b - 1);
    }
  }

  /** A later month starts at least a whole month after an earlier one. */
  lemma {:induction false} DaysBeforeMonthGrows(y: int, a: nat, b: nat)
    requires 1 <= a < b <= 13
    ensures DaysBeforeMonth(y, b) >= DaysBeforeMonth(y, a) + DaysInMonth(y, a)
    decreases b - a
  {
    if a < b - 1 {
      DaysBeforeMonthGrows(y, a, b - 1);
    }
  }

  predicate Valid(dt: DateTime) {
    && 1 <= dt.month <= 12
    && 1 <= dt.day <= DaysInMonth(dt.year, dt.month)
    && dt.hour < 24 && dt.minute < 60 && dt.second < 60
  }

  /** Days from 1970-01-01 to the date of `dt`. */
  function DayNumber(dt: DateTime): int
    requires Valid(dt)
  {
    DaysBeforeYear(dt.year) + DaysBeforeMonth(dt.year, dt.month) + dt.day - 1
  }

  /** Seconds from 00:00:00 to the time of day of `dt`. */
  function SecondOfDay(dt: DateTime): nat
  {
    dt.hour * SecondsPerHour + dt.minute * SecondsPerMinute + dt.second
  }

  /** The instant a valid UTC date and time denotes (Python's
      `dt.timestamp()`). */
  function ToEpoch(dt: DateTime): int
    requires Valid(dt)
  {
    DayNumber(dt) * SecondsPerDay + SecondOfDay(dt)
  }

  /** The year holding the day `d` days after January 1st of year `y`, and
      that day's 0-based offset within its year. */
  function YearOf(y: int, d: int): (r: (int, nat))
    ensures r.1 < DaysInYear(r.0)
    ensures DaysBeforeYear(r.0) + r.1 == DaysBeforeYear(y) + d
    decreases if d < 0 then 1 else 0, if d < 0 then -d else d
  {
    if d < 0 then
      DaysBeforeNextYear(y - 1);
      YearOf(y - 1, d + DaysInYear(y - 1))
    else if d >= DaysInYear(y) then
      DaysBeforeNextYear(y);
      YearOf(y + 1, d - DaysInYear(y))
    else
      (y, d)
  }

  /** The month, searching from month `m` on, holding the 0-based day `d` of
      year `y`, and the 1-based day of that month. */
  function MonthOf(y: int, d: nat, m: nat): (r: (nat, nat))
    requires 1 <= m <= 12
    requires DaysBeforeMonth(y, m) <= d < DaysInYear(y)
    ensures m <= r.0 <= 12 && 1 <= r.1 <= DaysInMonth(y, r.0)
    ensures DaysBeforeMonth(y, r.0) + r.1 - 1 == d
    decreases 12 - m
  {
    MonthsFillYear(y);
    if d < DaysBeforeMonth(y, m) + DaysInMonth(y, m) then (m, d - DaysBeforeMonth(y, m) + 1)
    else MonthOf(y, d, m + 1)
  }

  /** The UTC date and time of instant `t` (Python's
      `datetime.fromtimestamp(t, timezone.utc)`): a valid calendar value that
      denotes `t` again. */
  function DateTimeOf(t: int): (dt: DateTime)
    ensures Valid(dt) && ToEpoch(dt) == t
  {
    var days := t / SecondsPerDay;
    var secs := t % SecondsPerDay;
    var (y, d) := YearOf(1970, days);
    MonthsFillYear(y);
    var (m, day) := MonthOf(y, d, 1);
    var dt := DateTime(y, m, day, secs / SecondsPerHour, secs % SecondsPerHour / SecondsPerMinute, secs % SecondsPerMinute);
    TimeOfDaySplit(secs);
    dt
  }

  /** Hours, minutes and seconds of a second-of-day add back up to it. */
  lemma TimeOfDaySplit(secs: nat)
    requires secs < SecondsPerDay
    ensures secs / SecondsPerHour < 24
    ensures secs / SecondsPerHour * SecondsPerHour
      + secs % SecondsPerHour / SecondsPerMinute * SecondsPerMinute
      + secs % SecondsPerMinute == secs
  {
    assert secs % SecondsPerMinute == secs % SecondsPerHour % SecondsPerMinute;
  }

  /** Two in-range (year, day-of-year) pairs naming the same day are equal. */
  lemma YearUnique(y1: int, d1: nat, y2: int, d2: nat)
    requires d1 < DaysInYear(y1) && d2 < DaysInYear(y2)
    requires DaysBeforeYear(y1) + d1 == DaysBeforeYear(y2) + d2
    ensures y1 == y2 && d1 == d2
  {
    if y1 < y2 {
      DaysBeforeYearGrows(y1, y2);
    } else if y2 < y1 {
      DaysBeforeYearGrows(y2, y1);
    }
  }

  /** Two in-range (month, day) pairs naming the same day of a year are equal. */
  lemma MonthUnique(y: int, m1: nat, e1: nat, m2: nat, e2: nat)
    requires 1 <= m1 <= 12 && 1 <= e1 <= DaysInMonth(y, m1)
    requires 1 <= m2 <= 12 && 1 <= e2 <= DaysInMonth(y, m2)
    requires DaysBeforeMonth(y, m1) + e1 == DaysBeforeMonth(y, m2) + e2
    ensures m1 == m2 && e1 == e2
  {
    if m1 < m2 {
      DaysBeforeMonthGrows(y, m1, m2);
    } else if m2 < m1 {
      DaysBeforeMonthGrows(y, m2, m1);
    }
  }

  /** Converting a valid date and time to an instant and back gives it
      unchanged: together with `DateTimeOf`'s contract, instants and valid
      calendar values correspond one to one. */
  lemma DateTimeOfToEpoch(dt: DateTime)
    requires Valid(dt)
    ensures DateTimeOf(ToEpoch(dt)) == dt
  {
    var t := ToEpoch(dt);
    var r := DateTimeOf(t);
    DayAndSecond(DayNumber(dt), SecondOfDay(dt), DayNumber(r), SecondOfDay(r));
    MonthsFillYear(dt.year);
    MonthsFillYear(r.year);
    DaysBeforeMonthGrows(dt.year, dt.month, 13);
    DaysBeforeMonthGrows(r.year, r.month, 13);
    YearUnique(dt.year, DaysBeforeMonth(dt.year, dt.month) + dt.day - 1,
               r.year, DaysBeforeMonth(r.year, r.month) + r.day - 1);
    MonthUnique(dt.year, dt.month, dt.day, r.month, r.day);
    TimeUnique(dt, r);
  }

  /** An instant splits in one way only into a day and a second of that day. */
  lemma DayAndSecond(d1: int, s1: nat, d2: int, s2: nat)
    requires s1 < SecondsPerDay && s2 < SecondsPerDay
    requires d1 * SecondsPerDay + s1 == d2 * SecondsPerDay + s2
    ensures d1 == d2 && s1 == s2
  {
  }

  /** A second of the day determines hour, minute and second. */
  lemma TimeUnique(a: DateTime, b: DateTime)
    requires a.hour < 24 && a.minute < 60 && a.second < 60
    requires b.hour < 24 && b.minute < 60 && b.second < 60
    requires SecondOfDay(a) == SecondOfDay(b)
    ensures a.hour == b.hour && a.minute == b.minute && a.second == b.second
  {
    var s := SecondOfDay(a);
    assert a.hour == s / SecondsPerHour && b.hour == s / SecondsPerHour;
    assert a.minute == s % SecondsPerHour / SecondsPerMinute;
    assert b.minute == s % SecondsPerHour / SecondsPerMinute;
  }
}
