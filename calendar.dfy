/**
 * Local calendar arithmetic on integer POSIX timestamps (seconds), standing
 * in for `datetime.fromtimestamp(t).date()` and `.day` in a time zone with
 * a fixed offset from UTC.
 */
module Calendar {

  const SecondsPerDay := 86400

  /** Local calendar date of timestamp `t`, as a day number counted from
    * 1970-01-01 (negative before it). */
  function LocalDay(t: int, utcOffset: int): int
  {
    (t + utcOffset) / SecondsPerDay
  }

  /** A later instant never falls on an earlier local date. */
  lemma LocalDayMonotone(s: int, t: int, utcOffset: int)
    requires s <= t
    ensures LocalDay(s, utcOffset) <= LocalDay(t, utcOffset)
  {
    var a, b := s + utcOffset, t + utcOffset;
    assert a / SecondsPerDay * SecondsPerDay <= a;
    assert b < (b / SecondsPerDay + 1) * SecondsPerDay;
  }

  /** Day of the month (1..31) of the proleptic Gregorian date that lies
    * `days` days after 1970-01-01. The computation shifts the year to start
    * in March, splits the day count into 400-year eras, and reads the day
    * within the month off the day of the shifted year. */
  function CivilDayOfMonth(days: int): (d: int)
    ensures 1 <= d <= 31
  {
    var z := days + 719468;          // days since 0000-03-01
    var doe := z % 146097;           // day of the 400-year era, 0..146096
    var yoe := (doe - doe / 1460 + doe / 36524 - doe / 146096) / 365;
    var doy := doe - (365 * yoe + yoe / 4 - yoe / 100);  // day from March 1
    var mp := (5 * doy + 2) / 153;   // month counted from March, 0..11
    DayWithinMonth(doy, mp);
    doy - (153 * mp + 2) / 5 + 1
  }

  /** Whatever the day of the shifted year, the day within its month lies in 1..31. */
  lemma DayWithinMonth(doy: int, mp: int)
    requires mp == (5 * doy + 2) / 153
    ensures 1 <= doy - (153 * mp + 2) / 5 + 1 <= 31
  {
    assert 153 * mp <= 5 * doy + 2 < 153 * mp + 153;
    var q := (153 * mp + 2) / 5;
    assert 5 * q <= 153 * mp + 2 < 5 * q + 5;
  }

  /** Local day of the month of timestamp `t`. */
  function DayOfMonth(t: int, utcOffset: int): int
  {
    CivilDayOfMonth(LocalDay(t, utcOffset))
  }

  /** Day 30 after the epoch is 31 January 1970, day 31 is 1 February. */
  lemma MonthEndOf1970January()
    ensures CivilDayOfMonth(30) == 31 && CivilDayOfMonth(31) == 1
  {
    assert 719498 % 146097 == 135110 && 719499 % 146097 == 135111;
    assert 135110 / 1460 == 92 && 135110 / 36524 == 3 && 135110 / 146096 == 0;
    assert 135111 / 1460 == 92 && 135111 / 36524 == 3 && 135111 / 146096 == 0;
    assert (135110 - 92 + 3) / 365 == 369 && (135111 - 92 + 3) / 365 == 369;
    assert 369 / 4 == 92 && 369 / 100 == 3;
    assert (5 * 336 + 2) / 153 == 10 && (5 * 337 + 2) / 153 == 11;
    assert (153 * 10 + 2) / 5 == 306 && (153 * 11 + 2) / 5 == 337;
  }
}
