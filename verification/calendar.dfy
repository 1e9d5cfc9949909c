/**
 * Timestamps are whole hours since 1970-01-01 00:00, read on the server's own
 * wall clock (the columns are taken to be timestamps without a time zone).  This module
 * gives the proleptic Gregorian year and month of such a timestamp, which is
 * what EXTRACT(YEAR ...) and EXTRACT(MONTH ...) return.  The calendar is
 * computed on astronomical years (year 0 is 1 BC); EXTRACT(YEAR ...) has no
 * year 0 and numbers 1 BC as -1, 2 BC as -2, and so on.
 */
module Calendar {

  predicate IsLeapYear(y: int) {
    (y % 4 == 0 && y % 100 != 0) || y % 400 == 0
  }

  function DaysInYear(y: int): (n: int)
    ensures n == 365 || n == 366
  {
    if IsLeapYear(y) then 366 else 365
  }

  /** Number of days of year y that come before the first day of month m. */
  function DaysBeforeMonth(y: int, m: int): (n: int)
    requires 1 <= m <= 12
    ensures 0 <= n < DaysInYear(y)
    ensures m == 1 <==> n == 0
  {
    var table := [0, 31, 59, 90, 120, 151, 181, 212, 243, 273, 304, 334];
    table[m - 1] + if IsLeapYear(y) && m > 2 then 1 else 0
  }

  /**
   * Signed number of days from the first day of year y0 to the first day of
   * year y: the lengths of the years from y0 up to y summed, or, when y comes
   * before y0, the lengths of the years from y up to y0 summed and negated.
   */
  ghost function DaysBetween(y0: int, y: int): int
    decreases if y0 <= y then y - y0 else y0 - y
  {
    if y0 == y then 0
    else if y0 < y then DaysInYear(y0) + DaysBetween(y0 + 1, y)
    else DaysBetween(y0 - 1, y) - DaysInYear(y0 - 1)
  }

  /** Starting one year later skips exactly the days of year a, whichever side of a the target lies. */
  lemma DaysBetweenStep(a: int, y: int)
    ensures DaysBetween(a, y) == DaysInYear(a) + DaysBetween(a + 1, y)
  {
    if a == y {
      assert DaysBetween(a + 1, y) == DaysBetween(a, y) - DaysInYear(a);
    }
  }

  /** Counting from x to b passes through any a: the day counts add up. */
  lemma {:induction false} DaysBetweenAdd(x: int, a: int, b: int)
    ensures DaysBetween(x, b) == DaysBetween(x, a) + DaysBetween(a, b)
    decreases if x <= a then a - x else x - a
  {
    if x < a {
      DaysBetweenAdd(x + 1, a, b);
      DaysBetweenStep(x, b);
      DaysBetweenStep(x, a);
    } else if x > a {
      DaysBetweenAdd(x - 1, a, b);
      DaysBetweenStep(x - 1, b);
      DaysBetweenStep(x - 1, a);
    }
  }

  /** Between the first days of a and a later year b lie at least the days of year a. */
  lemma {:induction false} DaysBetweenCovers(a: int, b: int)
    requires a < b
    ensures DaysBetween(a, b) >= DaysInYear(a)
    decreases b - a
  {
    if a + 1 < b {
      DaysBetweenCovers(a + 1, b);
    }
  }

  /**
   * The year holding day d, counted from day 0 of year y, and the day's
   * offset inside that year: day d is day r.1 of year r.0.
   */
  function YearAndOffset(d: int, y: int): (r: (int, int))
    ensures DaysBetween(y, r.0) + r.1 == d
    ensures 0 <= r.1 < DaysInYear(r.0)
    decreases d < 0, if d < 0 then -d else d
  {
    if d < 0 then
      var r := YearAndOffset(d + DaysInYear(y - 1), y - 1);
      DaysBetweenStep(y - 1, r.0);
      r
    else if d < DaysInYear(y) then (y, d)
    else
      var r := YearAndOffset(d - DaysInYear(y), y + 1);
      DaysBetweenStep(y, r.0);
      r
  }

  /** Day d has exactly one year and offset, so YearAndOffset is the only answer. */
  lemma YearAndOffsetUnique(d: int, y: int, year: int, offset: int)
    requires DaysBetween(y, year) + offset == d
    requires 0 <= offset < DaysInYear(year)
    ensures YearAndOffset(d, y) == (year, offset)
  {
    var r := YearAndOffset(d, y);
    if r.0 < year {
      DaysBetweenAdd(y, r.0, year);
      DaysBetweenCovers(r.0, year);
    } else if r.0 > year {
      DaysBetweenAdd(y, year, r.0);
      DaysBetweenCovers(year, r.0);
    }
  }

  /**
   * The month, from m onwards, in which the zero-based day-of-year doy
   * falls: the first month from m whose successor starts after doy.
   */
  function MonthFrom(y: int, doy: int, m: int): (r: int)
    requires 1 <= m <= 12
    requires DaysBeforeMonth(y, m) <= doy < DaysInYear(y)
    ensures m <= r <= 12
    ensures DaysBeforeMonth(y, r) <= doy
    ensures r < 12 ==> doy < DaysBeforeMonth(y, r + 1)
    decreases 12 - m
  {
    if m == 12 || doy < DaysBeforeMonth(y, m + 1) then m else MonthFrom(y, doy, m + 1)
  }

  /** EXTRACT(YEAR FROM t): the year whose days, counted from 1970, hold t's day. */
  /** The astronomical year of a year as EXTRACT(YEAR ...) numbers it: -1 (1 BC) is 0. */
  function Astronomical(year: int): int {
    if year < 0 then year + 1 else year
  }

  /**
   * EXTRACT(YEAR FROM t): never 0, and, read astronomically, the year whose
   * days, counted from 1970, hold t's day.
   */
  function Year(t: int): (y: int)
    ensures y != 0
    ensures DaysBetween(1970, Astronomical(y)) <= t / 24 < DaysBetween(1970, Astronomical(y)) + DaysInYear(Astronomical(y))
  {
    var a := YearAndOffset(t / 24, 1970).0;
    if a <= 0 then a - 1 else a
  }

  /** The first day of 1 BC (astronomical year 0) is reported as year -1. */
  lemma YearOfOneBC(t: int)
    requires t == 24 * DaysBetween(1970, 0)
    ensures Year(t) == -1
  {
    assert t / 24 == DaysBetween(1970, 0);
    YearAndOffsetUnique(t / 24, 1970, 0, 0);
  }

  /** Year numbering keeps the order of the astronomical years. */
  lemma YearKeepsOrder(t: int, u: int)
    requires YearAndOffset(t / 24, 1970).0 < YearAndOffset(u / 24, 1970).0
    ensures Year(t) < Year(u)
  {
  }

  /**
   * EXTRACT(MONTH FROM t): the month number, from 1 to 12, whose days hold
   * t's day within its year.
   */
  function Month(t: int): (m: int)
    ensures 1 <= m <= 12
    ensures var (y, doy) := YearAndOffset(t / 24, 1970);
      DaysBeforeMonth(y, m) <= doy && (m < 12 ==> doy < DaysBeforeMonth(y, m + 1))
  {
    var (y, doy) := YearAndOffset(t / 24, 1970);
    MonthFrom(y, doy, 1)
  }
}
