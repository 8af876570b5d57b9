/**
 * `Date.UTC(year, month, 1, 0, 0, 0, 0)` as ECMAScript 5.1 defines it
 * (section 15.9.4.3 with MakeDay, MakeDate and TimeClip of section 15.9.1):
 * the time value, in milliseconds since 1970-01-01T00:00:00Z, of midnight
 * on the first day of a month. Arguments are integers, as `parseInt` gives;
 * `None` stands for NaN.
 */
module DateUtc {
  import opened Text

  const MsPerDay: int := 86400000

  /** The largest time value TimeClip lets through (section 15.9.1.1). */
  const MaxTime: int := 8640000000000000

  predicate InLeapYear(y: int)
  {
    y % 4 == 0 && (y % 100 != 0 || y % 400 == 0)
  }

  /** DaysInYear(y), section 15.9.1.3. */
  function DaysInYear(y: int): int
  {
    if InLeapYear(y) then 366 else 365
  }

  /** DayFromYear(y), section 15.9.1.3: the day number of the first day of year `y`. */
  function DayFromYear(y: int): int
  {
    365 * (y - 1970) + (y - 1969) / 4 - (y - 1901) / 100 + (y - 1601) / 400
  }

  /** The length of month `m` (0 is January) of year `y`, as a calendar gives it. */
  function DaysInMonth(y: int, m: int): int
    requires 0 <= m < 12
  {
    if m == 1 then (if InLeapYear(y) then 29 else 28)
    else if m == 3 || m == 5 || m == 8 || m == 10 then 30
    else 31
  }

  /**
   * The day within the year on which month `m` starts: the table of
   * MonthFromTime, section 15.9.1.4; `m == 12` gives the length of the year.
   */
  function MonthStart(y: int, m: int): int
    requires 0 <= m <= 12
  {
    var leap := if InLeapYear(y) then 1 else 0;
    if m == 0 then 0
    else if m == 1 then 31
    else [59, 90, 120, 151, 181, 212, 243, 273, 304, 334, 365][m - 2] + leap
  }

  /**
   * MakeDay(year, month, 1), section 15.9.1.12: the month is first carried
   * into the year (`floor(month / 12)`, `month modulo 12`); Dafny's `/` and
   * `%` round the same way for the positive divisor 12.
   */
  function MakeDay(year: int, month: int): int
  {
    DayFromYear(year + month / 12) + MonthStart(year + month / 12, month % 12)
  }

  /** The year `Date.UTC` uses: 0 to 99 stand for 1900 to 1999. */
  function FullYear(year: int): int
  {
    if 0 <= year <= 99 then 1900 + year else year
  }

  /** `Date.UTC(year, month, 1, 0, 0, 0, 0)`: MakeDate, then TimeClip. */
  function Utc(year: int, month: int): Option<int>
  {
    var t := MakeDay(FullYear(year), month) * MsPerDay;
    if -MaxTime <= t <= MaxTime then Some(t) else None
  }

  /** The table of month starts agrees with the month lengths. */
  lemma MonthStartStep(y: int, m: int)
    requires 0 <= m < 12
    ensures MonthStart(y, m + 1) - MonthStart(y, m) == DaysInMonth(y, m)
    ensures MonthStart(y, 12) == DaysInYear(y)
  {
  }

  /** Each of the three correction terms of DayFromYear steps up exactly in the years it counts. */
  lemma FourStep(y: int)
    ensures (y - 1968) / 4 - (y - 1969) / 4 == (if y % 4 == 0 then 1 else 0)
  {
    assert y - 1968 == y + 4 * (-492);
  }

  lemma CenturyStep(y: int)
    ensures (y - 1900) / 100 - (y - 1901) / 100 == (if y % 100 == 0 then 1 else 0)
  {
    assert y - 1900 == y + 100 * (-19);
  }

  lemma QuadricentennialStep(y: int)
    ensures (y - 1600) / 400 - (y - 1601) / 400 == (if y % 400 == 0 then 1 else 0)
  {
    assert y - 1600 == y + 400 * (-4);
  }

  /** The closed formula for DayFromYear advances by the length of each year. */
  lemma DayFromYearNext(y: int)
    ensures DayFromYear(y + 1) - DayFromYear(y) == DaysInYear(y)
  {
    var four := (y - 1968) / 4 - (y - 1969) / 4;
    var century := (y - 1900) / 100 - (y - 1901) / 100;
    var quad := (y - 1600) / 400 - (y - 1601) / 400;
    FourStep(y);
    CenturyStep(y);
    QuadricentennialStep(y);
    assert y + 1 - 1969 == y - 1968 && y + 1 - 1901 == y - 1900 && y + 1 - 1601 == y - 1600;
    assert DayFromYear(y + 1) - DayFromYear(y) == 365 + four - century + quad;
    if y % 100 == 0 {
      CenturyLeap(y, y / 100);
    } else if y % 400 == 0 {
      CenturyLeap(y, 4 * (y / 400));
    }
  }

  /** A multiple of 100 is a multiple of 4, and a multiple of 400 is one of 100. */
  lemma CenturyLeap(y: int, k: int)
    requires y == 100 * k
    ensures y % 4 == 0 && y % 100 == 0
    ensures y % 400 == 0 <==> k % 4 == 0
  {
  }

  /** The epoch offsets in DayFromYear are multiples of 4, 100 and 400. */
  lemma ShiftedRemainders(y: int)
    ensures (y - 1968) % 4 == y % 4 && (y - 1900) % 100 == y % 100 && (y - 1600) % 400 == y % 400
  {
    assert y - 1968 == y + 4 * (-492);
    assert y - 1900 == y + 100 * (-19);
    assert y - 1600 == y + 400 * (-4);
  }

  /** The days of the years from 1970 up to, not including, `y`. */
  function DaysSinceEpoch(y: int): int
    requires y >= 1970
    decreases y - 1970
  {
    if y == 1970 then 0 else DaysSinceEpoch(y - 1) + DaysInYear(y - 1)
  }

  /** From 1970 on, DayFromYear counts the days of the years before `y`. */
  lemma {:induction false} DayFromYearCounts(y: int)
    requires y >= 1970
    ensures DayFromYear(y) == DaysSinceEpoch(y)
    decreases y - 1970
  {
    if y > 1970 {
      DayFromYearCounts(y - 1);
      DayFromYearNext(y - 1);
    }
  }

  /**
   * The month after `month` starts as many days later as `month` has, with
   * month 11 rolling into month 0 of the next year.
   */
  lemma {:induction false} MakeDayNext(year: int, month: int)
    ensures MakeDay(year, month + 1) - MakeDay(year, month) == DaysInMonth(year + month / 12, month % 12)
    ensures month % 12 == 11 ==> MakeDay(year, month + 1) == DayFromYear(year + month / 12 + 1)
  {
    var ym, mn := year + month / 12, month % 12;
    MonthStartStep(ym, mn);
    if mn == 11 {
      assert (month + 1) / 12 == month / 12 + 1 && (month + 1) % 12 == 0;
      DayFromYearNext(ym);
    } else {
      assert (month + 1) / 12 == month / 12 && (month + 1) % 12 == mn + 1;
    }
  }

  /** Within a year, a month needs no carry into the year. */
  lemma MonthStartDay(y: int, m: int)
    requires 0 <= m < 12
    ensures MakeDay(y, m) == DayFromYear(y) + MonthStart(y, m)
    ensures m / 12 == 0 && m % 12 == m
  {
  }
}
