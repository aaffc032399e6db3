/** Day numbers of the proleptic Gregorian calendar, as ECMA-262 section 21.4.1 defines them. */
module Gregorian {
  import opened Arithmetic

  /** A year, month (1-12) and day of the month. */
  datatype Civil = Civil(year: int, month: int, day: int)

  predicate IsLeap(year: int) {
    year % 4 == 0 && (year % 100 != 0 || year % 400 == 0)
  }

  function DaysInYear(year: int): int {
    if IsLeap(year) then 366 else 365
  }

  function DaysInMonth(year: int, month: int): int {
    if month == 2 then if IsLeap(year) then 29 else 28
    else if month == 4 || month == 6 || month == 9 || month == 11 then 30
    else 31
  }

  predicate IsCivil(c: Civil) {
    1 <= c.month <= 12 && 1 <= c.day <= DaysInMonth(c.year, c.month)
  }

  /** The day number of 1 January, counted from 1970. */
  function DayFromYear(year: int): int {
    365 * (year - 1970) + (year - 1969) / 4 - (year - 1901) / 100 + (year - 1601) / 400
  }

  /** Days of the year before the first of a month. */
  function DaysBeforeMonth(year: int, month: int): int
    requires 1 <= month <= 13
  {
    if month == 1 then 0 else DaysBeforeMonth(year, month - 1) + DaysInMonth(year, month - 1)
  }

  /** MakeDay: the day of the month may lie outside the month. */
  function MakeDay(year: int, month: int, day: int): int
    requires 1 <= month <= 12
  {
    DayFromYear(year) + DaysBeforeMonth(year, month) + day - 1
  }

  function DayNumber(c: Civil): int
    requires IsCivil(c)
  {
    MakeDay(c.year, c.month, c.day)
  }

  /** Counting multiples of `d`: the count grows exactly when the year is one. */
  lemma NextMultiple(year: int, d: int, shift: int)
    requires d > 0
    ensures (year + shift * d) / d == (year + shift * d - 1) / d + if year % d == 0 then 1 else 0
  {
    var q, r := year / d, year % d;
    assert year + shift * d == (q + shift) * d + r;
    assert (q + shift - 1) * d == (q + shift) * d - d;
    QuotientOf(year + shift * d, d, q + shift, r);
    if r == 0 {
      QuotientOf(year + shift * d - 1, d, q + shift - 1, d - 1);
    } else {
      QuotientOf(year + shift * d - 1, d, q + shift, r - 1);
    }
  }

  lemma MultiplesOf(year: int)
    ensures year % 100 == 0 ==> year % 4 == 0
    ensures year % 400 == 0 ==> year % 100 == 0
  {
  }

  lemma YearLength(year: int)
    ensures DayFromYear(year + 1) == DayFromYear(year) + DaysInYear(year)
  {
    var y := year;
    assert y == y / 4 * 4 + y % 4 && y == y / 100 * 100 + y % 100 && y == y / 400 * 400 + y % 400;
    NextMultiple(y, 4, -492);
    NextMultiple(y, 100, -19);
    NextMultiple(y, 400, -4);
    MultiplesOf(y);
  }

  /** The epoch, the length of every year and the days before every month, each without the month lengths above. */
  lemma {:induction false} CalendarIsGregorian(year: int, month: int)
    requires 1 <= month <= 13
    ensures
      var leap := year % 4 == 0 && (year % 100 != 0 || year % 400 == 0);
      && DayFromYear(1970) == 0 && MakeDay(1970, 1, 1) == 0
      && DayFromYear(year + 1) - DayFromYear(year) == (if leap then 366 else 365)
      && DaysBeforeMonth(year, month)
         == (367 * month - 362) / 12 - (if month <= 2 then 0 else if leap then 1 else 2)
  {
    YearLength(year);
    if month > 1 {
      CalendarIsGregorian(year, month - 1);
    }
  }

  lemma TwelveMonths(year: int)
    ensures DaysBeforeMonth(year, 13) == DaysInYear(year)
  {
    var february := DaysInMonth(year, 2);
    assert DaysBeforeMonth(year, 3) == DaysBeforeMonth(year, 2) + february == 31 + february;
    assert DaysBeforeMonth(year, 5) == DaysBeforeMonth(year, 4) + 30 == 92 + february;
    assert DaysBeforeMonth(year, 7) == DaysBeforeMonth(year, 6) + 30 == 153 + february;
    assert DaysBeforeMonth(year, 9) == DaysBeforeMonth(year, 8) + 31 == 215 + february;
    assert DaysBeforeMonth(year, 11) == DaysBeforeMonth(year, 10) + 31 == 276 + february;
    assert DaysBeforeMonth(year, 13) == DaysBeforeMonth(year, 12) + 31 == 337 + february;
  }

  lemma {:induction false} MonthsAscend(year: int, m: int, n: int)
    requires 1 <= m < n <= 13
    ensures DaysBeforeMonth(year, m) + DaysInMonth(year, m) <= DaysBeforeMonth(year, n)
    decreases n
  {
    if m < n - 1 {
      MonthsAscend(year, m, n - 1);
    }
  }

  lemma {:induction false} YearsAscend(a: int, b: int)
    requires a < b
    ensures DayFromYear(a) + DaysInYear(a) <= DayFromYear(b)
    decreases b - a
  {
    YearLength(b - 1);
    if a < b - 1 {
      YearsAscend(a, b - 1);
    }
  }

  /** A civil date lies inside its own year. */
  lemma DayInsideYear(c: Civil)
    requires IsCivil(c)
    ensures DayFromYear(c.year) <= DayNumber(c) < DayFromYear(c.year) + DaysInYear(c.year)
  {
    TwelveMonths(c.year);
    MonthsAscend(c.year, c.month, 13);
    if c.month > 1 {
      MonthsAscend(c.year, 1, c.month);
    }
  }

  predicate Before(a: Civil, b: Civil) {
    a.year < b.year || (a.year == b.year && (a.month < b.month || (a.month == b.month && a.day < b.day)))
  }

  /** Calendar order is day-number order. */
  lemma DayNumberOrder(a: Civil, b: Civil)
    requires IsCivil(a) && IsCivil(b)
    ensures Before(a, b) <==> DayNumber(a) < DayNumber(b)
    ensures a == b <==> DayNumber(a) == DayNumber(b)
  {
    if Before(a, b) {
      DayNumberAscends(a, b);
    } else if Before(b, a) {
      DayNumberAscends(b, a);
    }
  }

  lemma DayNumberAscends(a: Civil, b: Civil)
    requires IsCivil(a) && IsCivil(b) && Before(a, b)
    ensures DayNumber(a) < DayNumber(b)
  {
    if a.year < b.year {
      DayInsideYear(a);
      DayInsideYear(b);
      YearsAscend(a.year, b.year);
    } else if a.month < b.month {
      MonthsAscend(a.year, a.month, b.month);
    }
  }

  // ---- From a day number back to a date ----

  /** YearFromTime: the largest year that starts on or before the day, searched upwards from `low`. */
  function YearFrom(day: int, low: int): (year: int)
    requires DayFromYear(low) <= day
    ensures DayFromYear(year) <= day < DayFromYear(year + 1)
    decreases day - DayFromYear(low)
  {
    YearLength(low);
    if day < DayFromYear(low + 1) then low else YearFrom(day, low + 1)
  }

  /** A year that certainly starts on or before the day. */
  function LowYear(day: int): (low: int)
    ensures DayFromYear(low) <= day
  {
    if day >= 0 then 1970 + day / 366 else 1970 + day / 365
  }

  function YearOf(day: int): (year: int)
    ensures DayFromYear(year) <= day < DayFromYear(year) + DaysInYear(year)
  {
    var year := YearFrom(day, LowYear(day));
    YearLength(year);
    year
  }

  /** The month holding the zero-based day of the year, searched upwards from `low`. */
  function MonthFrom(year: int, dayInYear: int, low: int): (month: int)
    requires 1 <= low <= 12
    requires DaysBeforeMonth(year, low) <= dayInYear < DaysInYear(year)
    ensures 1 <= month <= 12
    ensures DaysBeforeMonth(year, month) <= dayInYear < DaysBeforeMonth(year, month) + DaysInMonth(year, month)
    decreases 12 - low
  {
    TwelveMonths(year);
    if dayInYear < DaysBeforeMonth(year, low + 1) then low else MonthFrom(year, dayInYear, low + 1)
  }

  function CivilOf(day: int): (c: Civil)
    ensures IsCivil(c) && DayNumber(c) == day
  {
    var year := YearOf(day);
    var dayInYear := day - DayFromYear(year);
    var month := MonthFrom(year, dayInYear, 1);
    Civil(year, month, dayInYear - DaysBeforeMonth(year, month) + 1)
  }

  /** Dates and day numbers correspond one to one. */
  lemma CivilRoundTrip(c: Civil)
    requires IsCivil(c)
    ensures CivilOf(DayNumber(c)) == c
  {
    DayNumberOrder(CivilOf(DayNumber(c)), c);
  }

  /** `setUTCDate(getUTCDate() + delta)` at midnight: the day field is moved, then renormalised. */
  function ShiftUtcDate(day: int, delta: int): int {
    var c := CivilOf(day);
    MakeDay(c.year, c.month, c.day + delta)
  }

  lemma ShiftIsAddition(day: int, delta: int)
    ensures ShiftUtcDate(day, delta) == day + delta
  {
    assert DayNumber(CivilOf(day)) == day;
  }
}
