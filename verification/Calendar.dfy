/** The proleptic Gregorian calendar as the ECMAScript Date object computes it
    (section 21.4.1 of ECMA-262): days are counted from 1 January 1970. */
module Calendar {

  const MS_PER_DAY: int := 86_400_000

  type month = m: int | 0 <= m < 12

  /** The day an instant in milliseconds lies in. */
  function DayOf(t: int): int {
    t / MS_PER_DAY
  }

  predicate Leap(y: int) {
    y % 4 == 0 && (y % 100 != 0 || y % 400 == 0)
  }

  /** The day number of 1 January of year `y`. */
  function DayFromYear(y: int): int {
    365 * (y - 1970) + (y - 1969) / 4 - (y - 1901) / 100 + (y - 1601) / 400
  }

  lemma Offset4(y: int)
    ensures (y - 1968) % 4 == y % 4
  {
  }

  lemma Offset100(y: int)
    ensures (y - 1900) % 100 == y % 100
  {
  }

  lemma Offset400(y: int)
    ensures (y - 1600) % 400 == y % 400
  {
  }

  /** A year divisible by 400 is divisible by 100, and one by 100 is by 4. */
  lemma FourHundredth(y: int)
    ensures y % 400 == 0 ==> y % 100 == 0
    ensures y % 100 == 0 ==> y % 4 == 0
  {
  }

  lemma YearLength(y: int)
    ensures DayFromYear(y + 1) - DayFromYear(y) == if Leap(y) then 366 else 365
  {
    Quotient(y - 1969, 4);
    Quotient(y - 1901, 100);
    Quotient(y - 1601, 400);
    Offset4(y);
    Offset100(y);
    Offset400(y);
    FourHundredth(y);
  }

  lemma Quotient(a: int, d: int)
    requires d == 4 || d == 100 || d == 400
    ensures (a + 1) / d - a / d == if (a + 1) % d == 0 then 1 else 0
  {
  }

  lemma {:induction false} YearsOrdered(y: int, z: int)
    requires y < z
    ensures DayFromYear(y) + 365 * (z - y) <= DayFromYear(z)
    decreases z - y
  {
    YearLength(y);
    if y + 1 < z {
      YearsOrdered(y + 1, z);
    }
  }

  /** The largest year that starts on or before `day`. */
  function YearOf(day: int): (y: int)
    ensures DayFromYear(y) <= day < DayFromYear(y + 1)
  {
    if DayFromYear(1970) <= day then YearUp(1970, day) else YearDown(1969, day)
  }

  function YearUp(y: int, day: int): (r: int)
    requires DayFromYear(y) <= day
    ensures DayFromYear(r) <= day < DayFromYear(r + 1)
    decreases day - DayFromYear(y)
  {
    YearLength(y);
    if day < DayFromYear(y + 1) then y else YearUp(y + 1, day)
  }

  function YearDown(y: int, day: int): (r: int)
    requires day < DayFromYear(y + 1)
    ensures DayFromYear(r) <= day < DayFromYear(r + 1)
    decreases DayFromYear(y + 1) - day
  {
    YearLength(y);
    if DayFromYear(y) <= day then y else YearDown(y - 1, day)
  }

  lemma YearUnique(day: int, y: int)
    requires DayFromYear(y) <= day < DayFromYear(y + 1)
    ensures YearOf(day) == y
  {
    var r := YearOf(day);
    if r < y {
      if r + 1 < y { YearsOrdered(r + 1, y); }
    } else if y < r {
      if y + 1 < r { YearsOrdered(y + 1, r); }
    }
  }

  function DaysInMonth(y: int, m: month): (n: int)
    ensures 28 <= n <= 31
  {
    if m == 1 then (if Leap(y) then 29 else 28)
    else if m == 3 || m == 5 || m == 8 || m == 10 then 30
    else 31
  }

  /** Days of year `y` before month `m`; month 12 stands for the whole year. */
  function DaysBefore(y: int, m: int): (n: int)
    requires 0 <= m <= 12
    ensures n >= 0
  {
    if m == 0 then 0 else DaysBefore(y, m - 1) + DaysInMonth(y, m - 1)
  }

  lemma DaysBeforeTable(y: int)
    ensures DaysBefore(y, 1) == 31 && DaysBefore(y, 2) == 59 + (if Leap(y) then 1 else 0)
    ensures DaysBefore(y, 12) == if Leap(y) then 366 else 365
  {
    assert DaysBefore(y, 0) == 0;
    assert DaysBefore(y, 1) == 31;
    assert DaysBefore(y, 2) == 59 + (if Leap(y) then 1 else 0);
    assert DaysBefore(y, 4) == DaysBefore(y, 2) + 61;
    assert DaysBefore(y, 6) == DaysBefore(y, 4) + 61;
    assert DaysBefore(y, 8) == DaysBefore(y, 6) + 62;
    assert DaysBefore(y, 10) == DaysBefore(y, 8) + 61;
  }

  /** The month in which the `n`-th day of year `y` (from 0) falls, searched from `m` on. */
  function MonthFrom(y: int, n: int, m: month): (r: month)
    requires DaysBefore(y, m) <= n < DaysBefore(y, 12)
    ensures DaysBefore(y, r) <= n < DaysBefore(y, r + 1)
    decreases 12 - m
  {
    if n < DaysBefore(y, m + 1) then m else MonthFrom(y, n, m + 1)
  }

  function MonthOf(day: int): (m: month)
    ensures DaysBefore(YearOf(day), m) <= day - DayFromYear(YearOf(day)) < DaysBefore(YearOf(day), m + 1)
  {
    YearLength(YearOf(day));
    DaysBeforeTable(YearOf(day));
    MonthFrom(YearOf(day), day - DayFromYear(YearOf(day)), 0)
  }

  /** The day of the month, from 1. */
  function DateOf(day: int): (d: int)
    ensures 1 <= d <= DaysInMonth(YearOf(day), MonthOf(day))
  {
    day - DayFromYear(YearOf(day)) - DaysBefore(YearOf(day), MonthOf(day)) + 1
  }

  function DayNumber(y: int, m: month, d: int): int {
    DayFromYear(y) + DaysBefore(y, m) + d - 1
  }

  lemma {:induction false} MonthsOrdered(y: int, m: int, n: int)
    requires 0 <= m < n <= 12
    ensures DaysBefore(y, m) + DaysInMonth(y, m) <= DaysBefore(y, n)
    decreases n
  {
    if m + 1 < n {
      MonthsOrdered(y, m, n - 1);
    }
  }

  /** Year, month and date of a day are the only ones that name it. */
  lemma CivilUnique(y: int, m: month, d: int)
    requires 1 <= d <= DaysInMonth(y, m)
    ensures var day := DayNumber(y, m, d);
      YearOf(day) == y && MonthOf(day) == m && DateOf(day) == d
  {
    var day := DayNumber(y, m, d);
    DaysBeforeTable(y);
    YearLength(y);
    if m < 11 { MonthsOrdered(y, m, 12); }
    YearUnique(day, y);
    var r := MonthOf(day);
    if r < m {
      MonthsOrdered(y, r, m);
    } else if m < r {
      MonthsOrdered(y, m, r);
    }
  }

  /** Stepping back from the first of a month lands on the last of the one before. */
  lemma MonthBefore(day: int)
    requires DateOf(day) == 1
    ensures IsMonthEnd(day - 1)
  {
    hide YearOf, MonthOf, DayFromYear, IsMonthEnd;
    var y, m := YearOf(day), MonthOf(day);
    assert day == DayFromYear(y) + DaysBefore(y, m);
    if m > 0 {
      LastOfMonth(y, m - 1);
    } else {
      NewYearsEve(y - 1);
      LastOfMonth(y - 1, 11);
    }
  }

  predicate IsMonthEnd(day: int) {
    DateOf(day) == DaysInMonth(YearOf(day), MonthOf(day))
  }

  lemma LastOfMonth(y: int, m: month)
    ensures IsMonthEnd(DayFromYear(y) + DaysBefore(y, m + 1) - 1)
  {
    hide YearOf, MonthOf, DayFromYear;
    CivilUnique(y, m, DaysInMonth(y, m));
    assert DayNumber(y, m, DaysInMonth(y, m)) == DayFromYear(y) + DaysBefore(y, m + 1) - 1;
  }

  lemma NewYearsEve(y: int)
    ensures DayFromYear(y) + DaysBefore(y, 12) == DayFromYear(y + 1)
  {
    YearLength(y);
    DaysBeforeTable(y);
  }

  /** `MakeFullYear` of ECMA-262: wherever a date is built from its parts, a year with at
      most two digits means one of the 1900s. */
  function FullYear(y: int): int {
    if TwoDigit(y) then 1900 + y else y
  }

  predicate TwoDigit(y: int) {
    0 <= y <= 99
  }

  /** The last date of month `m`, as the date of day 0 of the next month. */
  function LastDate(y: int, m: month): (n: int)
    ensures 28 <= n <= DaysInMonth(y, m)
    ensures n < DaysInMonth(y, m) <==> y == 0 && m == 1
  {
    DaysInMonth(FullYear(y), m)
  }

  /** The day of the week, Sunday being 0. */
  function WeekDay(day: int): (w: int)
    ensures 0 <= w < 7
  {
    (day + 4) % 7
  }

  /** The months of a year in their order. */
  lemma MonthLengths(y: int)
    ensures seq(12, m requires 0 <= m < 12 => DaysInMonth(y, m)) ==
            [31, if Leap(y) then 29 else 28, 31, 30, 31, 30, 31, 31, 30, 31, 30, 31]
  {
  }

  lemma EarlyDays(y: int)
    ensures DaysBefore(y, 0) == 0 && DaysBefore(y, 1) == 31 && DaysBefore(y, 2) == if Leap(y) then 60 else 59
  {
    DaysBeforeTable(y);
  }

  /** Some days whose dates and weekdays are known: the epoch was a Thursday, the leap day
      of the year 2000 a Tuesday, and 1 March 1900 followed 28 February on a Thursday. */
  lemma KnownDays()
    ensures YearOf(0) == 1970 && MonthOf(0) == 0 && DateOf(0) == 1 && WeekDay(0) == 4
    ensures YearOf(11016) == 2000 && MonthOf(11016) == 1 && DateOf(11016) == 29 && WeekDay(11016) == 2
    ensures YearOf(-25508) == 1900 && MonthOf(-25508) == 2 && DateOf(-25508) == 1 && WeekDay(-25508) == 4
    ensures DayNumber(1900, 1, 28) == -25509
  {
    hide YearOf, MonthOf, DateOf, DaysBefore;
    EarlyDays(1900);
    EarlyDays(1970);
    EarlyDays(2000);
    CivilUnique(1970, 0, 1);
    CivilUnique(2000, 1, 29);
    CivilUnique(1900, 2, 1);
  }
}
