/** The UTC day, ISO-week and month keys backups are grouped by. */
module BucketKeys {
  import opened Calendar
  import opened Decimal

  /** The date part of `toISOString`: four year digits, or a sign and six. */
  function IsoDate(day: int): string {
    var y := YearOf(day);
    (if 0 <= y < 10_000 then Pad(y, 4) else (if y < 0 then "-" + Pad(-y, 6) else "+" + Pad(y, 6)))
    + "-" + Pad(MonthOf(day) + 1, 2) + "-" + Pad(DateOf(day), 2)
  }

  function Take(s: string, n: nat): string {
    if |s| <= n then s else s[..n]
  }

  function DayKey(t: int): string {
    Take(IsoDate(DayOf(t)), 10)
  }

  function MonthKey(t: int): string {
    Take(IsoDate(DayOf(t)), 7)
  }

  /** `Math.round(a / b)` for a positive divisor: halves go up. */
  function Round(a: int, b: int): int
    requires b > 0
  {
    (2 * a + b) / (2 * b)
  }

  /** The Thursday of the Monday-to-Sunday week of `day`. */
  function Thursday(day: int): int {
    day - (WeekDay(day) + 6) % 7 + 3
  }

  /** The day the week is taken of: year, month and date, put together again. */
  function Rebuilt(day: int): int {
    DayNumber(FullYear(YearOf(day)), MonthOf(day), DateOf(day))
  }

  /** The year a week belongs to, and its number, counted from 4 January. */
  function WeekYear(day: int): int {
    YearOf(Thursday(Rebuilt(day)))
  }

  function WeekNumber(day: int): int {
    var thu, jan4 := Thursday(Rebuilt(day)), DayNumber(FullYear(WeekYear(day)), 0, 4);
    1 + Round(thu * MS_PER_DAY - jan4 * MS_PER_DAY, 7 * MS_PER_DAY)
  }

  /** `String(n).padStart(2, "0")`. */
  function WeekText(n: int): string {
    if n < 0 then Signed(n) else Pad(n, 2)
  }

  function WeekKey(t: int): string {
    Signed(WeekYear(DayOf(t))) + "-W" + WeekText(WeekNumber(DayOf(t)))
  }

  function Monday(day: int): int {
    Thursday(day) - 3
  }

  // ---------------------------------------------------------------------
  // Putting a date together again
  // ---------------------------------------------------------------------

  /** Only a year with at most two digits does not survive; it moves by 1900 years. */
  lemma RebuiltIs(day: int)
    ensures !TwoDigit(YearOf(day)) ==> Rebuilt(day) == day
    ensures TwoDigit(YearOf(day)) ==>
      && YearOf(Rebuilt(day)) == 1900 + YearOf(day) && Rebuilt(Rebuilt(day)) == Rebuilt(day)
      && Rebuilt(day) > day + 365 * 1800
  {
    hide YearOf, MonthOf, DateOf, DayFromYear, DaysBefore;
    var y, m, d := YearOf(day), MonthOf(day), DateOf(day);
    DayFromDate(day);
    if TwoDigit(y) {
      YearsOrdered(y, 1900 + y);
      DaysBeforeShift(y, m);
      if d <= DaysInMonth(1900 + y, m) {
        CivilUnique(1900 + y, m, d);
      } else {
        assert y == 0 && m == 1 && d == 29;
        CivilUnique(1900, 2, 1);
        DaysBeforeTable(1900);
      }
      DayFromDate(Rebuilt(day));
    }
  }

  lemma DaysBeforeShift(y: int, m: month)
    requires TwoDigit(y)
    ensures DaysBefore(y, m) - 1 <= DaysBefore(1900 + y, m) <= DaysBefore(y, m)
    ensures y == 0 || DaysInMonth(1900 + y, m) == DaysInMonth(y, m)
    ensures m != 1 ==> DaysInMonth(1900 + y, m) == DaysInMonth(y, m)
  {
    LeapShift(y);
    DaysBeforeStep(y, m);
  }

  lemma LeapShift(y: int)
    requires TwoDigit(y)
    ensures Leap(1900 + y) <==> Leap(y) && y != 0
  {
  }

  lemma {:induction false} DaysBeforeStep(y: int, m: month)
    requires Leap(1900 + y) ==> Leap(y)
    ensures DaysBefore(1900 + y, m) == DaysBefore(y, m) - if m > 1 && Leap(y) && !Leap(1900 + y) then 1 else 0
  {
    hide Leap;
    if m > 0 {
      DaysBeforeStep(y, m - 1);
    }
  }

  // ---------------------------------------------------------------------
  // Week numbers
  // ---------------------------------------------------------------------

  /** Rounding recovers the whole number of weeks, the Thursday of week 1 being within
      three days of 4 January, unless 4 January is taken in another century. */
  lemma WeekNumberExact(day: int)
    ensures var thu, y := Thursday(Rebuilt(day)), WeekYear(day);
      !TwoDigit(y) ==> 7 * (WeekNumber(day) - 1) == thu - Thursday(DayNumber(y, 0, 4))
    ensures 1 <= WeekNumber(day) <= 53 <==> !TwoDigit(WeekYear(day))
  {
    hide YearOf, Rebuilt, WeekNumber;
    if TwoDigit(WeekYear(day)) {
      NegativeWeek(day);
    } else {
      WeekNumberCounted(day);
    }
  }

  lemma WeekNumberCounted(day: int)
    requires !TwoDigit(WeekYear(day))
    ensures 7 * (WeekNumber(day) - 1) == Thursday(Rebuilt(day)) - Thursday(DayNumber(WeekYear(day), 0, 4))
    ensures 1 <= WeekNumber(day) <= 53
  {
    hide YearOf, Rebuilt;
    var thu, y := Thursday(Rebuilt(day)), WeekYear(day);
    var jan4 := DayNumber(y, 0, 4);
    YearLength(y);
    assert jan4 == DayFromYear(y) + 3;
    assert -3 <= thu - jan4 <= 362;
    ThursdayOfJan4(Rebuilt(day), jan4);
    var first := Thursday(jan4);
    var k := (thu - first) / 7;
    assert thu - first == 7 * k;
    RoundToWeeks(k, first - jan4);
  }

  lemma NegativeWeek(day: int)
    requires TwoDigit(WeekYear(day))
    ensures WeekNumber(day) < 0
  {
    hide YearOf, Rebuilt;
    YearsOrdered(WeekYear(day) + 1, 1900 + WeekYear(day));
  }

  lemma ThursdayIs(day: int)
    ensures Thursday(day) % 7 == 0 && -3 <= Thursday(day) - day <= 3
  {
    var q, w := (day + 4) / 7, (day + 4) % 7;
    assert day == 7 * q + w - 4;
    assert (w + 6) % 7 == if w == 0 then 6 else w - 1;
    assert Thursday(day) == 7 * if w == 0 then q - 1 else q;
  }

  lemma ThursdayOfJan4(day: int, jan4: int)
    ensures -3 <= Thursday(jan4) - jan4 <= 3
    ensures (Thursday(day) - Thursday(jan4)) % 7 == 0
  {
    hide Thursday;
    ThursdayIs(day);
    ThursdayIs(jan4);
  }

  lemma RoundToWeeks(k: int, r: int)
    requires -3 <= r <= 3
    ensures forall a, b :: (a - b) == 7 * k + r ==> Round(a * MS_PER_DAY - b * MS_PER_DAY, 7 * MS_PER_DAY) == k
  {
  }

  /** The first day of the year 100 is a Friday; its week belongs to the year 99, and is
      counted from 4 January 1999. */
  lemma WeekBeforeYear100()
    ensures YearOf(DayFromYear(100)) == 100 && WeekYear(DayFromYear(100)) == 99
    ensures WeekNumber(DayFromYear(100)) < 0
  {
    hide YearOf, Rebuilt, Round, WeekNumber;
    var day := DayFromYear(100);
    YearUnique(day, 100);
    RebuiltIs(day);
    assert Thursday(day) == day - 1;
    YearUnique(day - 1, 99);
    WeekNumberExact(day);
    NegativeWeek(day);
  }

  // ---------------------------------------------------------------------
  // Week keys
  // ---------------------------------------------------------------------

  /** Over all instants: two share a week key exactly when the days put together again
      lie in the same Monday-to-Sunday week. */
  lemma WeekKeyMeans(s: int, t: int)
    ensures WeekKey(s) == WeekKey(t) <==> Monday(Rebuilt(DayOf(s))) == Monday(Rebuilt(DayOf(t)))
  {
    hide YearOf, Thursday, Rebuilt, WeekText, Signed, Round;
    var d, e := DayOf(s), DayOf(t);
    if WeekKey(s) == WeekKey(t) {
      WeekKeyParts(WeekYear(d), WeekNumber(d), WeekYear(e), WeekNumber(e));
      ThursdayOfJan4(Rebuilt(d), Rebuilt(e));
      ThursdayOfJan4(Rebuilt(e), Rebuilt(e));
      var jan4 := DayNumber(FullYear(WeekYear(d)), 0, 4);
      SameRound(Thursday(Rebuilt(d)) - jan4, Thursday(Rebuilt(e)) - jan4);
    }
  }

  lemma SameRound(a: int, b: int)
    requires (a - b) % 7 == 0
    requires Round(a * MS_PER_DAY, 7 * MS_PER_DAY) == Round(b * MS_PER_DAY, 7 * MS_PER_DAY)
    ensures a == b
  {
  }

  /** Two instants share a week key exactly when they lie in the same UTC week, in all
      years but 0 to 99. */
  lemma WeekKeyExact(s: int, t: int)
    requires !TwoDigit(YearOf(DayOf(s))) && !TwoDigit(YearOf(DayOf(t)))
    ensures WeekKey(s) == WeekKey(t) <==> Monday(DayOf(s)) == Monday(DayOf(t))
  {
    hide YearOf, Rebuilt, WeekKey, Thursday;
    WeekKeyMeans(s, t);
    RebuiltIs(DayOf(s));
    RebuiltIs(DayOf(t));
  }

  /** Every instant of the years 0 to 99 shares its week key with one that lies 1900
      years later. */
  lemma TwoDigitYearsCollide(s: int)
    requires TwoDigit(YearOf(DayOf(s)))
    ensures var t := Rebuilt(DayOf(s)) * MS_PER_DAY;
      && YearOf(DayOf(t)) == 1900 + YearOf(DayOf(s))
      && WeekKey(s) == WeekKey(t) && Monday(DayOf(s)) != Monday(DayOf(t))
  {
    hide YearOf, Rebuilt, WeekKey;
    var t := Rebuilt(DayOf(s)) * MS_PER_DAY;
    assert DayOf(t) == Rebuilt(DayOf(s));
    RebuiltIs(DayOf(s));
    WeekKeyMeans(s, t);
  }

  /** 1 March of the year 50 and 1 March 1950. */
  lemma SpringsCollide()
    ensures WeekKey(DayNumber(50, 2, 1) * MS_PER_DAY) == WeekKey(DayNumber(1950, 2, 1) * MS_PER_DAY)
  {
    hide YearOf, MonthOf, DateOf, WeekKey, DayNumber;
    var day := DayNumber(50, 2, 1);
    CivilUnique(50, 2, 1);
    assert DayOf(day * MS_PER_DAY) == day;
    TwoDigitYearsCollide(day * MS_PER_DAY);
  }

  lemma SignedLetters(n: int)
    ensures forall i :: 0 <= i < |Signed(n)| ==> Signed(n)[i] != 'W'
    ensures n < 0 <==> Signed(n)[0] == '-'
  {
  }

  lemma WeekTextInjective(m: int, n: int)
    requires WeekText(m) == WeekText(n)
    ensures m == n
  {
    SignedLetters(m);
    SignedLetters(n);
    if m < 0 && n < 0 {
      SignedInjective(m, n);
    } else if m >= 0 && n >= 0 {
      PadInjective(m, n, 2);
    }
  }

  lemma WeekKeyParts(y: int, w: int, z: int, v: int)
    requires Signed(y) + "-W" + WeekText(w) == Signed(z) + "-W" + WeekText(v)
    ensures y == z && w == v
  {
    hide Signed, WeekText;
    var a, b := Signed(y) + "-W" + WeekText(w), Signed(z) + "-W" + WeekText(v);
    SignedLetters(y);
    SignedLetters(z);
    assert a[|Signed(y)| + 1] == 'W' && b[|Signed(z)| + 1] == 'W';
    assert |Signed(y)| == |Signed(z)|;
    assert a[..|Signed(y)|] == Signed(y) && a[|Signed(y)| + 2..] == WeekText(w);
    assert b[..|Signed(z)|] == Signed(z) && b[|Signed(z)| + 2..] == WeekText(v);
    SignedInjective(y, z);
    WeekTextInjective(w, v);
  }

  /** Up to the year 9999, a day key names one UTC day and a month key one UTC month. */
  lemma DateKeysExact(s: int, t: int)
    requires 0 <= YearOf(DayOf(s)) < 10_000 && 0 <= YearOf(DayOf(t)) < 10_000
    ensures DayKey(s) == DayKey(t) <==> DayOf(s) == DayOf(t)
    ensures MonthKey(s) == MonthKey(t) <==>
      YearOf(DayOf(s)) == YearOf(DayOf(t)) && MonthOf(DayOf(s)) == MonthOf(DayOf(t))
  {
    hide YearOf, MonthOf, DateOf, IsoDate, Pad, Take;
    if DayKey(s) == DayKey(t) {
      DayText(DayOf(s), DayOf(t));
    }
    if MonthKey(s) == MonthKey(t) {
      MonthText(DayOf(s), DayOf(t));
    }
    if YearOf(DayOf(s)) == YearOf(DayOf(t)) && MonthOf(DayOf(s)) == MonthOf(DayOf(t)) {
      DateKeyParts(DayOf(s));
      DateKeyParts(DayOf(t));
    }
  }

  lemma MonthText(d: int, e: int)
    requires 0 <= YearOf(d) < 10_000 && 0 <= YearOf(e) < 10_000
    requires Take(IsoDate(d), 7) == Take(IsoDate(e), 7)
    ensures YearOf(d) == YearOf(e) && MonthOf(d) == MonthOf(e)
  {
    hide YearOf, MonthOf, DateOf, IsoDate, Pad, Take;
    DateKeyParts(d);
    DateKeyParts(e);
    Fields(Pad(YearOf(d), 4), Pad(MonthOf(d) + 1, 2), Pad(YearOf(e), 4), Pad(MonthOf(e) + 1, 2));
    PadInjective(YearOf(d), YearOf(e), 4);
    PadInjective(MonthOf(d) + 1, MonthOf(e) + 1, 2);
  }

  lemma DayText(d: int, e: int)
    requires 0 <= YearOf(d) < 10_000 && 0 <= YearOf(e) < 10_000
    requires Take(IsoDate(d), 10) == Take(IsoDate(e), 10)
    ensures d == e
  {
    hide YearOf, MonthOf, DateOf, IsoDate, Pad, Take;
    DateKeyParts(d);
    DateKeyParts(e);
    Fields(Take(IsoDate(d), 7), Pad(DateOf(d), 2), Take(IsoDate(e), 7), Pad(DateOf(e), 2));
    MonthText(d, e);
    PadInjective(DateOf(d), DateOf(e), 2);
    DayFromDate(d);
    DayFromDate(e);
  }

  lemma Fields(a: string, b: string, c: string, d: string)
    requires |a| == |c| && a + "-" + b == c + "-" + d
    ensures a == c && b == d
  {
    var s := a + "-" + b;
    assert a == s[..|a|] == c;
    assert b == s[|a| + 1..] == d;
  }

  lemma DayFromDate(day: int)
    ensures day == DayNumber(YearOf(day), MonthOf(day), DateOf(day))
  {
  }

  lemma DateKeyParts(day: int)
    requires 0 <= YearOf(day) < 10_000
    ensures |Pad(YearOf(day), 4)| == 4 && |Pad(MonthOf(day) + 1, 2)| == 2 && |Pad(DateOf(day), 2)| == 2
    ensures Take(IsoDate(day), 7) == Pad(YearOf(day), 4) + "-" + Pad(MonthOf(day) + 1, 2)
    ensures Take(IsoDate(day), 10)
      == Pad(YearOf(day), 4) + "-" + Pad(MonthOf(day) + 1, 2) + "-" + Pad(DateOf(day), 2)
  {
    hide YearOf, MonthOf, DateOf;
    PadWidth(YearOf(day), 4);
    PadWidth(MonthOf(day) + 1, 2);
    PadWidth(DateOf(day), 2);
    assert Pow10(2) == 100;
    assert Pow10(4) == 100 * Pow10(2);
  }

  /** In every other year a Date can hold, where a sign and six digits stand for the year,
      a day key names a month and a month key a year. */
  lemma ExpandedKeys(s: int, t: int)
    requires Expanded(YearOf(DayOf(s))) && Expanded(YearOf(DayOf(t)))
    ensures DayKey(s) == DayKey(t) <==>
      YearOf(DayOf(s)) == YearOf(DayOf(t)) && MonthOf(DayOf(s)) == MonthOf(DayOf(t))
    ensures MonthKey(s) == MonthKey(t) <==> YearOf(DayOf(s)) == YearOf(DayOf(t))
  {
    hide YearOf, MonthOf, DateOf, IsoDate, Pad, Take, Digits, ExpandedYear;
    var d, e := DayOf(s), DayOf(t);
    ExpandedParts(d);
    ExpandedParts(e);
    if ExpandedYear(YearOf(d)) == ExpandedYear(YearOf(e)) {
      ExpandedInjective(YearOf(d), YearOf(e));
    }
    if DayKey(s) == DayKey(t) {
      Fields(ExpandedYear(YearOf(d)), Pad(MonthOf(d) + 1, 2), ExpandedYear(YearOf(e)), Pad(MonthOf(e) + 1, 2));
      PadInjective(MonthOf(d) + 1, MonthOf(e) + 1, 2);
    }
  }

  ghost predicate Expanded(y: int) {
    -1_000_000 < y < 0 || 10_000 <= y < 1_000_000
  }

  function ExpandedYear(y: int): string {
    if y < 0 then "-" + Pad(-y, 6) else "+" + Pad(y, 6)
  }

  lemma ExpandedInjective(y: int, z: int)
    requires ExpandedYear(y) == ExpandedYear(z)
    ensures y == z
  {
    hide Pad;
    assert ExpandedYear(y)[1..] == ExpandedYear(z)[1..];
    PadInjective(if y < 0 then -y else y, if z < 0 then -z else z, 6);
    assert ExpandedYear(y)[0] == ExpandedYear(z)[0];
  }

  lemma ExpandedParts(day: int)
    requires Expanded(YearOf(day))
    ensures |ExpandedYear(YearOf(day))| == 7 && Take(IsoDate(day), 7) == ExpandedYear(YearOf(day))
    ensures Take(IsoDate(day), 10) == ExpandedYear(YearOf(day)) + "-" + Pad(MonthOf(day) + 1, 2)
  {
    hide YearOf, MonthOf, DateOf, Pad;
    var y := YearOf(day);
    PadWidth(if y < 0 then -y else y, 6);
    PadWidth(MonthOf(day) + 1, 2);
    assert Pow10(2) == 100;
    assert Pow10(4) == 100 * Pow10(2);
    assert Pow10(6) == 100 * Pow10(4);
  }

  /** How the keys of the four-digit years read. */
  lemma DateKeyText(t: int)
    requires 0 <= YearOf(DayOf(t)) < 10_000
    ensures var key, day := DayKey(t), DayOf(t);
      && |key| == 10 && key[4] == '-' && key[7] == '-' && MonthKey(t) == key[..7]
      && AllDigits(key[..4]) && Number(key[..4]) == YearOf(day)
      && AllDigits(key[5..7]) && Number(key[5..7]) == MonthOf(day) + 1
      && AllDigits(key[8..]) && Number(key[8..]) == DateOf(day)
  {
    hide YearOf, MonthOf, DateOf, IsoDate, Pad, Take, Number;
    var key, day := DayKey(t), DayOf(t);
    DateKeyParts(day);
    NumberOfPad(YearOf(day), 4);
    NumberOfPad(MonthOf(day) + 1, 2);
    NumberOfPad(DateOf(day), 2);
    assert key[..4] == Pad(YearOf(day), 4);
    assert key[5..7] == Pad(MonthOf(day) + 1, 2);
    assert key[8..] == Pad(DateOf(day), 2);
    assert MonthKey(t) == key[..7];
  }

  /** How the keys of numbered weeks read: the year, a `W`, two digits. */
  lemma WeekKeyText(t: int)
    requires !TwoDigit(WeekYear(DayOf(t)))
    ensures var key, day := WeekKey(t), DayOf(t);
      && |key| >= 4 && key[..|key| - 4] == Signed(WeekYear(day)) && key[|key| - 4..|key| - 2] == "-W"
      && AllDigits(key[|key| - 2..]) && Number(key[|key| - 2..]) == WeekNumber(day)
  {
    hide WeekYear, WeekNumber, YearOf, Rebuilt, Signed, Pad, Number;
    var key, n := WeekKey(t), WeekNumber(DayOf(t));
    WeekNumberExact(DayOf(t));
    NumberOfPad(n, 2);
    PadWidth(n, 2);
    assert Pow10(2) == 100;
    assert key[|key| - 2..] == Pad(n, 2);
  }
}
