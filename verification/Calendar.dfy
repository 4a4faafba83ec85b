/**
 The proleptic Gregorian day arithmetic that `Date.UTC` and the `getUTC*` readers
 perform (section 21.4.1 of ECMA-262), and the calendar helpers built on it.
 */
module Calendar {

  datatype Date = Date(year: int, month: int, day: int)

  // ----- section 21.4.1 of ECMA-262 -----

  predicate IsLeap(y: int) {
    y % 4 == 0 && (y % 100 != 0 || y % 400 == 0)
  }

  /** The day number (days since 1970-01-01) of the first day of year y. */
  function DayFromYear(y: int): int {
    365 * (y - 1970) + (y - 1969) / 4 - (y - 1901) / 100 + (y - 1601) / 400
  }

  /** Days of the year that precede the zero-based month m. */
  function DaysBeforeMonth(m: int, leap: bool): int
    requires 0 <= m <= 12
  {
    [0, 31, 59, 90, 120, 151, 181, 212, 243, 273, 304, 334, 365][m] + if leap && m >= 2 then 1 else 0
  }

  /** MakeDay: month is zero-based and may lie outside 0..11, date may lie outside the month. */
  function MakeDay(year: int, month: int, date: int): int {
    var y := year + month / 12;
    DayFromYear(y) + DaysBeforeMonth(month % 12, IsLeap(y)) + date - 1
  }

  lemma FourthYear(y: int)
    ensures (y - 1968) / 4 - (y - 1969) / 4 == if y % 4 == 0 then 1 else 0
  {
  }

  lemma CenturyYear(y: int)
    ensures (y - 1900) / 100 - (y - 1901) / 100 == if y % 100 == 0 then 1 else 0
  {
  }

  lemma FourthCenturyYear(y: int)
    ensures (y - 1600) / 400 - (y - 1601) / 400 == if y % 400 == 0 then 1 else 0
    ensures y % 400 == 0 ==> y % 100 == 0
    ensures y % 100 == 0 ==> y % 4 == 0
  {
  }

  lemma YearLength(y: int)
    ensures DayFromYear(y + 1) - DayFromYear(y) == if IsLeap(y) then 366 else 365
  {
    FourthYear(y);
    CenturyYear(y);
    FourthCenturyYear(y);
  }

  lemma {:induction false} YearsAscend(y: int, z: int)
    requires y <= z
    ensures DayFromYear(y) + 365 * (z - y) <= DayFromYear(z)
    decreases z - y
  {
    if y < z {
      YearsAscend(y, z - 1);
      YearLength(z - 1);
    }
  }

  /** A year's first day is never far from where the mean length of 146097 / 400 days puts it. */
  lemma MeanYears(y: int)
    ensures 146097 * (y - 1970) - 506 <= 400 * DayFromYear(y) <= 146097 * (y - 1970) + 589
  {
  }

  /** The year holding day n: the largest y whose first day is not after n. */
  function YearFromDay(n: int): (y: int)
    ensures DayFromYear(y) <= n < DayFromYear(y + 1)
  {
    var y := 1970 + 400 * n / 146097;
    MeanYears(y - 1);
    MeanYears(y + 2);
    if n < DayFromYear(y) then y - 1 else if n >= DayFromYear(y + 1) then y + 1 else y
  }

  function MonthSearch(m: int, dayOfYear: int, leap: bool): (r: int)
    requires 0 <= m <= 11 && DaysBeforeMonth(m, leap) <= dayOfYear < DaysBeforeMonth(12, leap)
    ensures 0 <= r <= 11 && DaysBeforeMonth(r, leap) <= dayOfYear < DaysBeforeMonth(r + 1, leap)
    decreases 11 - m
  {
    if m < 11 && dayOfYear >= DaysBeforeMonth(m + 1, leap) then MonthSearch(m + 1, dayOfYear, leap) else m
  }

  /** The civil date of day n, as getUTCFullYear, getUTCMonth() + 1 and getUTCDate read it. */
  function FromDay(n: int): Date {
    var y := YearFromDay(n);
    YearLength(y);
    var dayOfYear := n - DayFromYear(y);
    var m := MonthSearch(0, dayOfYear, IsLeap(y));
    Date(y, m + 1, dayOfYear - DaysBeforeMonth(m, IsLeap(y)) + 1)
  }

  /** Date.UTC(year, month - 1, day) in days. */
  function ToDay(d: Date): int {
    MakeDay(d.year, d.month - 1, d.day)
  }

  /** The Gregorian month lengths. */
  function MonthLength(year: int, month: int): int {
    if month == 2 then (if IsLeap(year) then 29 else 28)
    else if month == 4 || month == 6 || month == 9 || month == 11 then 30
    else 31
  }

  predicate Valid(d: Date) {
    1 <= d.month <= 12 && 1 <= d.day <= MonthLength(d.year, d.month)
  }

  predicate Less(a: Date, b: Date) {
    a.year < b.year
    || (a.year == b.year && (a.month < b.month || (a.month == b.month && a.day < b.day)))
  }

  // ----- the bijection between valid dates and day numbers -----

  lemma YearUnique(y: int, z: int, n: int)
    requires DayFromYear(y) <= n < DayFromYear(y + 1)
    requires DayFromYear(z) <= n < DayFromYear(z + 1)
    ensures y == z
  {
    if y < z { YearsAscend(y + 1, z); }
    if z < y { YearsAscend(z + 1, y); }
  }

  lemma MonthsAscend(m: int, n: int, leap: bool)
    requires 0 <= m < n <= 12
    ensures DaysBeforeMonth(0, leap) == 0 <= DaysBeforeMonth(m, leap) < DaysBeforeMonth(n, leap)
    ensures DaysBeforeMonth(n, leap) <= DaysBeforeMonth(12, leap) == if leap then 366 else 365
  {
  }

  /** The month of a day of the year is the one whose bounds hold it. */
  lemma MonthUnique(m: int, dayOfYear: int, leap: bool)
    requires 0 <= m <= 11
    requires DaysBeforeMonth(m, leap) <= dayOfYear < DaysBeforeMonth(m + 1, leap)
    ensures 0 <= dayOfYear < DaysBeforeMonth(12, leap)
    ensures MonthSearch(0, dayOfYear, leap) == m
  {
    hide DaysBeforeMonth;
    MonthsAscend(m, m + 1, leap);
    MonthsAscend(0, 12, leap);
    var r := MonthSearch(0, dayOfYear, leap);
    if r < m && r + 1 != m { MonthsAscend(r + 1, m, leap); }
    if m < r && m + 1 != r { MonthsAscend(m + 1, r, leap); }
  }

  /** Any day of year y, month m (one-based) inside the month's table length reads back as itself. */
  lemma FromMakeDay(y: int, m: int, d: int)
    requires 1 <= m <= 12
    requires 1 <= d <= DaysBeforeMonth(m, IsLeap(y)) - DaysBeforeMonth(m - 1, IsLeap(y))
    ensures FromDay(MakeDay(y, m - 1, d)) == Date(y, m, d)
  {
    hide DayFromYear, IsLeap, DaysBeforeMonth, MonthSearch;
    var n := MakeDay(y, m - 1, d);
    assert (m - 1) / 12 == 0 && (m - 1) % 12 == m - 1;
    YearLength(y);
    MonthUnique(m - 1, n - DayFromYear(y), IsLeap(y));
    MonthsAscend(0, 12, IsLeap(y));
    YearUnique(YearFromDay(n), y, n);
  }

  lemma MonthLengthTable(y: int, m: int)
    requires 1 <= m <= 12
    ensures MonthLength(y, m) == DaysBeforeMonth(m, IsLeap(y)) - DaysBeforeMonth(m - 1, IsLeap(y))
  {
    hide IsLeap;
  }

  /** Day 0 of a month is the last day of the month before it. */
  lemma DayZero(y: int, m: int)
    ensures 1 <= m <= 12 ==> FromDay(MakeDay(y, m, 0)) == Date(y, m, MonthLength(y, m))
  {
    hide DayFromYear, IsLeap, MonthLength;
    if 1 <= m <= 12 {
      var len := DaysBeforeMonth(m, IsLeap(y)) - DaysBeforeMonth(m - 1, IsLeap(y));
      MonthLengthTable(y, m);
      YearLength(y);
      assert MakeDay(y, m, 0) == MakeDay(y, m - 1, len);
      FromMakeDay(y, m, len);
    }
  }

  /** The day before the first of the next month: new Date(Date.UTC(year, month, 0)).getUTCDate(). */
  function DaysInMonth(year: int, month: int): (r: int)
    ensures 1 <= month <= 12 ==> r == MonthLength(year, month)
  {
    DayZero(year, month);
    FromDay(MakeDay(year, month, 0)).day
  }

  lemma FromDayValid(n: int)
    ensures Valid(FromDay(n)) && ToDay(FromDay(n)) == n
  {
    hide DayFromYear, IsLeap;
    var d := FromDay(n);
    assert (d.month - 1) / 12 == 0 && (d.month - 1) % 12 == d.month - 1;
    MonthLengthTable(d.year, d.month);
  }

  lemma ToDayInverse(d: Date)
    requires Valid(d)
    ensures FromDay(ToDay(d)) == d
  {
    hide DayFromYear, IsLeap;
    MonthLengthTable(d.year, d.month);
    FromMakeDay(d.year, d.month, d.day);
  }

  lemma ToDayOrder(a: Date, b: Date)
    requires Valid(a) && Valid(b)
    ensures Less(a, b) <==> ToDay(a) < ToDay(b)
    ensures a == b <==> ToDay(a) == ToDay(b)
  {
    hide DayFromYear, IsLeap, DaysBeforeMonth;
    DayBounds(a);
    DayBounds(b);
    if Less(a, b) { ToDayAscends(a, b); }
    if Less(b, a) { ToDayAscends(b, a); }
  }

  lemma ToDayAscends(a: Date, b: Date)
    requires Valid(a) && Valid(b) && Less(a, b)
    ensures ToDay(a) < ToDay(b)
  {
    hide DayFromYear, IsLeap, DaysBeforeMonth;
    DayBounds(a);
    DayBounds(b);
    if a.year < b.year {
      YearsAscend(a.year + 1, b.year);
    } else if a.month < b.month {
      if a.month != b.month - 1 { MonthsAscend(a.month, b.month - 1, IsLeap(a.year)); }
    }
  }

  lemma DayBounds(a: Date)
    requires Valid(a)
    ensures DayFromYear(a.year) <= ToDay(a) < DayFromYear(a.year + 1)
    ensures ToDay(a) == DayFromYear(a.year) + DaysBeforeMonth(a.month - 1, IsLeap(a.year)) + a.day - 1
    ensures 1 <= a.day <= DaysBeforeMonth(a.month, IsLeap(a.year)) - DaysBeforeMonth(a.month - 1, IsLeap(a.year))
  {
    hide DayFromYear, IsLeap;
    assert (a.month - 1) / 12 == 0 && (a.month - 1) % 12 == a.month - 1;
    MonthLengthTable(a.year, a.month);
    YearLength(a.year);
  }

  // ----- the calendar helpers -----

  /** Whole days from a to b. */
  function DayDiff(a: Date, b: Date): int {
    ToDay(b) - ToDay(a)
  }

  function AddDays(d: Date, days: int): Date {
    FromDay(MakeDay(d.year, d.month - 1, d.day + days))
  }

  /** 0 = Sunday .. 6 = Saturday; day 0 is a Thursday. */
  function Weekday(d: Date): int {
    (ToDay(d) + 4) % 7
  }

  /** Adding days is an action of the integers on valid dates, inverse to the difference. */
  lemma AddDaysAction(a: Date, m: int, n: int)
    requires Valid(a)
    ensures Valid(AddDays(a, n)) && ToDay(AddDays(a, n)) == ToDay(a) + n
    ensures AddDays(a, 0) == a
    ensures AddDays(AddDays(a, m), n) == AddDays(a, m + n)
    ensures DayDiff(a, AddDays(a, n)) == n
    ensures Weekday(AddDays(a, n)) == (Weekday(a) + n) % 7
  {
    hide DayFromYear, DaysBeforeMonth, FromDay, Valid;
    FromDayValid(ToDay(a) + n);
    FromDayValid(ToDay(a) + m);
    ToDayInverse(a);
  }

  lemma AddDaysReaches(a: Date, b: Date)
    requires Valid(a) && Valid(b)
    ensures AddDays(a, DayDiff(a, b)) == b
  {
    hide DayFromYear, DaysBeforeMonth, IsLeap, FromDay, Valid;
    ToDayInverse(b);
  }

  lemma AddDaysOrder(a: Date, b: Date, n: int)
    requires Valid(a) && Valid(b)
    ensures Less(AddDays(a, n), AddDays(b, n)) <==> Less(a, b)
    ensures n > 0 <==> Less(a, AddDays(a, n))
  {
    hide DayFromYear, DaysBeforeMonth, IsLeap, FromDay, Valid, ToDay, AddDays;
    AddDaysAction(a, 0, n);
    AddDaysAction(b, 0, n);
    ToDayOrder(a, b);
    ToDayOrder(AddDays(a, n), AddDays(b, n));
    ToDayOrder(a, AddDays(a, n));
  }

  lemma Cycle(n: int, k: int)
    ensures (n + 400 * k) / 4 == n / 4 + 100 * k && (n + 400 * k) % 4 == n % 4
    ensures (n + 400 * k) / 100 == n / 100 + 4 * k && (n + 400 * k) % 100 == n % 100
    ensures (n + 400 * k) / 400 == n / 400 + k && (n + 400 * k) % 400 == n % 400
  {
  }

  /** The calendar repeats every 400 years of 146097 days. */
  lemma FourCenturies(y: int, m: int, k: int)
    requires 1 <= m <= 12
    ensures DaysInMonth(y + 400 * k, m) == DaysInMonth(y, m)
    ensures DayFromYear(y + 400 * k) == DayFromYear(y) + 146097 * k
  {
    hide DaysInMonth;
    assert IsLeap(y + 400 * k) == IsLeap(y) by {
      hide DayFromYear;
      Cycle(y, k);
    }
    assert DaysInMonth(y + 400 * k, m) == DaysInMonth(y, m) by {
      hide DayFromYear, IsLeap;
      MonthLengthTable(y, m);
      MonthLengthTable(y + 400 * k, m);
    }
    assert DayFromYear(y + 400 * k) == DayFromYear(y) + 146097 * k by {
      Cycle(y - 1969, k);
      Cycle(y - 1901, k);
      Cycle(y - 1601, k);
    }
  }
}
