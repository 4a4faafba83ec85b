/**
 The plain reading of a repeating date: occurrences counted one period at a time from
 the anchor, and a window looked at day by day.
 */
module Recurrence {
  import opened Calendar
  import opened Wrappers

  datatype Freq = Daily | Weekly | Weekdays | Monthly | Yearly

  datatype Rule = Rule(freq: Freq, interval: int)

  datatype Series = Series(rule: Rule, anchor: Date, exdates: set<Date>, until: Option<Date>)

  datatype ExpandError = InvalidCap | InvalidWindow

  const MAX_INTERVAL := 999

  /** Dates whose `Date.UTC` reading has no legacy two-digit-year remapping and whose ISO form has four year digits. */
  predicate Plain(d: Date) {
    Valid(d) && 100 <= d.year <= 9999
  }

  predicate ValidRule(r: Rule) {
    1 <= r.interval <= MAX_INTERVAL && (r.freq.Weekdays? ==> r.interval == 1)
  }

  predicate ValidSeries(s: Series) {
    ValidRule(s.rule) && Plain(s.anchor) && (s.until.Some? ==> Plain(s.until.value))
  }

  // ----- stepping -----

  function MonthIndex(d: Date): int {
    d.year * 12 + (d.month - 1)
  }

  /** The anchor's day n months later, or None when that month lacks the day. */
  function ShiftMonths(anchor: Date, n: int): Option<Date> {
    var zeroBased := MonthIndex(anchor) + n;
    var year := zeroBased / 12;
    var month := zeroBased % 12 + 1;
    if anchor.day > DaysInMonth(year, month) then None else Some(Date(year, month, anchor.day))
  }

  /** Whole months from a to b. */
  function MonthDiff(a: Date, b: Date): int {
    (b.year - a.year) * 12 + (b.month - a.month)
  }

  function Ceil(a: int, b: int): int
    requires b > 0
  {
    -((-a) / b)
  }

  /** Days (daily, weekly, weekdays) or months (monthly, yearly) in one period of the rule. */
  function Step(r: Rule): int {
    match r.freq
    case Daily | Weekdays | Monthly => r.interval
    case Weekly => r.interval * 7
    case Yearly => r.interval * 12
  }

  // ----- the naive reading of a rule -----

  /** The k-th period counted from the anchor: its day, or None when the rule skips that period. */
  function Occurrence(r: Rule, anchor: Date, k: nat): Option<Date> {
    match r.freq
    case Daily | Weekly => Some(AddDays(anchor, k * Step(r)))
    case Weekdays =>
      var d := AddDays(anchor, k);
      if 1 <= Weekday(d) <= 5 then Some(d) else None
    case Monthly | Yearly => ShiftMonths(anchor, k * Step(r))
  }

  ghost predicate Occurs(r: Rule, anchor: Date, d: Date) {
    exists k: nat :: Occurrence(r, anchor, k) == Some(d)
  }

  /** Day number n is a day of the series: an occurrence, not excluded, not after the bound. */
  ghost predicate Kept(s: Series, n: int) {
    && Occurs(s.rule, s.anchor, FromDay(n))
    && FromDay(n) !in s.exdates
    && (s.until.Some? ==> !Less(s.until.value, FromDay(n)))
  }

  /** The plain enumeration: every day from lo to hi looked at in turn. */
  ghost function Window(s: Series, lo: int, hi: int): seq<Date>
    decreases hi - lo
  {
    if lo > hi then [] else (if Kept(s, lo) then [FromDay(lo)] else []) + Window(s, lo + 1, hi)
  }

  function Take<T>(xs: seq<T>, cap: int): seq<T>
    requires cap >= 0
  {
    if |xs| <= cap then xs else xs[..cap]
  }

  // ----- the anchor -----

  /** The anchor is an occurrence unless the rule is the weekdays rule and it falls on a weekend. */
  lemma AnchorOccurs(r: Rule, anchor: Date)
    requires ValidRule(r) && Valid(anchor)
    ensures Occurs(r, anchor, anchor) <==> (r.freq.Weekdays? ==> 1 <= Weekday(anchor) <= 5)
  {
    AddDaysAction(anchor, 0, 0);
    if r.freq.Weekdays? {
      hide Weekday;
      if k: nat :| Occurrence(r, anchor, k) == Some(anchor) {
        AddDaysAction(anchor, 0, k);
        DayDiffSelf(anchor);
      }
      assert Occurrence(r, anchor, 0) == if 1 <= Weekday(anchor) <= 5 then Some(anchor) else None;
    } else {
      hide Weekday, AddDays;
      ShiftNone(anchor);
      assert Occurrence(r, anchor, 0) == Some(anchor);
    }
  }

  lemma DayDiffSelf(d: Date)
    ensures DayDiff(d, d) == 0
  {
  }

  lemma ShiftNone(anchor: Date)
    requires Valid(anchor)
    ensures ShiftMonths(anchor, 0) == Some(anchor)
  {
    hide DaysInMonth;
  }

  /** A series on weekdays anchored on Saturday 2026-01-03 does not hold its own anchor. */
  lemma SaturdayAnchor()
    ensures var saturday := Date(2026, 1, 3);
            Plain(saturday) && Weekday(saturday) == 6 && !Occurs(Rule(Weekdays, 1), saturday, saturday)
  {
    hide Occurs;
    AnchorOccurs(Rule(Weekdays, 1), Date(2026, 1, 3));
  }

  // ----- the enumeration itself -----

  lemma {:induction false} WindowSplit(s: Series, lo: int, mid: int, hi: int)
    requires lo <= mid + 1 && mid <= hi
    ensures Window(s, lo, hi) == Window(s, lo, mid) + Window(s, mid + 1, hi)
    decreases mid - lo
  {
    hide Kept;
    if lo <= mid {
      WindowSplit(s, lo + 1, mid, hi);
    }
  }

  lemma {:induction false} WindowEmpty(s: Series, lo: int, hi: int)
    requires forall n :: lo <= n <= hi ==> !Kept(s, n)
    ensures Window(s, lo, hi) == []
    decreases hi - lo
  {
    hide Kept;
    if lo <= hi {
      WindowEmpty(s, lo + 1, hi);
    }
  }

  /** The enumeration holds exactly the kept days of the window, strictly ascending. */
  lemma {:induction false} WindowExact(s: Series, lo: int, hi: int)
    ensures forall d :: d in Window(s, lo, hi) <==> Valid(d) && lo <= ToDay(d) <= hi && Kept(s, ToDay(d))
    ensures forall i, j :: 0 <= i < j < |Window(s, lo, hi)| ==> Less(Window(s, lo, hi)[i], Window(s, lo, hi)[j])
    decreases hi - lo
  {
    hide Kept, Less, Valid, ToDay, FromDay;
    if lo <= hi {
      WindowExact(s, lo + 1, hi);
      var tail := Window(s, lo + 1, hi);
      FromDayValid(lo);
      forall d | Valid(d)
        ensures FromDay(ToDay(d)) == d
        ensures d in tail ==> Less(FromDay(lo), d)
      {
        ToDayInverse(d);
        ToDayOrder(FromDay(lo), d);
      }
      var head := if Kept(s, lo) then [FromDay(lo)] else [];
      assert Window(s, lo, hi) == head + tail;
    }
  }

  // ----- what the jumps step over -----

  /** The k-th multiple of a step counted from a base. */
  function Nth(base: int, k: int, step: int): int {
    base + k * step
  }

  lemma NthAscends(base: int, j: int, k: int, step: int)
    requires step > 0 && j < k
    ensures Nth(base, j, step) + step <= Nth(base, k, step)
  {
    assert (k - j - 1) * step >= 0;
  }

  lemma DayPeriods(r: Rule, anchor: Date, n: int)
    requires r.freq.Daily? || r.freq.Weekly?
    requires ValidRule(r) && Valid(anchor)
    ensures Occurs(r, anchor, FromDay(n)) <==> exists k: nat :: n == Nth(ToDay(anchor), k, Step(r))
  {
    hide FromDay, ToDay, Valid, Weekday;
    FromDayValid(n);
    if Occurs(r, anchor, FromDay(n)) {
      var k: nat :| Occurrence(r, anchor, k) == Some(FromDay(n));
      AddDaysAction(anchor, 0, k * Step(r));
      assert n == Nth(ToDay(anchor), k, Step(r));
    }
    if k: nat :| n == Nth(ToDay(anchor), k, Step(r)) {
      AddDaysReaches(anchor, FromDay(n));
      assert Occurrence(r, anchor, k) == Some(FromDay(n));
    }
  }

  lemma WeekdayPeriods(r: Rule, anchor: Date, n: int)
    requires r.freq.Weekdays? && Valid(anchor)
    ensures Occurs(r, anchor, FromDay(n)) <==> n >= ToDay(anchor) && 1 <= Weekday(FromDay(n)) <= 5
  {
    hide FromDay, ToDay, Valid, Weekday;
    FromDayValid(n);
    if Occurs(r, anchor, FromDay(n)) {
      var k: nat :| Occurrence(r, anchor, k) == Some(FromDay(n));
      AddDaysAction(anchor, 0, k);
    }
    if n >= ToDay(anchor) && 1 <= Weekday(FromDay(n)) <= 5 {
      AddDaysReaches(anchor, FromDay(n));
      assert Occurrence(r, anchor, n - ToDay(anchor)) == Some(FromDay(n));
    }
  }

  lemma MonthPeriods(r: Rule, anchor: Date, d: Date)
    requires r.freq.Monthly? || r.freq.Yearly?
    requires ValidRule(r) && Valid(anchor) && Valid(d)
    ensures Occurs(r, anchor, d) <==>
            d.day == anchor.day && exists k: nat :: MonthIndex(d) == Nth(MonthIndex(anchor), k, Step(r))
  {
    hide DaysInMonth;
    if Occurs(r, anchor, d) {
      var k: nat :| Occurrence(r, anchor, k) == Some(d);
      assert MonthIndex(d) == Nth(MonthIndex(anchor), k, Step(r));
    }
    if k: nat :| d.day == anchor.day && MonthIndex(d) == Nth(MonthIndex(anchor), k, Step(r)) {
      MonthIndexRead(d);
      assert Occurrence(r, anchor, k) == Some(d);
    }
  }

  lemma MonthIndexRead(d: Date)
    requires 1 <= d.month <= 12
    ensures MonthIndex(d) / 12 == d.year && MonthIndex(d) % 12 == d.month - 1
  {
  }

  /** Comparing dates against the first day of a month is comparing months. */
  lemma MonthOrder(a: Date, b: Date)
    requires 1 <= a.month <= 12 && 1 <= b.month <= 12
    ensures MonthIndex(a) < MonthIndex(b) ==> Less(a, b)
    ensures MonthIndex(a) == MonthIndex(b) ==> a.year == b.year && a.month == b.month
    ensures Less(a, b) ==> MonthIndex(a) <= MonthIndex(b)
  {
  }

  lemma NotBefore(a: Date, d: Date)
    requires 1 <= a.month <= 12 && 1 <= d.month <= 12
    requires MonthIndex(a) <= MonthIndex(d) && a.day <= d.day
    ensures !Less(d, a)
  {
  }

  /** Every occurrence is on or after the anchor. */
  lemma OccursAfterAnchor(r: Rule, anchor: Date, n: int)
    requires ValidRule(r) && Valid(anchor) && Occurs(r, anchor, FromDay(n))
    ensures n >= ToDay(anchor)
  {
    hide FromDay, ToDay, Less, Valid, Occurs;
    FromDayValid(n);
    match r.freq
    case Daily | Weekly =>
      DayPeriods(r, anchor, n);
      var k: nat :| n == Nth(ToDay(anchor), k, Step(r));
      assert k * Step(r) >= 0;
    case Weekdays => WeekdayPeriods(r, anchor, n);
    case Monthly | Yearly => MonthsAfterAnchor(r, anchor, FromDay(n));
  }

  lemma MonthsAfterAnchor(r: Rule, anchor: Date, d: Date)
    requires r.freq.Monthly? || r.freq.Yearly?
    requires ValidRule(r) && Valid(anchor) && Valid(d) && Occurs(r, anchor, d)
    ensures ToDay(anchor) <= ToDay(d)
  {
    hide ToDay, Less, DaysInMonth, Occurs;
    MonthPeriods(r, anchor, d);
    var k: nat :| MonthIndex(d) == Nth(MonthIndex(anchor), k, Step(r));
    assert k * Step(r) >= 0;
    NotBefore(anchor, d);
    ToDayOrder(d, anchor);
  }

  // ----- what a rule means -----

  /**
   The days of a rule in terms of the calendar alone: every so many days, every so many
   weeks, every weekday from the anchor on, the anchor's day of the month every so many
   months, the anchor's day of the year every so many years.
   */
  ghost predicate Recurs(r: Rule, anchor: Date, d: Date) {
    match r.freq
    case Daily => exists k: nat :: ToDay(d) == Nth(ToDay(anchor), k, r.interval)
    case Weekly => exists k: nat :: ToDay(d) == Nth(ToDay(anchor), k, 7 * r.interval)
    case Weekdays => ToDay(d) >= ToDay(anchor) && 1 <= (ToDay(d) + 4) % 7 <= 5
    case Monthly =>
      d.day == anchor.day &&
      exists k: nat :: 12 * (d.year - anchor.year) + (d.month - anchor.month) == Nth(0, k, r.interval)
    case Yearly =>
      d.day == anchor.day && d.month == anchor.month && exists k: nat :: d.year == Nth(anchor.year, k, r.interval)
  }

  /** The occurrences of a rule, counted period by period, are the days it means. */
  lemma OccursMeans(r: Rule, anchor: Date, d: Date)
    requires ValidRule(r) && Valid(anchor) && Valid(d)
    ensures Occurs(r, anchor, d) <==> Recurs(r, anchor, d)
  {
    hide FromDay, ToDay, Valid, Occurs;
    ToDayInverse(d);
    match r.freq
    case Daily =>
      assert Step(r) == r.interval;
      DayPeriods(r, anchor, ToDay(d));
    case Weekly =>
      assert Step(r) == 7 * r.interval;
      DayPeriods(r, anchor, ToDay(d));
    case Weekdays =>
      WeekdayPeriods(r, anchor, ToDay(d));
      WeekdayNumber(d);
    case Monthly =>
      MonthPeriods(r, anchor, d);
      var months := 12 * (d.year - anchor.year) + (d.month - anchor.month);
      if k: nat :| MonthIndex(d) == Nth(MonthIndex(anchor), k, Step(r)) { assert months == Nth(0, k, r.interval); }
      if k: nat :| months == Nth(0, k, r.interval) { assert MonthIndex(d) == Nth(MonthIndex(anchor), k, Step(r)); }
    case Yearly => YearPeriods(r, anchor, d);
  }

  lemma WeekdayNumber(d: Date)
    ensures Weekday(d) == (ToDay(d) + 4) % 7
  {
  }

  lemma YearPeriods(r: Rule, anchor: Date, d: Date)
    requires r.freq.Yearly? && ValidRule(r) && Valid(anchor) && Valid(d)
    ensures Occurs(r, anchor, d) <==> Recurs(r, anchor, d)
  {
    hide ToDay, MonthLength, Occurs;
    MonthPeriods(r, anchor, d);
    if k: nat :| MonthIndex(d) == Nth(MonthIndex(anchor), k, Step(r)) {
      WholeYears(d, anchor, k * r.interval);
      assert d.year == Nth(anchor.year, k, r.interval);
    }
    if k: nat :| d.month == anchor.month && d.year == Nth(anchor.year, k, r.interval) {
      assert k * (12 * r.interval) == 12 * (k * r.interval);
      assert MonthIndex(d) == Nth(MonthIndex(anchor), k, Step(r));
    }
  }

  lemma WholeYears(d: Date, anchor: Date, years: int)
    requires 1 <= d.month <= 12 && 1 <= anchor.month <= 12
    requires MonthIndex(d) == MonthIndex(anchor) + 12 * years
    ensures d.year == anchor.year + years && d.month == anchor.month
  {
  }
}
