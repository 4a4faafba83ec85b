/**
 When the expansion is the plain enumeration, in conditions on the series and the window
 that a caller can check before expanding.
 */
module RecurrenceDense {
  import opened Calendar
  import opened IsoDates
  import opened Recurrence
  import opened RecurrenceLoops
  import opened RecurrenceRange
  import opened RecurrenceWalk
  import opened Text
  import opened Wrappers

  // ----- conditions a caller can check -----

  /** A day of the series that is not before the window, of four year digits, and past window or bound. */
  predicate Closes(s: Series, from: Date, to: Date, c: Date) {
    Plain(c) && !Less(c, from) && (Less(to, c) || (s.until.Some? && Less(s.until.value, c)))
  }

  /** Every day from the first position on belongs to one candidate. */
  lemma {:induction false} Answered(s: Series, from: Date, n: int, j: nat) returns (i: nat)
    requires ValidSeries(s) && Plain(from)
    requires Position(s, Start(s, from)) <= n < Position(s, Start(s, from) + j)
    ensures i < j && Position(s, Start(s, from) + i) <= n < Position(s, Start(s, from) + i + 1)
    decreases j
  {
    hide Position, Start;
    if Position(s, Start(s, from) + (j - 1)) <= n { i := j - 1; } else { i := Answered(s, from, n, j - 1); }
  }

  /** An occurrence of four year digits, not before the window, is a candidate ahead of all far ones. */
  lemma OccurrenceOffered(s: Series, from: Date, c: Date, j: nat) returns (i: nat)
    requires ValidSeries(s) && Plain(from) && Plain(c) && !Less(c, from) && Occurs(s.rule, s.anchor, c)
    requires !Near(Cand(s, from, j))
    ensures i < j && Cand(s, from, i) == Offered(Some(c))
  {
    hide Position, Start, CandidateAt, FromDay, ToDay, Valid, Occurs;
    var n := ToDay(c);
    ToDayInverse(c);
    ToDayOrder(c, from);
    NearDay(c);
    FarPosition(s, Start(s, from) + j);
    if n < Position(s, Start(s, from)) { FastForward(s, from, n); }
    i := Answered(s, from, n, j);
    OnlyCandidate(s, Start(s, from) + i, n);
  }

  /** If the series has a day past the window in a year of four digits, the expansion is the window. */
  lemma ClosedInTime(s: Series, from: Date, to: Date, c: Date)
    requires ValidWindow(s, from, to) && Occurs(s.rule, s.anchor, c) && Closes(s, from, to, c)
    ensures HaltsInTime(s, from, to)
  {
    hide Cand, Occurs, StringLess, FormatIso, Less, MonthLength;
    var m := SomeFar(s, from);
    var i := OccurrenceOffered(s, from, c, m);
    NearOrder(to, c);
    if s.until.Some? { NearOrder(s.until.value, c); }
    assert Halts(s, to, Cand(s, from, i));
    forall j: nat | j < i ensures Near(Cand(s, from, j)) {
      if !Near(Cand(s, from, j)) { FarStays(s, from, j, i); }
    }
    assert HaltsAt(s, from, to, i);
  }

  // ----- rules that never skip ten years -----

  /** The days the month has in every year. */
  function ShortLength(month: int): int {
    if month == 2 then 28 else MonthLength(2001, month)
  }

  /** The j-th step from the anchor leads to a month that has the anchor's day in every year. */
  predicate Suits(anchor: Date, step: int, j: int) {
    anchor.day <= ShortLength((anchor.month - 1 + j * step) % 12 + 1)
  }

  /** Of the steps that ten years hold for certain, counted from the k-th, one suits. */
  predicate SuitsFrom(anchor: Date, step: int, k: int)
    requires step > 0
  {
    exists j :: k <= j < k + 120 / step && Suits(anchor, step, j)
  }

  /** ... wherever in the cycle of the months the counting begins. */
  predicate MeetsDay(anchor: Date, step: int)
    requires step > 0
  {
    forall k :: 0 <= k < 12 ==> SuitsFrom(anchor, step, k)
  }

  /** Every one, two, four or eight years on 29 February. */
  predicate LeapDays(anchor: Date, step: int) {
    anchor.month == 2 && anchor.day == 29 && (step == 12 || step == 24 || step == 48 || step == 96)
  }

  /**
   Rules with a day in any ten years from 10000 on: daily rules, the weekdays rule, weekly
   rules up to every 521 weeks, and rules up to every 120 months or ten years unless months
   without the anchor's day can follow on one another for as long as that.
   */
  predicate Dense(s: Series)
    requires ValidRule(s.rule)
  {
    match s.rule.freq
    case Weekdays => true
    case Daily | Weekly => Step(s.rule) <= 3650
    case Monthly | Yearly =>
      Step(s.rule) <= 120 && (MeetsDay(s.anchor, Step(s.rule)) || LeapDays(s.anchor, Step(s.rule)))
  }

  /** Up to the 28th of the month every rule of at most ten years is dense. */
  lemma EarlyDaysDense(s: Series)
    requires ValidSeries(s) && EveryMonths(s.rule) && Step(s.rule) <= 120 && s.anchor.day <= 28
    ensures Dense(s)
  {
    var step := Step(s.rule);
    assert 120 / step >= 1;
    forall k | 0 <= k < 12 ensures SuitsFrom(s.anchor, step, k) { assert Suits(s.anchor, step, k); }
  }

  /** So is one on any day, 29 February apart, whose own month comes round within ten years. */
  lemma OwnMonthDense(s: Series, round: nat)
    requires ValidSeries(s) && EveryMonths(s.rule) && !(s.anchor.month == 2 && s.anchor.day == 29)
    requires 0 < round && round * Step(s.rule) <= 120 && (round * Step(s.rule)) % 12 == 0
    ensures Dense(s)
  {
    var step := Step(s.rule);
    RoundFits(step, round);
    forall k | 0 <= k < 12 ensures SuitsFrom(s.anchor, step, k) {
      var j := RoundAfter(step, round, k);
      OwnMonthSuits(s.anchor, step, j);
    }
  }

  lemma RoundFits(step: int, round: nat)
    requires step > 0 && 0 < round && round * step <= 120
    ensures round <= 120 / step && step <= 120
  {
  }

  /** A multiple of the round at or after k and before k + round. */
  lemma RoundAfter(step: int, round: nat, k: nat) returns (j: nat)
    requires 0 < round && (round * step) % 12 == 0
    ensures k <= j < k + round && (j * step) % 12 == 0
  {
    var m := (k + round - 1) / round;
    j := m * round;
    assert j * step == m * (round * step);
    MultipleOfTwelve(m, round * step);
  }

  lemma MultipleOfTwelve(m: int, x: int)
    requires x % 12 == 0
    ensures (m * x) % 12 == 0
  {
    assert m * x == 12 * (m * (x / 12));
  }

  lemma OwnMonthSuits(anchor: Date, step: int, j: int)
    requires Valid(anchor) && !(anchor.month == 2 && anchor.day == 29) && (j * step) % 12 == 0
    ensures Suits(anchor, step, j)
  {
  }

  /** A rule that steps no further than the stretch is long has a day on offer in the stretch. */
  lemma DayWithin(s: Series, from: Date, lo: int, hi: int) returns (i: nat, d: Date)
    requires ValidSeries(s) && Plain(from) && EveryDays(s.rule) && Step(s.rule) <= hi - lo
    requires DayFromYear(10000) <= lo && hi <= LAST_DAY
    ensures Cand(s, from, i) == Offered(Some(d)) && Valid(d) && lo <= ToDay(d) < hi
  {
    hide ToDay, CandidateAt, DayFromYear, Start, Valid, AddDays, FromDay;
    var base, step := ToDay(s.anchor), Step(s.rule);
    NearDay(s.anchor);
    var k := Ceil(lo - base, step);
    CeilBounds(lo - base, step);
    NthOfZero(k, step);
    DayAt(s, k);
    AddDaysAction(s.anchor, 0, k * step);
    d := AddDays(s.anchor, k * step);
    StartBefore(s, from, k, lo);
    i := k - Start(s, from);
  }

  lemma WeekdayWithin(s: Series, from: Date, lo: int) returns (i: nat, d: Date)
    requires ValidSeries(s) && Plain(from) && s.rule.freq.Weekdays? && DayFromYear(10000) <= lo <= LAST_DAY - 3
    ensures Cand(s, from, i) == Offered(Some(d)) && Valid(d) && lo <= ToDay(d) < lo + 3
  {
    hide ToDay, CandidateAt, DayFromYear, Start, Valid, AddDays, Weekday, FromDay;
    NearDay(s.anchor);
    var k := NextOnWeek(s, lo - ToDay(s.anchor));
    WeekdayAt(s, k);
    AddDaysAction(s.anchor, 0, k);
    d := AddDays(s.anchor, k);
    StartBefore(s, from, k, lo);
    i := k - Start(s, from);
  }

  /** The candidate of a month the rule steps to and that has the anchor's day. */
  lemma MonthOffered(s: Series, from: Date, k: nat, d: Date)
    requires ValidSeries(s) && Plain(from) && EveryMonths(s.rule) && Valid(d) && d.year >= 10000
    requires d.day == s.anchor.day && MonthIndex(d) == MonthIndex(s.anchor) + k * Step(s.rule)
    ensures Start(s, from) <= k && Cand(s, from, k - Start(s, from)) == Offered(Some(d))
  {
    hide DaysInMonth, MonthLength, Ceil, CandidateAt, Shifted;
    var a, step := MonthDiff(s.anchor, from), Step(s.rule);
    ShiftReads(s.anchor, k * step, d);
    MonthAt(s, k);
    CeilBounds(a, step);
    NthOfZero(Ceil(a, step), step);
    NthOfZero(k, step);
    if k < Ceil(a, step) - 1 { NthAscends(0, k, Ceil(a, step) - 1, step); }
  }

  /** A dense monthly or yearly rule has a day on offer in the ten years. */
  lemma MonthWithin(s: Series, from: Date, q: nat) returns (i: nat, d: Date)
    requires ValidSeries(s) && Plain(from) && EveryMonths(s.rule) && Dense(s) && 1000 <= q <= 9999
    ensures Cand(s, from, i) == Offered(Some(d)) && 10 * q <= d.year <= 10 * q + 9
  {
    hide MeetsDay, MonthLength, Cand, Start;
    var k: nat;
    if MeetsDay(s.anchor, Step(s.rule)) {
      k, d := SuitedMonth(s.anchor, Step(s.rule), q);
    } else {
      k, d := LeapMonth(s.anchor, Step(s.rule), q);
    }
    MonthOffered(s, from, k, d);
    i := k - Start(s, from);
  }

  /** Of the months the rule steps to in the ten years, one that has the day in every year. */
  lemma SuitedMonth(anchor: Date, step: int, q: nat) returns (k: nat, d: Date)
    requires Plain(anchor) && 0 < step <= 120 && MeetsDay(anchor, step) && 1000 <= q <= 9999
    ensures Valid(d) && d.day == anchor.day && MonthIndex(d) == MonthIndex(anchor) + k * step
    ensures 10 * q <= d.year <= 10 * q + 9
  {
    hide MonthLength, Suits, Valid, MonthIndex;
    var base := MonthIndex(anchor);
    AnchorIndex(anchor);
    var first := FirstStep(base, step, 120 * q);
    assert SuitsFrom(anchor, step, first % 12);
    var j :| first % 12 <= j < first % 12 + 120 / step && Suits(anchor, step, j);
    k := first + (j - first % 12);
    WithinTenYears(step, first, k);
    d := DayInTenYears(base + k * step, anchor.day, q);
    SameMonth(anchor, step, j, k);
    SuitedValid(anchor, step, j, d);
  }

  /** The first step that reaches the goal. */
  lemma FirstStep(base: int, step: int, goal: int) returns (first: nat)
    requires 0 < step && base < goal
    ensures (first - 1) * step < goal - base <= first * step
  {
    hide Ceil, Nth;
    CeilBounds(goal - base, step);
    first := Ceil(goal - base, step);
    NthOfZero(first, step);
    assert (first - 1) * step == first * step - step;
  }

  lemma AnchorIndex(anchor: Date)
    requires Plain(anchor)
    ensures 1200 <= MonthIndex(anchor) < 120000
  {
  }

  lemma DayInTenYears(index: int, day: int, q: int) returns (d: Date)
    requires 120 * q <= index < 120 * q + 120
    ensures d == Date(index / 12, index % 12 + 1, day) && MonthIndex(d) == index && 10 * q <= d.year <= 10 * q + 9
  {
    d := Date(index / 12, index % 12 + 1, day);
  }

  lemma WithinTenYears(step: int, first: int, k: int)
    requires 0 < step && first <= k < first + 120 / step
    ensures first * step <= k * step <= (first - 1) * step + 120
  {
    var n := 120 / step;
    StepsAscend(0, k - first, step);
    StepsAscend(k - first, n - 1, step);
    assert k * step == first * step + (k - first) * step && n * step <= 120;
    assert (n - 1) * step == n * step - step && (first - 1) * step == first * step - step;
  }

  lemma SameMonth(anchor: Date, step: int, j: int, k: int)
    requires (k - j) % 12 == 0
    ensures (MonthIndex(anchor) + k * step) % 12 == (anchor.month - 1 + j * step) % 12
  {
    var m := (k - j) / 12;
    assert k * step == j * step + 12 * (m * step);
  }

  lemma SuitedValid(anchor: Date, step: int, j: int, d: Date)
    requires Valid(anchor) && Suits(anchor, step, j) && d.day == anchor.day
    requires d.month == (anchor.month - 1 + j * step) % 12 + 1
    ensures Valid(d)
  {
  }

  lemma AfterCentury(y: int)
    requires y % 100 == 0
    ensures IsLeap(y + 8)
  {
    var c := y / 100;
    assert y + 8 == 4 * (25 * c + 2) && y + 8 == 100 * c + 8;
  }

  lemma CenturyStarts(y: int, q: int)
    requires y % 100 == 0 && 10 * q <= y <= 10 * q + 7
    ensures y == 10 * q
  {
    assert y == 10 * (10 * (y / 100));
  }

  lemma ClassOfFour(a: int, y: int)
    requires IsLeap(a) && (y - a) % 8 == 0
    ensures y % 4 == 0
  {
    assert y == a + 4 * (2 * ((y - a) / 8));
  }

  lemma ClassOfEight(a: int, n: int) returns (y: int)
    ensures n <= y <= n + 7 && (y - a) % 8 == 0
  {
    y := n + (a - n) % 8;
    assert y - a == -8 * ((a - n) / 8);
  }

  /** Ten years hold a leap year of any class modulo eight that has leap years at all. */
  lemma LeapYearNear(a: int, q: nat) returns (year: int)
    requires IsLeap(a)
    ensures 10 * q <= year <= 10 * q + 9 && IsLeap(year) && (year - a) % 8 == 0
  {
    var y := ClassOfEight(a, 10 * q);
    ClassOfFour(a, y);
    if y % 100 == 0 {
      AfterCentury(y);
      CenturyStarts(y, q);
      year := y + 8;
    } else {
      year := y;
    }
  }

  lemma LeapMonth(anchor: Date, step: int, q: nat) returns (k: nat, d: Date)
    requires Plain(anchor) && LeapDays(anchor, step) && 1000 <= q <= 9999
    ensures Valid(d) && d.day == anchor.day && MonthIndex(d) == MonthIndex(anchor) + k * step
    ensures 10 * q <= d.year <= 10 * q + 9
  {
    hide IsLeap;
    var year := LeapYearNear(anchor.year, q);
    d := Date(year, 2, 29);
    var eights := (year - anchor.year) / 8;
    k := eights * (if step == 12 then 8 else if step == 24 then 4 else if step == 48 then 2 else 1);
    assert k * step == eights * 96;
  }

  /** A dense rule has a day on offer in every ten years from the year 10000 to 99999. */
  lemma DenseDecade(s: Series, from: Date, q: nat) returns (i: nat, d: Date)
    requires ValidSeries(s) && Plain(from) && Dense(s) && 1000 <= q <= 9999
    ensures Cand(s, from, i) == Offered(Some(d)) && 10 * q <= d.year <= 10 * q + 9
    ensures Leading(d.year) == q
  {
    hide ToDay, Cand, DayFromYear, Valid, Leading;
    MeanYears(10 * q + 10);
    YearsAscend(10000, 10 * q);
    YearsAscend(10 * q, 10 * q + 10);
    if EveryMonths(s.rule) {
      i, d := MonthWithin(s, from, q);
      LeadingTen(d.year);
    } else if EveryDays(s.rule) {
      i, d := DayWithin(s, from, DayFromYear(10 * q), DayFromYear(10 * q + 10));
      DecadeYear(d, q);
    } else {
      i, d := WeekdayWithin(s, from, DayFromYear(10 * q));
      DecadeYear(d, q);
    }
  }

  /** One of three days running is a weekday. */
  lemma NextOnWeek(s: Series, k: nat) returns (m: nat)
    requires ValidSeries(s)
    ensures k <= m <= k + 2 && 1 <= Weekday(AddDays(s.anchor, m)) <= 5
  {
    hide ToDay, AddDays, Valid;
    AddDaysAction(s.anchor, 0, k);
    AddDaysAction(s.anchor, 0, k + 1);
    AddDaysAction(s.anchor, 0, k + 2);
    m := if 1 <= Weekday(AddDays(s.anchor, k)) <= 5 then k
         else if 1 <= Weekday(AddDays(s.anchor, k + 1)) <= 5 then k + 1 else k + 2;
  }

  lemma DecadeYear(d: Date, q: nat)
    requires Valid(d) && 1000 <= q <= 9999 && DayFromYear(10 * q) <= ToDay(d) < DayFromYear(10 * q + 10)
    ensures 10 * q <= d.year <= 10 * q + 9 && Leading(d.year) == q
  {
    hide ToDay, DayFromYear, Valid;
    DayBounds(d);
    if d.year < 10 * q { YearsAscend(d.year + 1, 10 * q); }
    if d.year > 10 * q + 9 { YearsAscend(10 * q + 10, d.year); }
  }

  /** The fast-forward stays within the window, so short of any later day. */
  lemma StartBefore(s: Series, from: Date, k: nat, lo: int)
    requires ValidSeries(s) && Plain(from) && !EveryMonths(s.rule) && lo >= DayFromYear(10000)
    requires ToDay(s.anchor) + k * (if s.rule.freq.Weekdays? then 1 else Step(s.rule)) >= lo
    ensures Start(s, from) <= k
  {
    hide ToDay, DayFromYear, MonthLength, Ceil;
    NearDay(from);
    if EveryDays(s.rule) {
      var a, step := ToDay(from) - ToDay(s.anchor), Step(s.rule);
      CeilBounds(a, step);
      NthOfZero(Ceil(a, step), step);
      if k < Ceil(a, step) {
        if k < Ceil(a, step) - 1 { NthAscends(0, k, Ceil(a, step) - 1, step); }
        NthOfZero(k, step);
      }
    }
  }

  lemma StepsAscend(m: nat, n: nat, step: int)
    requires m <= n && step >= 0
    ensures m * step <= n * step
  {
  }

  /** The candidates go forward, past Date's range for good. */
  lemma CandidatesForward(s: Series, m: nat, n: nat)
    requires ValidSeries(s) && m <= n
    requires !CandidateAt(s.rule, s.anchor, m).Missing? && !CandidateAt(s.rule, s.anchor, n).Missing?
    requires CandidateAt(s.rule, s.anchor, n).day.Some?
    ensures var c, d := CandidateAt(s.rule, s.anchor, m), CandidateAt(s.rule, s.anchor, n);
            c.day.Some? && c.day.value.year <= d.day.value.year
  {
    hide ToDay, CandidateAt, Valid, MonthIndex, Step;
    var step := if s.rule.freq.Weekdays? then 1 else Step(s.rule);
    StepPositive(s.rule);
    StepsAscend(m, n, step);
    if EveryMonths(s.rule) {
      YearOfCandidate(s, m);
      YearOfCandidate(s, n);
    } else {
      DayOfCandidate(s, m, step);
      DayOfCandidate(s, n, step);
      YearsInOrder(CandidateAt(s.rule, s.anchor, m).day.value, CandidateAt(s.rule, s.anchor, n).day.value);
    }
  }

  lemma StepPositive(r: Rule)
    requires ValidRule(r)
    ensures Step(r) > 0
  {
  }

  lemma Forward(s: Series, from: Date, i: nat, j: nat)
    requires ValidSeries(s) && Plain(from) && i <= j && !Cand(s, from, i).Missing? && !Cand(s, from, j).Missing?
    requires Cand(s, from, j).day.Some?
    ensures Cand(s, from, i).day.Some? && Cand(s, from, i).day.value.year <= Cand(s, from, j).day.value.year
  {
    hide CandidateAt, Start;
    CandidatesForward(s, Start(s, from) + i, Start(s, from) + j);
  }

  lemma YearOfCandidate(s: Series, k: nat)
    requires ValidSeries(s) && EveryMonths(s.rule)
    ensures var c := CandidateAt(s.rule, s.anchor, k);
            !c.Missing? ==> c.day.Some? && c.day.value.year == (MonthIndex(s.anchor) + k * Step(s.rule)) / 12
  {
    hide CandidateAt, MonthIndex, DaysInMonth, MakeDay;
    MonthAt(s, k);
  }

  lemma DayOfCandidate(s: Series, k: nat, step: int)
    requires ValidSeries(s) && !EveryMonths(s.rule) && step == if EveryDays(s.rule) then Step(s.rule) else 1
    ensures var c := CandidateAt(s.rule, s.anchor, k);
            !c.Missing? && (if ToDay(s.anchor) + k * step > LAST_DAY then c.day.None?
                            else c.day.Some? && Valid(c.day.value) && ToDay(c.day.value) == ToDay(s.anchor) + k * step)
  {
    hide ToDay, CandidateAt, Valid, AddDays, Weekday, FromDay;
    if EveryDays(s.rule) { DayAt(s, k); } else { WeekdayAt(s, k); }
    AddDaysAction(s.anchor, 0, k * step);
  }

  lemma YearsInOrder(a: Date, b: Date)
    requires Valid(a) && Valid(b) && ToDay(a) <= ToDay(b)
    ensures a.year <= b.year
  {
    hide ToDay, Valid;
    ToDayOrder(b, a);
  }

  /** A window that ends in the year it begins in, or by the year 1000, lists nothing far before its end. */
  lemma NarrowInTime(s: Series, from: Date, to: Date)
    requires ValidWindow(s, from, to) && Dense(s) && EndYear(s, to) <= Max(1000, from.year)
    ensures HaltsInTime(s, from, to)
  {
    hide Cand, Halts, Lists, Leading;
    EndYearBound(s, from, to);
    var i, d := DenseDecade(s, from, 9999);
    FarTurn(s, from, to, d);
    var h := FirstHalt(s, from, to, i + 1);
    forall j: nat | j < h ensures Near(Cand(s, from, j)) || !Lists(s, from, Cand(s, from, j)) {
      var c := Cand(s, from, j);
      NotListedUnlessOffered(s, from, c);
      if !Near(c) && c.Offered? {
        Forward(s, from, j, i);
        FarTurn(s, from, to, c.day.value);
      }
    }
    assert HaltsAt(s, from, to, h);
  }

  lemma NotListedUnlessOffered(s: Series, from: Date, c: Candidate)
    requires Plain(from) && CanPrint(c)
    ensures Lists(s, from, c) ==> c.Offered?
  {
  }

  /** The last weekend of the year 9999 is followed by weekdays of that year. */
  lemma WeekendClosed(s: Series, from: Date, to: Date, j: nat) returns (c: Date)
    requires ValidWindow(s, from, to) && Cand(s, from, j).Weekend? && Near(Cand(s, from, j)) &&
               Halts(s, to, Cand(s, from, j))
    ensures Occurs(s.rule, s.anchor, c) && Closes(s, from, to, c)
  {
    hide CandidateAt, Start, ToDay, FromDay, StringLess, FormatIso, MonthLength, AddDays, Occurs;
    var d, k := Cand(s, from, j).day.value, Start(s, from) + j;
    CandidateInPlace(s, k, d);
    NearOrder(to, d);
    OnlyWeekdays(s, k);
    var n := ToDay(d);
    OccursNotBefore(s, k, d);
    LastWeekday(d);
    var m := if Weekday(d) == 6 then n + 2 else n + 1;
    c := FromDay(m);
    FromDayValid(m);
    ToDayOrder(d, c);
    NearYear(c);
    ToDayOrder(s.anchor, d);
    WeekdayPeriods(s.rule, s.anchor, m);
  }

  lemma OnlyWeekdays(s: Series, k: nat)
    requires ValidSeries(s) && CandidateAt(s.rule, s.anchor, k).Weekend?
    ensures s.rule.freq.Weekdays?
  {
  }

  lemma LastWeekday(d: Date)
    requires Plain(d) && !(1 <= Weekday(d) <= 5)
    ensures Weekday(d) == 6 ==> ToDay(d) + 2 < DayFromYear(10000)
    ensures Weekday(d) == 0 ==> ToDay(d) + 1 < DayFromYear(10000)
    ensures Weekday(d) in {0, 6}
  {
    hide ToDay, Valid;
    NearDay(d);
  }

  lemma NearYear(d: Date)
    requires Valid(d) && ToDay(d) < DayFromYear(10000)
    ensures d.year <= 9999
  {
    hide ToDay, DayFromYear, Valid;
    if d.year >= 10000 { FarDay(d); }
  }

  lemma OccursNotBefore(s: Series, k: nat, d: Date)
    requires ValidSeries(s) && s.rule.freq.Weekdays? && CandidateAt(s.rule, s.anchor, k) == Weekend(Some(d))
    ensures ToDay(s.anchor) <= ToDay(d) && !(1 <= Weekday(d) <= 5)
  {
    hide ToDay, AddDays, Valid, CandidateAt, Weekday;
    WeekdayAt(s, k);
    AddDaysAction(s.anchor, 0, k);
  }

  /** No exclusion names a day past the year 9999, as none read from metadata does. */
  predicate NearExclusions(s: Series) {
    forall d :: d in s.exdates ==> d.year <= 9999
  }

  /** If a far day is listed first, the loop does not halt in time. */
  lemma WideTooLate(s: Series, from: Date, to: Date)
    requires ValidWindow(s, from, to) && Dense(s) && NearExclusions(s) && HaltsInTime(s, from, to)
    requires Max(1000, from.year) < EndYear(s, to)
    ensures exists c :: Occurs(s.rule, s.anchor, c) && Closes(s, from, to, c)
  {
    hide Cand, Halts, Lists, Leading, Occurs, Closes;
    EndYearBound(s, from, to);
    var q := Max(1000, from.year);
    var i, d := DenseDecade(s, from, q);
    FarTurn(s, from, to, d);
    var h: nat :| HaltsAt(s, from, to, h);
    assert h <= i;
    var c := Cand(s, from, h);
    if Near(c) {
      var x := NearHaltCloses(s, from, to, h);
    } else {
      Forward(s, from, h, i);
      FarNotYet(s, from, to, c, d);
    }
  }

  /** A near candidate that ends the loop shows a day of the series past window or bound. */
  lemma NearHaltCloses(s: Series, from: Date, to: Date, h: nat) returns (c: Date)
    requires ValidWindow(s, from, to) && Near(Cand(s, from, h)) && Halts(s, to, Cand(s, from, h))
    requires from.year < EndYear(s, to)
    ensures Occurs(s.rule, s.anchor, c) && Closes(s, from, to, c)
  {
    hide CandidateAt, Start, StringLess, FormatIso, MonthLength, Occurs;
    var x := Cand(s, from, h);
    if x.Offered? {
      c := x.day.value;
      CandidateInPlace(s, Start(s, from) + h, c);
      NearOrder(to, c);
      if s.until.Some? { NearOrder(s.until.value, c); }
    } else {
      c := WeekendClosed(s, from, to, h);
    }
  }

  /** Up to the decade that begins with the window's first year no far candidate ends the loop. */
  lemma FarNotYet(s: Series, from: Date, to: Date, c: Candidate, d: Date)
    requires ValidWindow(s, from, to) && !c.Missing? && c.day.Some? && !Near(c) && CanPrint(c)
    requires c.day.value.year <= d.year <= 99999 && d.year / 10 < EndYear(s, to)
    ensures !Halts(s, to, c)
  {
    hide Halts, Leading;
    LeadingTen(c.day.value.year);
    FarTurn(s, from, to, c.day.value);
    EndYearBound(s, from, to);
  }

  /**
   For a dense rule the expansion is the window exactly when the window fills the cap, or
   the series has a day past window or bound in a year of four digits, or window and bound
   end no later than the year the window begins in or the year 1000.
   */
  lemma DenseExact(s: Series, from: Date, to: Date, cap: int, r: Expansion)
    requires ValidWindow(s, from, to) && cap >= 1 && Outcome(s, from, to, cap, r) && Dense(s) && NearExclusions(s)
    ensures r == Listed(Somes(Take(WindowOf(s, from, to), cap))) <==>
            || |WindowOf(s, from, to)| >= cap
            || (exists c :: Occurs(s.rule, s.anchor, c) && Closes(s, from, to, c))
            || EndYear(s, to) <= Max(1000, from.year)
  {
    hide ValidWindow, Outcome, WindowOf, Take, HaltsInTime, Occurs, Closes, Dense;
    ExpansionExact(s, from, to, cap, r);
    if c :| Occurs(s.rule, s.anchor, c) && Closes(s, from, to, c) { ClosedInTime(s, from, to, c); }
    if EndYear(s, to) <= Max(1000, from.year) {
      NarrowInTime(s, from, to);
    } else if HaltsInTime(s, from, to) {
      WideTooLate(s, from, to);
    }
  }

  /** A dense rule always comes to an end. */
  lemma DenseReturns(s: Series, from: Date, to: Date, cap: int, r: Expansion)
    requires ValidWindow(s, from, to) && cap >= 1 && Outcome(s, from, to, cap, r) && Dense(s)
    ensures r.Listed?
  {
    hide Cand, Halts, Lists, Leading;
    EndYearBound(s, from, to);
    var i, d := DenseDecade(s, from, 9999);
    FarTurn(s, from, to, d);
    assert Final(s, from, to, cap, i + 1);
    OutcomeIs(s, from, to, cap, i + 1, r);
  }
}
