/**
 When the expansion is the plain enumeration of the window, and when it is not: texts of
 years with five digits or more sort among the years of four.
 */
module RecurrenceRange {
  import opened Calendar
  import opened IsoDates
  import opened Recurrence
  import opened RecurrenceLoops
  import opened RecurrenceWalk
  import opened Text
  import opened Wrappers

  // ----- the days a candidate answers for -----

  /** The first day of the month with the given index. */
  function FirstOfMonth(index: int): int {
    ToDay(Date(index / 12, index % 12 + 1, 1))
  }

  /** The k-th candidate answers for the days from here up to the next candidate's. */
  function Position(s: Series, k: int): int {
    match s.rule.freq
    case Daily | Weekly => Nth(ToDay(s.anchor), k, Step(s.rule))
    case Weekdays => ToDay(s.anchor) + k
    case Monthly | Yearly => FirstOfMonth(Nth(MonthIndex(s.anchor), k, Step(s.rule)))
  }

  lemma FirstOfMonthOrder(index: int, d: Date)
    requires Valid(d)
    ensures ToDay(d) < FirstOfMonth(index) <==> MonthIndex(d) < index
  {
    hide Valid, ToDay, DaysInMonth;
    var first := Date(index / 12, index % 12 + 1, 1);
    FirstValid(index);
    ToDayOrder(d, first);
    DayPositive(d);
    assert MonthIndex(first) == index;
  }

  lemma DayPositive(d: Date)
    requires Valid(d)
    ensures d.day >= 1 && 1 <= d.month <= 12
  {
  }

  lemma FirstValid(index: int)
    ensures Valid(Date(index / 12, index % 12 + 1, 1))
  {
  }

  lemma FirstOfMonthAscends(i: int, j: int)
    requires i < j
    ensures FirstOfMonth(i) < FirstOfMonth(j)
  {
    hide Valid, ToDay, DaysInMonth;
    FirstValid(i);
    FirstOfMonthOrder(j, Date(i / 12, i % 12 + 1, 1));
  }

  lemma PositionAscends(s: Series, k: int)
    requires ValidRule(s.rule)
    ensures Position(s, k) < Position(s, k + 1)
  {
    hide FirstOfMonth, ToDay, MonthIndex;
    if EveryMonths(s.rule) {
      NthAscends(MonthIndex(s.anchor), k, k + 1, Step(s.rule));
      FirstOfMonthAscends(Nth(MonthIndex(s.anchor), k, Step(s.rule)), Nth(MonthIndex(s.anchor), k + 1, Step(s.rule)));
    }
  }

  lemma {:induction false} PositionsAscend(s: Series, j: int, k: int)
    requires ValidRule(s.rule) && j <= k
    ensures Position(s, j) <= Position(s, k)
    decreases k - j
  {
    hide Position;
    if j < k {
      PositionsAscend(s, j, k - 1);
      PositionAscends(s, k - 1);
    }
  }

  lemma NthSteps(base: int, k: int, step: int)
    ensures Nth(base, 0, step) == base
    ensures Nth(base, k + 1, step) == Nth(base, k, step) + step
    ensures Nth(base, k, step) == base + k * step
  {
  }

  /** A number of multiples that lies from one multiple up to the next is that multiple. */
  lemma OnlyMultiple(base: int, j: int, k: int, step: int)
    requires step > 0 && Nth(base, k, step) <= Nth(base, j, step) < Nth(base, k + 1, step)
    ensures j == k
  {
    if j < k { NthAscends(base, j, k, step); }
    if k + 1 < j { NthAscends(base, k + 1, j, step); }
  }

  lemma ShiftReads(anchor: Date, n: int, d: Date)
    requires Valid(anchor) && Valid(d) && d.day == anchor.day && MonthIndex(d) == MonthIndex(anchor) + n
    ensures ShiftMonths(anchor, n) == Some(d) && Shifted(anchor, n) == Some(d)
  {
    hide DaysInMonth, MakeDay;
    MonthIndexRead(d);
  }

  /** The anchor's day exists again every 4800 periods, so a run of skipped periods is shorter than that. */
  lemma RealDateRecurs(anchor: Date, step: int, j: nat)
    requires Valid(anchor)
    ensures var d := Date(anchor.year + 400 * (j * step), anchor.month, anchor.day);
            Valid(d) && ShiftMonths(anchor, (4800 * j) * step) == Some(d) &&
            Shifted(anchor, (4800 * j) * step) == Some(d)
  {
    hide DaysInMonth;
    var d := Date(anchor.year + 400 * (j * step), anchor.month, anchor.day);
    FourCenturies(anchor.year, anchor.month, j * step);
    assert (4800 * j) * step == 12 * (400 * (j * step));
    ShiftReads(anchor, (4800 * j) * step, d);
  }

  /** Of the days a candidate answers for, only the candidate itself can occur. */
  lemma OnlyCandidate(s: Series, k: nat, n: int)
    requires ValidSeries(s) && Position(s, k) <= n < Position(s, k + 1) && n <= LAST_DAY
    requires Occurs(s.rule, s.anchor, FromDay(n))
    ensures CandidateAt(s.rule, s.anchor, k) == Offered(Some(FromDay(n)))
  {
    hide FromDay, ToDay, Valid, Occurs, Nth, FirstOfMonth, MonthIndex, CandidateAt, AddDays, Weekday, DaysInMonth;
    var d, step := FromDay(n), Step(s.rule);
    FromDayValid(n);
    match s.rule.freq
    case Daily | Weekly =>
      DayPeriods(s.rule, s.anchor, n);
      var j: nat :| n == Nth(ToDay(s.anchor), j, step);
      OnlyMultiple(ToDay(s.anchor), j, k, step);
      NthSteps(ToDay(s.anchor), k, step);
      DayAt(s, k);
      AddDaysReaches(s.anchor, d);
    case Weekdays =>
      WeekdayPeriods(s.rule, s.anchor, n);
      WeekdayAt(s, k);
      AddDaysReaches(s.anchor, d);
    case Monthly | Yearly =>
      MonthPeriods(s.rule, s.anchor, d);
      var j: nat :| MonthIndex(d) == Nth(MonthIndex(s.anchor), j, step);
      FirstOfMonthOrder(Nth(MonthIndex(s.anchor), k, step), d);
      FirstOfMonthOrder(Nth(MonthIndex(s.anchor), k + 1, step), d);
      OnlyMultiple(MonthIndex(s.anchor), j, k, step);
      NthSteps(MonthIndex(s.anchor), k, step);
      ShiftReads(s.anchor, k * step, d);
      MonthAt(s, k);
  }

  /** A candidate of four year digits is a real day among those it answers for, and on offer only if it occurs. */
  lemma CandidateInPlace(s: Series, k: nat, d: Date)
    requires ValidSeries(s) && d.year <= 9999
    requires CandidateAt(s.rule, s.anchor, k) in {Offered(Some(d)), Weekend(Some(d))}
    ensures Plain(d) && Position(s, k) <= ToDay(d) < Position(s, k + 1)
    ensures CandidateAt(s.rule, s.anchor, k).Offered? ==> Occurs(s.rule, s.anchor, d)
    ensures CandidateAt(s.rule, s.anchor, k).Weekend? ==> !Occurs(s.rule, s.anchor, d)
  {
    hide FromDay, ToDay, Nth, FirstOfMonth, CandidateAt, AddDays, Weekday, Shifted, MonthLength;
    var step := Step(s.rule);
    var c := CandidateAt(s.rule, s.anchor, k);
    assert CanPrint(c);
    match s.rule.freq
    case Daily | Weekly =>
      DayAt(s, k);
      assert k * step >= 0;
      AddDaysAction(s.anchor, 0, k * step);
      NthSteps(ToDay(s.anchor), k, step);
      assert Occurrence(s.rule, s.anchor, k) == Some(d);
    case Weekdays =>
      WeekdayAt(s, k);
      AddDaysAction(s.anchor, 0, k);
      WeekdayPeriods(s.rule, s.anchor, ToDay(d));
      ToDayInverse(d);
    case Monthly | Yearly =>
      MonthAt(s, k);
      MonthInPlace(s, k, d);
  }

  lemma MonthInPlace(s: Series, k: nat, d: Date)
    requires ValidSeries(s) && EveryMonths(s.rule) && d.year <= 9999 && Shifted(s.anchor, k * Step(s.rule)) == Some(d)
    ensures Valid(d) && Position(s, k) <= ToDay(d) < Position(s, k + 1) && Occurs(s.rule, s.anchor, d)
  {
    hide FromDay, ToDay, Nth, FirstOfMonth, DaysInMonth, DayFromYear, IsLeap;
    var step, base := Step(s.rule), MonthIndex(s.anchor);
    var index := base + k * step;
    MeanYears(index / 12);
    MeanYears(index / 12 + 1);
    assert ShiftMonths(s.anchor, k * step) == Some(d);
    assert Occurrence(s.rule, s.anchor, k) == Some(d);
    NthSteps(base, k, step);
    FirstOfMonthOrder(Nth(base, k, step), d);
    FirstOfMonthOrder(Nth(base, k + 1, step), d);
  }

  /** The positions of far candidates lie past every day of four year digits. */
  lemma FarPosition(s: Series, k: nat)
    requires ValidSeries(s)
    requires var c := CandidateAt(s.rule, s.anchor, k); !c.Missing? && Far(c.day)
    ensures Position(s, k) >= DayFromYear(10000)
  {
    hide FromDay, ToDay, Nth, FirstOfMonth, CandidateAt, AddDays, Weekday, Shifted, DayFromYear, IsLeap,
         DaysBeforeMonth, Valid;
    var step, c := Step(s.rule), CandidateAt(s.rule, s.anchor, k);
    MeanYears(10000);
    match s.rule.freq
    case Daily | Weekly =>
      DayAt(s, k);
      NthSteps(ToDay(s.anchor), k, step);
      AddDaysAction(s.anchor, 0, k * step);
      if c.day.Some? { FarDay(c.day.value); }
    case Weekdays =>
      WeekdayAt(s, k);
      AddDaysAction(s.anchor, 0, k);
      if c.day.Some? { FarDay(c.day.value); }
    case Monthly | Yearly =>
      MonthAt(s, k);
      NthSteps(MonthIndex(s.anchor), k, step);
      FarMonthPosition(s.anchor, k * step);
  }

  lemma FarDay(d: Date)
    requires Valid(d) && d.year >= 10000
    ensures ToDay(d) >= DayFromYear(10000)
  {
    hide ToDay, DayFromYear;
    DayBounds(d);
    YearsAscend(10000, d.year);
  }

  lemma FarMonthPosition(anchor: Date, n: int)
    requires Valid(anchor) && Shifted(anchor, n).Some? && Shifted(anchor, n).value.year >= 10000
    ensures FirstOfMonth(MonthIndex(anchor) + n) >= DayFromYear(10000)
  {
    hide ToDay, DaysInMonth, MakeDay, DayFromYear;
    var index := MonthIndex(anchor) + n;
    FirstValid(index);
    FarDay(Date(index / 12, index % 12 + 1, 1));
  }

  lemma NearDay(d: Date)
    requires Plain(d)
    ensures ToDay(d) < DayFromYear(10000) <= LAST_DAY
  {
    hide ToDay, Valid;
    DayBounds(d);
    YearsAscend(d.year + 1, 10000);
  }

  // ----- the fast-forward -----

  /** Nothing of the window lies before the days of the first candidate. */
  lemma FastForward(s: Series, from: Date, n: int)
    requires ValidSeries(s) && Plain(from) && ToDay(from) <= n < Position(s, Start(s, from))
    ensures !Occurs(s.rule, s.anchor, FromDay(n))
  {
    hide FromDay, ToDay, Occurs, Nth, FirstOfMonth, Ceil, MonthIndex, Valid;
    if Occurs(s.rule, s.anchor, FromDay(n)) {
      var step := Step(s.rule);
      OccursAfterAnchor(s.rule, s.anchor, n);
      ToDayOrder(s.anchor, from);
      match s.rule.freq
      case Daily | Weekly =>
        DayPeriods(s.rule, s.anchor, n);
        var j: nat :| n == Nth(ToDay(s.anchor), j, step);
        NthSteps(ToDay(s.anchor), 0, step);
        if Less(s.anchor, from) { BeforeCeil(ToDay(s.anchor), ToDay(from), j, step); }
      case Weekdays =>
      case Monthly | Yearly => MonthFastForward(s, from, n);
    }
  }

  /** Multiples below the rounded-up one do not reach the goal. */
  lemma BeforeCeil(base: int, goal: int, j: int, step: int)
    requires step > 0 && Nth(base, j, step) < Nth(base, Ceil(goal - base, step), step)
    ensures Nth(base, j, step) < goal
  {
    hide Ceil;
    var k := Ceil(goal - base, step);
    CeilBounds(goal - base, step);
    if j >= k {
      if j > k { NthAscends(base, k, j, step); }
    } else {
      if j < k - 1 { NthAscends(base, j, k - 1, step); }
      NthSteps(base, k - 1, step);
      NthSteps(0, k - 1, step);
    }
  }

  lemma MonthFastForward(s: Series, from: Date, n: int)
    requires ValidSeries(s) && Plain(from) && EveryMonths(s.rule) && ToDay(from) <= n < Position(s, Start(s, from))
    requires ToDay(s.anchor) <= n
    ensures !Occurs(s.rule, s.anchor, FromDay(n))
  {
    hide FromDay, ToDay, Occurs, Nth, FirstOfMonth, Ceil, MonthLength;
    var base, step, d := MonthIndex(s.anchor), Step(s.rule), FromDay(n);
    if Occurs(s.rule, s.anchor, d) {
      FromDayValid(n);
      MonthPeriods(s.rule, s.anchor, d);
      var j: nat :| MonthIndex(d) == Nth(base, j, step);
      var k := Start(s, from);
      FirstOfMonthOrder(Nth(base, k, step), d);
      NthSteps(base, 0, step);
      ToDayOrder(d, from);
      ToDayOrder(d, s.anchor);
      if k == 0 {
        NthSteps(base, j, step);
      } else {
        BeforeCeil(base, MonthIndex(from), j, step);
        MonthOrder(d, from);
      }
    }
  }

  // ----- walking the window -----

  function Somes(days: seq<Date>): seq<Option<Date>> {
    seq(|days|, i requires 0 <= i < |days| => Some(days[i]))
  }

  lemma SomesAdd(days: seq<Date>, d: Date)
    ensures Somes(days + [d]) == Somes(days) + [Some(d)]
  {
  }

  /** The kept days before p are dealt with; the rest of the window is still to come. */
  ghost predicate Pending(s: Series, f: int, t: int, days: seq<Date>, p: int) {
    Window(s, f, t) == days + Window(s, Max(f, p), t)
  }

  lemma SkipDays(s: Series, f: int, t: int, days: seq<Date>, p: int, q: int)
    requires Pending(s, f, t, days, p) && p <= q
    requires forall n :: f <= n <= t && p <= n < q ==> !Kept(s, n)
    ensures Pending(s, f, t, days, q)
  {
    hide Kept, Window;
    var lo, hi := Max(f, p), Max(f, q);
    if lo < hi <= t {
      WindowSplit(s, lo, hi - 1, t);
      WindowEmpty(s, lo, hi - 1);
      assert Window(s, lo, t) == Window(s, hi, t);
    } else if lo < hi {
      WindowEmpty(s, lo, t);
      WindowEmpty(s, hi, t);
    }
  }

  lemma AllDone(s: Series, f: int, t: int, days: seq<Date>, p: int)
    requires Pending(s, f, t, days, p) && forall n :: f <= n <= t && p <= n ==> !Kept(s, n)
    ensures Window(s, f, t) == days
  {
    hide Kept, Window;
    WindowEmpty(s, Max(f, p), t);
  }

  /** One day dealt with: it joins the kept ones if it is kept. */
  lemma OneDay(s: Series, f: int, t: int, days: seq<Date>, n: int)
    requires Pending(s, f, t, days, n)
    ensures Pending(s, f, t, if f <= n <= t && Kept(s, n) then days + [FromDay(n)] else days, n + 1)
  {
    hide Kept, FromDay, Window;
    if f <= n <= t {
      WindowFirst(s, n, t);
    } else if t < n {
      WindowEmpty(s, Max(f, n), t);
      WindowEmpty(s, Max(f, n + 1), t);
    }
  }

  lemma WindowFirst(s: Series, n: int, t: int)
    requires n <= t
    ensures Window(s, n, t) == (if Kept(s, n) then [FromDay(n)] else []) + Window(s, n + 1, t)
  {
    hide Kept, FromDay;
  }

  predicate Near(c: Candidate) {
    c.Missing? || !Far(c.day)
  }

  ghost predicate KeptOf(s: Series, from: Date, to: Date, days: seq<Date>, j: nat)
    requires ValidWindow(s, from, to)
  {
    Pending(s, ToDay(from), ToDay(to), days, Position(s, Start(s, from) + j))
  }

  /** The days answered for by one candidate: nothing but the candidate is kept among them. */
  lemma OnlyKept(s: Series, from: Date, to: Date, j: nat, n: int)
    requires ValidWindow(s, from, to) && ToDay(from) <= n <= ToDay(to) && Kept(s, n)
    requires var k := Start(s, from) + j; Position(s, k) <= n < Position(s, k + 1)
    ensures Cand(s, from, j) == Offered(Some(FromDay(n)))
  {
    hide FromDay, ToDay, Occurs, Start, Position, CandidateAt, Valid;
    NearDay(to);
    OnlyCandidate(s, Start(s, from) + j, n);
  }

  /** A candidate of four year digits is listed exactly when it is a kept day of the window. */
  lemma ListsKept(s: Series, from: Date, to: Date, j: nat, d: Date)
    requires ValidWindow(s, from, to) && Cand(s, from, j) == Offered(Some(d)) && d.year <= 9999
    ensures Plain(d) && FromDay(ToDay(d)) == d
    ensures !Halts(s, to, Cand(s, from, j)) ==> ToDay(d) <= ToDay(to)
    ensures !Halts(s, to, Cand(s, from, j)) ==>
              (Lists(s, from, Cand(s, from, j)) <==> ToDay(from) <= ToDay(d) && Kept(s, ToDay(d)))
    ensures Halts(s, to, Cand(s, from, j)) ==> forall n :: ToDay(d) <= n <= ToDay(to) ==> !Kept(s, n)
  {
    hide FromDay, ToDay, Occurs, Start, Position, CandidateAt, MonthLength, Less, StringLess, FormatIso;
    CandidateInPlace(s, Start(s, from) + j, d);
    ToDayInverse(d);
    NearOrder(to, d);
    NearOrder(from, d);
    ToDayOrder(to, d);
    ToDayOrder(d, from);
    if s.until.Some? { NearOrder(s.until.value, d); }
    forall n | ToDay(d) <= n <= ToDay(to) && Halts(s, to, Cand(s, from, j)) ensures !Kept(s, n) {
      FromDayValid(n);
      if s.until.Some? {
        ToDayOrder(s.until.value, d);
        ToDayOrder(s.until.value, FromDay(n));
      }
    }
  }

  /** A near candidate that does not end the loop deals with the days it answers for. */
  lemma NearTurn(s: Series, from: Date, to: Date, days: seq<Date>, j: nat)
    requires ValidWindow(s, from, to) && Near(Cand(s, from, j)) && !Halts(s, to, Cand(s, from, j))
    requires KeptOf(s, from, to, days, j)
    ensures var c := Cand(s, from, j);
            KeptOf(s, from, to, if Lists(s, from, c) then days + [c.day.value] else days, j + 1)
  {
    hide FromDay, ToDay, Occurs, Start, Position, CandidateAt, Valid, Less, Window, Kept, Halts, Lists, Pending;
    var k, c, f, t := Start(s, from) + j, Cand(s, from, j), ToDay(from), ToDay(to);
    PositionAscends(s, k);
    forall n | f <= n <= t && Position(s, k) <= n < Position(s, k + 1) && Kept(s, n)
      ensures c == Offered(Some(FromDay(n)))
    {
      OnlyKept(s, from, to, j, n);
    }
    if c.Offered? {
      var d := c.day.value;
      ListsKept(s, from, to, j, d);
      CandidateInPlace(s, k, d);
      var n := ToDay(d);
      NotThere(s, f, t, c, n, Position(s, k), Position(s, k + 1));
      SkipDays(s, f, t, days, Position(s, k), n);
      OneDay(s, f, t, days, n);
      SkipDays(s, f, t, if f <= n <= t && Kept(s, n) then days + [d] else days, n + 1, Position(s, k + 1));
    } else {
      NotListed(s, from, c);
      SkipDays(s, f, t, days, Position(s, k), Position(s, k + 1));
    }
  }

  lemma NotListed(s: Series, from: Date, c: Candidate)
    requires Plain(from) && CanPrint(c) && !c.Offered?
    ensures !Lists(s, from, c)
  {
  }

  lemma NotThere(s: Series, f: int, t: int, c: Candidate, m: int, p: int, q: int)
    requires c.Offered? && c.day.Some? && ToDay(c.day.value) == m
    requires forall n :: f <= n <= t && p <= n < q && Kept(s, n) ==> c == Offered(Some(FromDay(n)))
    ensures forall n :: f <= n <= t && p <= n < q && n != m ==> !Kept(s, n)
  {
    hide FromDay, ToDay, Kept;
    forall n | f <= n <= t && p <= n < q && n != m ensures !Kept(s, n) { FromDayValid(n); }
  }

  /** A near candidate that ends the loop leaves nothing of the window. */
  lemma NearHalt(s: Series, from: Date, to: Date, days: seq<Date>, j: nat)
    requires ValidWindow(s, from, to) && Near(Cand(s, from, j)) && Halts(s, to, Cand(s, from, j))
    requires KeptOf(s, from, to, days, j)
    ensures Window(s, ToDay(from), ToDay(to)) == days
  {
    hide FromDay, ToDay, Occurs, Start, Position, CandidateAt, MonthLength, Less, Window, Kept, Pending, StringLess,
         FormatIso;
    var k, c, f, t := Start(s, from) + j, Cand(s, from, j), ToDay(from), ToDay(to);
    var d := c.day.value;
    CandidateInPlace(s, k, d);
    if c.Offered? {
      ListsKept(s, from, to, j, d);
    } else {
      NearOrder(to, d);
      ToDayOrder(to, d);
    }
    forall n | f <= n <= t && Position(s, k) <= n ensures !Kept(s, n) {
      if Kept(s, n) && n < ToDay(d) {
        OnlyKept(s, from, to, j, n);
        FromDayValid(n);
      }
    }
    AllDone(s, f, t, days, Position(s, k));
  }

  /** A far candidate answers for no day of the window. */
  lemma FarDone(s: Series, from: Date, to: Date, days: seq<Date>, j: nat)
    requires ValidWindow(s, from, to) && !Near(Cand(s, from, j)) && KeptOf(s, from, to, days, j)
    ensures Window(s, ToDay(from), ToDay(to)) == days
  {
    hide FromDay, ToDay, Occurs, Start, Position, CandidateAt, Valid, Less, Window, Kept, Pending;
    FarPosition(s, Start(s, from) + j);
    NearDay(to);
    AllDone(s, ToDay(from), ToDay(to), days, Position(s, Start(s, from) + j));
  }

  lemma KeptStart(s: Series, from: Date, to: Date)
    requires ValidWindow(s, from, to)
    ensures KeptOf(s, from, to, [], 0)
  {
    hide FromDay, ToDay, Occurs, Start, Position, Valid, Less, Window;
    var f, t, p := ToDay(from), ToDay(to), Position(s, Start(s, from));
    assert Pending(s, f, t, [], f);
    forall n | f <= n <= t && n < p ensures !Kept(s, n) { FastForward(s, from, n); }
    if f <= p { SkipDays(s, f, t, [], f, p); }
  }

  /** As long as all candidates are near and none ends the loop, what they list are the kept days so far. */
  lemma {:induction false} NearWalk(s: Series, from: Date, to: Date, j: nat) returns (days: seq<Date>)
    requires ValidWindow(s, from, to) && Runs(s, from, to, j)
    requires forall i: nat :: i < j ==> Near(Cand(s, from, i))
    ensures Walk(s, from, to, j) == Somes(days) && KeptOf(s, from, to, days, j)
  {
    hide ValidWindow, Cand, Halts, Lists, KeptOf;
    WindowParts(s, from, to);
    if j == 0 {
      days := [];
      KeptStart(s, from, to);
    } else {
      days := NearWalk(s, from, to, j - 1);
      NearTurn(s, from, to, days, j - 1);
      var c := Cand(s, from, j - 1);
      if Lists(s, from, c) {
        ListedDay(s, from, c);
        SomesAdd(days, c.day.value);
        days := days + [c.day.value];
      }
    }
  }

  lemma ListedDay(s: Series, from: Date, c: Candidate)
    requires Plain(from) && CanPrint(c) && Near(c) && Lists(s, from, c)
    ensures c.Offered? && c.day.Some?
  {
  }

  /** The first candidate that ends the loop or is far. */
  ghost predicate Turns(s: Series, from: Date, to: Date, j: nat)
    requires ValidWindow(s, from, to)
  {
    Halts(s, to, Cand(s, from, j)) || !Near(Cand(s, from, j))
  }

  ghost predicate TurnsFirst(s: Series, from: Date, to: Date, j: nat)
    requires ValidWindow(s, from, to)
  {
    Turns(s, from, to, j) && forall i: nat :: i < j ==> !Turns(s, from, to, i)
  }

  lemma {:induction false} FirstTurn(s: Series, from: Date, to: Date, m: nat) returns (j: nat)
    requires ValidWindow(s, from, to) && Turns(s, from, to, m)
    ensures TurnsFirst(s, from, to, j) && j <= m
    decreases m
  {
    hide ValidWindow, Turns;
    if i: nat :| i < m && Turns(s, from, to, i) { j := FirstTurn(s, from, to, i); } else { j := m; }
  }

  /** Up to its first turn the loop lists the window, no more and no less. */
  lemma WindowListed(s: Series, from: Date, to: Date, j: nat)
    requires ValidWindow(s, from, to) && TurnsFirst(s, from, to, j)
    ensures Runs(s, from, to, j) && Walk(s, from, to, j) == Somes(Window(s, ToDay(from), ToDay(to)))
  {
    hide ValidWindow, Cand, Halts, Lists, KeptOf, ToDay, Window;
    WindowParts(s, from, to);
    forall i: nat | i < j ensures !Halts(s, to, Cand(s, from, i)) && Near(Cand(s, from, i)) {
      assert !Turns(s, from, to, i);
    }
    var days := NearWalk(s, from, to, j);
    if Near(Cand(s, from, j)) { NearHalt(s, from, to, days, j); } else { FarDone(s, from, to, days, j); }
  }

  // ----- exactly when the expansion is the window -----

  /** Once past the year 9999 the candidates stay there. */
  lemma FarStays(s: Series, from: Date, i: nat, j: nat)
    requires ValidSeries(s) && Plain(from) && i <= j && !Near(Cand(s, from, i))
    ensures Cand(s, from, j).Missing? || !Near(Cand(s, from, j))
  {
    hide Position, CandidateAt, Start, ToDay, Valid;
    var c := Cand(s, from, j);
    FarPosition(s, Start(s, from) + i);
    PositionsAscend(s, Start(s, from) + i, Start(s, from) + j);
    if !c.Missing? && Near(c) {
      CandidateInPlace(s, Start(s, from) + j, c.day.value);
      NearDay(c.day.value);
    }
  }

  /** Some candidate is far. */
  lemma SomeFar(s: Series, from: Date) returns (j: nat)
    requires ValidSeries(s) && Plain(from)
    ensures !Near(Cand(s, from, j))
  {
    hide CandidateAt, Start, Valid;
    var n := 200_000_000 + Start(s, from);
    if EveryMonths(s.rule) { n := 4800 * n; }
    j := n - Start(s, from);
    match s.rule.freq
    case Daily | Weekly => NanAt(s, n);
    case Weekdays => NanAt(s, n);
    case Monthly | Yearly => RealFar(s, n / 4800);
  }

  lemma NanAt(s: Series, n: nat)
    requires ValidSeries(s) && !EveryMonths(s.rule) && n >= 200_000_000
    ensures !CandidateAt(s.rule, s.anchor, n).Missing? && CandidateAt(s.rule, s.anchor, n).day == None
  {
    hide ToDay, CandidateAt, MonthLength, AddDays, Weekday;
    AnchorAfter(s.anchor);
    if EveryDays(s.rule) {
      assert n * Step(s.rule) >= n;
      DayAt(s, n);
    } else {
      WeekdayAt(s, n);
    }
  }

  lemma RealFar(s: Series, n: nat)
    requires ValidSeries(s) && EveryMonths(s.rule) && n >= 10000
    ensures var c := CandidateAt(s.rule, s.anchor, 4800 * n); c.Offered? && c.day.Some? && c.day.value.year >= 10000
  {
    hide CandidateAt, MonthLength, Shifted, ShiftMonths;
    assert n * Step(s.rule) >= n;
    RealDateRecurs(s.anchor, Step(s.rule), n);
    MonthAt(s, 4800 * n);
  }

  lemma AnchorAfter(anchor: Date)
    requires Plain(anchor)
    ensures ToDay(anchor) >= -1_000_000
  {
    hide ToDay, DaysBeforeMonth, IsLeap, Valid;
    DayBounds(anchor);
    MeanYears(anchor.year);
  }

  /**
   A candidate ends the loop before any of those ahead of it that is listed lies past the
   year 9999.
   */
  ghost predicate HaltsInTime(s: Series, from: Date, to: Date)
    requires ValidWindow(s, from, to)
  {
    exists h: nat :: HaltsAt(s, from, to, h)
  }

  ghost predicate HaltsAt(s: Series, from: Date, to: Date, h: nat)
    requires ValidWindow(s, from, to)
  {
    Halts(s, to, Cand(s, from, h)) &&
    forall j: nat :: j < h ==> Near(Cand(s, from, j)) || !Lists(s, from, Cand(s, from, j))
  }

  /** Candidates that list nothing leave the walk as it is. */
  lemma {:induction false} QuietWalk(s: Series, from: Date, to: Date, m: nat, n: nat)
    requires ValidWindow(s, from, to) && m <= n
    requires forall j: nat :: m <= j < n ==> !Lists(s, from, Cand(s, from, j))
    ensures Walk(s, from, to, n) == Walk(s, from, to, m)
    decreases n
  {
    hide ValidWindow, Cand, Halts, Lists, Runs;
    if m < n { QuietWalk(s, from, to, m, n - 1); }
  }

  lemma LoudWalk(s: Series, from: Date, to: Date, j: nat)
    requires ValidWindow(s, from, to) && Runs(s, from, to, j + 1) && Lists(s, from, Cand(s, from, j))
    ensures |Walk(s, from, to, j + 1)| == |Walk(s, from, to, j)| + 1
  {
    hide ValidWindow, Cand, Halts, Lists;
  }

  lemma {:induction false} FirstHalt(s: Series, from: Date, to: Date, n: nat) returns (h: nat)
    requires ValidWindow(s, from, to) && !Runs(s, from, to, n)
    ensures h < n && Runs(s, from, to, h) && Halts(s, to, Cand(s, from, h))
    decreases n
  {
    hide ValidWindow, Cand, Halts;
    if n > 0 && !Runs(s, from, to, n - 1) { h := FirstHalt(s, from, to, n - 1); } else { h := n - 1; }
  }

  lemma OutcomeIs(s: Series, from: Date, to: Date, cap: int, n: nat, r: Expansion)
    requires ValidWindow(s, from, to) && cap >= 1 && Outcome(s, from, to, cap, r) && Final(s, from, to, cap, n)
    ensures r == Listed(Take(Walk(s, from, to, n), cap))
  {
    hide ValidWindow, Final, Walk, Take;
    match r
    case Listed(days) =>
      var m: nat :| Final(s, from, to, cap, m) && days == Take(Walk(s, from, to, m), cap);
      if m <= n { OutcomeUnique(s, from, to, cap, m, n); } else { OutcomeUnique(s, from, to, cap, n, m); }
    case Endless =>
  }

  ghost function WindowOf(s: Series, from: Date, to: Date): seq<Date> {
    Window(s, ToDay(from), ToDay(to))
  }

  lemma TakeSomes(days: seq<Date>, cap: int)
    requires cap >= 0
    ensures Take(Somes(days), cap) == Somes(Take(days, cap)) && |Somes(days)| == |days|
  {
  }

  /** Halting in time gives the window. */
  lemma InTime(s: Series, from: Date, to: Date, cap: int, r: Expansion)
    requires ValidWindow(s, from, to) && cap >= 1 && Outcome(s, from, to, cap, r) && HaltsInTime(s, from, to)
    ensures r == Listed(Somes(Take(WindowOf(s, from, to), cap)))
  {
    hide ValidWindow, Cand, Halts, Lists, Outcome, Window, ToDay, Walk, Take, Turns;
    WindowParts(s, from, to);
    var g: nat :| HaltsAt(s, from, to, g);
    TurnsHalt(s, from, to, g);
    var j := FirstTurn(s, from, to, g);
    WindowListed(s, from, to, j);
    TakeSomes(WindowOf(s, from, to), cap);
    QuietToHalt(s, from, to, j, g);
    assert Final(s, from, to, cap, g + 1);
    OutcomeIs(s, from, to, cap, g + 1, r);
  }

  lemma TurnsHalt(s: Series, from: Date, to: Date, j: nat)
    requires ValidWindow(s, from, to)
    ensures Halts(s, to, Cand(s, from, j)) ==> Turns(s, from, to, j)
    ensures Turns(s, from, to, j) ==> Halts(s, to, Cand(s, from, j)) || !Near(Cand(s, from, j))
  {
    hide Cand, Halts;
  }

  /** From the first turn to the candidate that halts in time nothing is listed. */
  lemma QuietToHalt(s: Series, from: Date, to: Date, j: nat, h: nat)
    requires ValidWindow(s, from, to) && TurnsFirst(s, from, to, j) && j <= h && HaltsAt(s, from, to, h)
    ensures Walk(s, from, to, h + 1) == Walk(s, from, to, j)
  {
    hide Cand, Halts, Lists, Walk, Turns;
    TurnsHalt(s, from, to, j);
    if Halts(s, to, Cand(s, from, j)) {
      WalkGrows(s, from, to, j + 1, h + 1);
      HaltedWalk(s, from, to, j);
    } else {
      forall i: nat | j <= i < h ensures !Lists(s, from, Cand(s, from, i)) {
        FarStays(s, from, j, i);
        MissingUnlisted(s, from, i);
      }
      QuietWalk(s, from, to, j, h);
      HaltedWalk(s, from, to, h);
    }
  }

  lemma MissingUnlisted(s: Series, from: Date, i: nat)
    requires ValidSeries(s) && Plain(from)
    ensures Cand(s, from, i).Missing? ==> !Lists(s, from, Cand(s, from, i))
  {
    hide Cand;
  }

  lemma HaltedWalk(s: Series, from: Date, to: Date, h: nat)
    requires ValidWindow(s, from, to) && Halts(s, to, Cand(s, from, h))
    ensures !Runs(s, from, to, h + 1) && Walk(s, from, to, h + 1) == Walk(s, from, to, h)
  {
    hide ValidWindow, Cand, Halts, Lists;
  }

  /**
   The expansion is the first cap days of the plain enumeration exactly when the window
   fills the cap, or the loop halts before it lists a day past the year 9999.
   */
  lemma ExpansionExact(s: Series, from: Date, to: Date, cap: int, r: Expansion)
    requires ValidWindow(s, from, to) && cap >= 1 && Outcome(s, from, to, cap, r)
    ensures r == Listed(Somes(Take(WindowOf(s, from, to), cap))) <==>
            |WindowOf(s, from, to)| >= cap || HaltsInTime(s, from, to)
  {
    hide ValidWindow, Cand, Halts, Lists, Outcome, Window, ToDay, Walk, Take, Turns, HaltsInTime;
    WindowParts(s, from, to);
    var w := WindowOf(s, from, to);
    TakeSomes(w, cap);
    if |w| >= cap {
      FullWindow(s, from, to, cap, r);
    } else if HaltsInTime(s, from, to) {
      InTime(s, from, to, cap, r);
    } else if r == Listed(Somes(Take(w, cap))) {
      ShortWindow(s, from, to, cap, r);
    }
  }

  lemma SomeTurn(s: Series, from: Date, to: Date) returns (j: nat)
    requires ValidWindow(s, from, to)
    ensures TurnsFirst(s, from, to, j)
  {
    hide Cand, TurnsFirst, Halts;
    var m := SomeFar(s, from);
    j := FirstTurn(s, from, to, m);
  }

  lemma FullWindow(s: Series, from: Date, to: Date, cap: int, r: Expansion)
    requires ValidWindow(s, from, to) && cap >= 1 && Outcome(s, from, to, cap, r) && |WindowOf(s, from, to)| >= cap
    ensures r == Listed(Somes(Take(WindowOf(s, from, to), cap)))
  {
    hide ValidWindow, Cand, Halts, Lists, Outcome, Window, ToDay, Walk, Take, Turns, Runs, TurnsFirst;
    var j := SomeTurn(s, from, to);
    WindowListed(s, from, to, j);
    TakeSomes(WindowOf(s, from, to), cap);
    OutcomeIs(s, from, to, cap, j, r);
  }

  /** A window short of the cap is returned only by a loop that halts in time. */
  lemma ShortWindow(s: Series, from: Date, to: Date, cap: int, r: Expansion)
    requires ValidWindow(s, from, to) && cap >= 1 && Outcome(s, from, to, cap, r) && |WindowOf(s, from, to)| < cap
    requires r == Listed(Somes(Take(WindowOf(s, from, to), cap)))
    ensures HaltsInTime(s, from, to)
  {
    hide ValidWindow, Cand, Halts, Lists, Window, ToDay, Walk, Turns, Runs, TurnsFirst, WindowOf;
    WindowParts(s, from, to);
    var w := WindowOf(s, from, to);
    TakeSomes(w, cap);
    var n: nat :| Final(s, from, to, cap, n) && r.days == Take(Walk(s, from, to, n), cap);
    assert |Walk(s, from, to, n)| == |w|;
    var h := FirstHalt(s, from, to, n);
    var j := SomeTurn(s, from, to);
    WindowIsListed(s, from, to, j);
    forall i: nat | i < h ensures Near(Cand(s, from, i)) || !Lists(s, from, Cand(s, from, i)) {
      if !Near(Cand(s, from, i)) && Lists(s, from, Cand(s, from, i)) {
        TurnNotLater(s, from, to, j, i);
        RunsShorter(s, from, to, h, i + 1);
        LoudWalk(s, from, to, i);
        WalkGrows(s, from, to, j, i);
        WalkGrows(s, from, to, i + 1, n);
      }
    }
    assert HaltsAt(s, from, to, h);
  }

  lemma WindowIsListed(s: Series, from: Date, to: Date, j: nat)
    requires ValidWindow(s, from, to) && TurnsFirst(s, from, to, j)
    ensures Walk(s, from, to, j) == Somes(WindowOf(s, from, to)) && |Walk(s, from, to, j)| == |WindowOf(s, from, to)|
  {
    hide ValidWindow, TurnsFirst, Walk, Window, ToDay;
    WindowListed(s, from, to, j);
  }

  lemma TurnNotLater(s: Series, from: Date, to: Date, j: nat, i: nat)
    requires ValidWindow(s, from, to) && TurnsFirst(s, from, to, j) && !Near(Cand(s, from, i))
    ensures j <= i
  {
    hide Cand, Halts;
    assert Turns(s, from, to, i);
  }

  lemma RunsShorter(s: Series, from: Date, to: Date, m: nat, n: nat)
    requires ValidWindow(s, from, to) && Runs(s, from, to, m) && n <= m
    ensures Runs(s, from, to, n)
  {
    hide Cand, Halts;
  }
}
