/**
 "This and following": cutting a series at one of its occurrences, and expanding
 adjacent windows one after the other.
 */
module RecurrenceSplit {
  import opened Calendar
  import opened Recurrence
  import opened Wrappers

  /** Bounding a series: the last day on which it may still occur. */
  function BoundedAt(s: Series, last: Date): Series {
    s.(until := Some(last))
  }

  /** The same rule, exclusions and bound, counted from another first day. */
  function AnchoredAt(s: Series, first: Date): Series {
    s.(anchor := first)
  }

  /** Counting from an occurrence yields the occurrences of the original count from that day on. */
  lemma ReanchorOccurs(r: Rule, anchor: Date, d: Date, n: int)
    requires ValidRule(r) && Valid(anchor) && Valid(d) && Occurs(r, anchor, d)
    ensures Occurs(r, d, FromDay(n)) <==> Occurs(r, anchor, FromDay(n)) && ToDay(d) <= n
  {
    hide FromDay, ToDay, Valid, Occurs, Nth, Less;
    ToDayInverse(d);
    FromDayValid(n);
    match r.freq
    case Daily | Weekly =>
      DayPeriods(r, anchor, ToDay(d));
      DayPeriods(r, anchor, n);
      DayPeriods(r, d, n);
      var i: nat :| ToDay(d) == Nth(ToDay(anchor), i, Step(r));
      CountOn(ToDay(anchor), ToDay(d), n, i, Step(r));
    case Weekdays =>
      OccursAfterAnchor(r, anchor, ToDay(d));
      WeekdayPeriods(r, anchor, n);
      WeekdayPeriods(r, d, n);
    case Monthly | Yearly =>
      ReanchorMonths(r, anchor, d, FromDay(n));
  }

  lemma ReanchorMonths(r: Rule, anchor: Date, d: Date, x: Date)
    requires r.freq.Monthly? || r.freq.Yearly?
    requires ValidRule(r) && Valid(anchor) && Valid(d) && Valid(x) && Occurs(r, anchor, d)
    ensures Occurs(r, d, x) <==> Occurs(r, anchor, x) && ToDay(d) <= ToDay(x)
  {
    hide ToDay, DaysInMonth, Occurs, Nth, MonthIndex;
    MonthPeriods(r, anchor, d);
    MonthPeriods(r, anchor, x);
    MonthPeriods(r, d, x);
    var i: nat :| MonthIndex(d) == Nth(MonthIndex(anchor), i, Step(r));
    CountOn(MonthIndex(anchor), MonthIndex(d), MonthIndex(x), i, Step(r));
    if x.day == d.day {
      SameDayOrder(d, x);
      ToDayOrder(x, d);
    }
  }

  lemma SameDayOrder(d: Date, x: Date)
    requires d.day == x.day && 1 <= d.month <= 12 && 1 <= x.month <= 12
    ensures Less(x, d) <==> MonthIndex(x) < MonthIndex(d)
  {
  }

  /** Multiples counted from a later multiple are the multiples not before it. */
  lemma CountOn(base: int, mid: int, x: int, i: nat, step: int)
    requires step > 0 && mid == Nth(base, i, step)
    ensures (exists k: nat :: x == Nth(mid, k, step)) <==> mid <= x && exists k: nat :: x == Nth(base, k, step)
  {
    if k: nat :| x == Nth(mid, k, step) {
      assert (i + k) * step == i * step + k * step;
      assert x == Nth(base, i + k, step);
    }
    if k: nat :| mid <= x && x == Nth(base, k, step) {
      if k < i { NthAscends(base, k, i, step); }
      assert (k - i) * step == k * step - i * step;
      assert x == Nth(mid, k - i, step);
    }
  }

  /**
   Cutting a series at an occurrence d: the series bounded the day before d keeps
   exactly the days before d, the series re-anchored at d exactly the others.
   */
  lemma SplitKept(s: Series, d: Date, n: int)
    requires ValidSeries(s) && Valid(d) && Occurs(s.rule, s.anchor, d)
    requires s.until.Some? ==> !Less(s.until.value, d)
    ensures Kept(BoundedAt(s, AddDays(d, -1)), n) <==> Kept(s, n) && n < ToDay(d)
    ensures Kept(AnchoredAt(s, d), n) <==> Kept(s, n) && ToDay(d) <= n
  {
    hide FromDay, ToDay, Valid, Occurs, Less;
    ReanchorOccurs(s.rule, s.anchor, d, n);
    AddDaysAction(d, 0, -1);
    FromDayValid(n);
    ToDayOrder(AddDays(d, -1), FromDay(n));
    if s.until.Some? {
      ToDayOrder(s.until.value, d);
      ToDayOrder(s.until.value, FromDay(n));
    }
  }

  lemma {:induction false} WindowSame(s: Series, u: Series, lo: int, hi: int)
    requires forall n :: lo <= n <= hi ==> (Kept(s, n) <==> Kept(u, n))
    ensures Window(s, lo, hi) == Window(u, lo, hi)
    decreases hi - lo
  {
    hide Kept;
    if lo <= hi { WindowSame(s, u, lo + 1, hi); }
  }

  /** The two series of a cut partition every window of the original one, in order. */
  lemma SplitPartitions(s: Series, d: Date, lo: int, hi: int)
    requires ValidSeries(s) && Valid(d) && Occurs(s.rule, s.anchor, d)
    requires s.until.Some? ==> !Less(s.until.value, d)
    ensures Window(s, lo, hi) == Window(BoundedAt(s, AddDays(d, -1)), lo, hi) + Window(AnchoredAt(s, d), lo, hi)
  {
    hide FromDay, ToDay, Valid, Occurs, Less, Kept, Window;
    var head, tail, cut := BoundedAt(s, AddDays(d, -1)), AnchoredAt(s, d), ToDay(d);
    forall n ensures Kept(head, n) <==> Kept(s, n) && n < cut
             ensures Kept(tail, n) <==> Kept(s, n) && cut <= n
    {
      SplitKept(s, d, n);
    }
    if cut <= lo {
      WindowEmpty(head, lo, hi);
      WindowSame(s, tail, lo, hi);
    } else if hi < cut {
      WindowEmpty(tail, lo, hi);
      WindowSame(s, head, lo, hi);
    } else {
      WindowSplit(s, lo, cut - 1, hi);
      WindowSplit(head, lo, cut - 1, hi);
      WindowSplit(tail, lo, cut - 1, hi);
      WindowEmpty(head, cut, hi);
      WindowEmpty(tail, lo, cut - 1);
      WindowSame(s, head, lo, cut - 1);
      WindowSame(s, tail, cut, hi);
    }
  }

  /**
   Expanding two adjacent windows one after the other gives the expansion of the whole
   window exactly when the cap does not bind it, or when one of the two is empty.
   */
  lemma AdjacentWindows(s: Series, lo: int, mid: int, hi: int, cap: int)
    requires lo <= mid + 1 && mid <= hi && cap >= 1
    ensures Take(Window(s, lo, mid), cap) + Take(Window(s, mid + 1, hi), cap) == Take(Window(s, lo, hi), cap)
            <==> |Window(s, lo, hi)| <= cap || Window(s, lo, mid) == [] || Window(s, mid + 1, hi) == []
  {
    hide Kept, Window;
    WindowSplit(s, lo, mid, hi);
    var a, b := Window(s, lo, mid), Window(s, mid + 1, hi);
    if |a + b| > cap && a != [] && b != [] {
      assert |Take(a, cap) + Take(b, cap)| > cap;
    }
    if a == [] { assert a + b == b; }
    if b == [] { assert a + b == a; }
  }
}
