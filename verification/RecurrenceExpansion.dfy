/**
 The expansion of a repeating date: the errors, the early returns and the three loops,
 measured against the plain enumeration of the window.
 */
module RecurrenceExpansion {
  import opened Calendar
  import opened IsoDates
  import opened Recurrence
  import opened RecurrenceDense
  import opened RecurrenceEdge
  import opened RecurrenceLoops
  import opened RecurrenceRange
  import opened RecurrenceWalk
  import opened Text
  import opened Wrappers

  /** The anchor itself lies past the window or past the bound. */
  predicate NoneAtAll(s: Series, to: Date)
    requires ValidSeries(s) && Plain(to)
  {
    Less(to, s.anchor) || (s.until.Some? && Less(s.until.value, s.anchor))
  }

  /** A series whose anchor is past the end has no days in the window. */
  lemma NothingThere(s: Series, from: Date, to: Date)
    requires ValidWindow(s, from, to) && NoneAtAll(s, to)
    ensures WindowOf(s, from, to) == []
  {
    hide Occurs, FromDay, ToDay, Less, Window, MonthLength;
    WindowParts(s, from, to);
    ToDayOrder(to, s.anchor);
    forall n | ToDay(from) <= n <= ToDay(to) ensures !Kept(s, n) {
      FromDayValid(n);
      ToDayOrder(FromDay(n), s.anchor);
      if Occurs(s.rule, s.anchor, FromDay(n)) {
        OccursAfterAnchor(s.rule, s.anchor, n);
        if s.until.Some? { LessTrans(s.until.value, s.anchor, FromDay(n)); }
      }
    }
    WindowEmpty(s, ToDay(from), ToDay(to));
  }

  lemma LessTrans(a: Date, b: Date, c: Date)
    requires Less(a, b) && !Less(c, b)
    ensures Less(a, c)
  {
  }

  /** The answer is the first days of the plain enumeration, at most cap of them. */
  ghost predicate IsWindow(s: Series, from: Date, to: Date, cap: int, r: Result<Expansion, ExpandError>)
    requires ValidWindow(s, from, to) && cap >= 1
  {
    r == Success(Listed(Somes(Take(WindowOf(s, from, to), cap))))
  }

  /**
   The days of the series inside the inclusive window, at most cap of them. They are those
   of the plain enumeration exactly when that has cap days, or the loop halts before it
   lists a day past the year 9999; a day of the series past window or bound and of four
   year digits is enough for that. For a dense rule it is needed as well, unless cap days
   are there or the window ends in the year it begins in. Only rules of ten years and more
   can run for ever.
   */
  method Expand(s: Series, from: Date, to: Date, cap: int) returns (r: Result<Expansion, ExpandError>)
    requires ValidSeries(s) && Plain(from) && Plain(to)
    ensures cap < 1 ==> r == Failure(InvalidCap)
    ensures cap >= 1 && Less(to, from) ==> r == Failure(InvalidWindow)
    ensures cap >= 1 && !Less(to, from) && NoneAtAll(s, to) ==>
              r == Success(Listed([])) && IsWindow(s, from, to, cap, r)
    ensures cap >= 1 && !Less(to, from) && !NoneAtAll(s, to) ==> r.Success? && Outcome(s, from, to, cap, r.value)
    ensures cap >= 1 && !Less(to, from) && !NoneAtAll(s, to) ==>
              (IsWindow(s, from, to, cap, r) <==> |WindowOf(s, from, to)| >= cap || HaltsInTime(s, from, to))
    ensures cap >= 1 && !Less(to, from) && (exists c :: Occurs(s.rule, s.anchor, c) && Closes(s, from, to, c)) ==>
              IsWindow(s, from, to, cap, r)
    ensures cap >= 1 && !Less(to, from) && !NoneAtAll(s, to) && Dense(s) && NearExclusions(s) ==>
              (IsWindow(s, from, to, cap, r) <==>
               || |WindowOf(s, from, to)| >= cap
               || (exists c :: Occurs(s.rule, s.anchor, c) && Closes(s, from, to, c))
               || EndYear(s, to) <= Max(1000, from.year))
    ensures r == Success(Endless) ==>
              s.rule.freq.Weekly? && s.rule.interval >= 522 && EndYear(s, to) == 9999 && from.year >= 1000
  {
    hide Less, FormatIso, StringLess, Outcome, MonthLength, Occurs, WindowOf, Closes, EndYear, HaltsInTime, Take,
         Dense, NearExclusions;
    if cap < 1 { return Failure(InvalidCap); }
    NearOrder(from, to);
    NearOrder(s.anchor, to);
    if s.until.Some? { NearOrder(s.anchor, s.until.value); }
    if StringLess(FormatIso(to), FormatIso(from)) { return Failure(InvalidWindow); }
    if NoneAtAll(s, to) {
      NothingThere(s, from, to);
      TakeNothing(cap);
    }
    if StringLess(FormatIso(to), FormatIso(s.anchor)) { return Success(Listed([])); }
    if s.until.Some? && StringLess(FormatIso(s.until.value), FormatIso(s.anchor)) { return Success(Listed([])); }
    var e;
    match s.rule.freq {
      case Daily | Weekly => e := ExpandDays(s, from, to, cap);
      case Weekdays => e := ExpandWeekdays(s, from, to, cap);
      case Monthly | Yearly => e := ExpandMonths(s, from, to, cap);
    }
    ExpansionExact(s, from, to, cap, e);
    if Dense(s) && NearExclusions(s) { DenseExact(s, from, to, cap, e); }
    if e.Endless? { EndlessOnly(s, from, to, cap, e); }
    if c :| Occurs(s.rule, s.anchor, c) && Closes(s, from, to, c) { ClosedInTime(s, from, to, c); }
    return Success(e);
  }

  lemma TakeNothing(cap: int)
    requires cap >= 1
    ensures Somes(Take([], cap)) == []
  {
  }
}
