/**
 The three expansion loops, each proved to come to what its candidates decide, and when
 they come to an end at all.
 */
module RecurrenceLoops {
  import opened Calendar
  import opened IsoDates
  import opened Recurrence
  import opened RecurrenceWalk
  import opened Text
  import opened Wrappers

  /** Whether to go on, and the output with the candidate offered to it. */
  function PushFrom(s: Series, from: Date, to: Date, cap: int, c: Option<Date>, out: seq<Option<Date>>)
    : (bool, seq<Option<Date>>)
    requires ValidWindow(s, from, to) && Printable(c)
  {
    var iso := Iso(c);
    if StringLess(FormatIso(to), iso) || |out| >= cap then (false, out)
    else if s.until.Some? && StringLess(FormatIso(s.until.value), iso) then (false, out)
    else (true, if !StringLess(iso, FormatIso(from)) && !(c.Some? && c.value in s.exdates) then out + [c] else out)
  }

  // ----- one turn of a loop -----

  /** After j candidates none has ended the loop, and out is what they list. */
  ghost predicate Walked(s: Series, from: Date, to: Date, cap: int, out: seq<Option<Date>>, j: nat)
    requires ValidWindow(s, from, to)
  {
    Runs(s, from, to, j) && out == Walk(s, from, to, j) && |out| <= cap
  }

  lemma NothingWalked(s: Series, from: Date, to: Date, cap: int)
    requires ValidWindow(s, from, to) && cap >= 1
    ensures Walked(s, from, to, cap, [], 0)
  {
  }

  lemma HaltTurn(s: Series, from: Date, to: Date, cap: int, out: seq<Option<Date>>, j: nat)
    requires ValidWindow(s, from, to) && cap >= 1 && Walked(s, from, to, cap, out, j)
    requires Halts(s, to, Cand(s, from, j)) || |out| >= cap
    ensures Outcome(s, from, to, cap, Listed(out))
  {
    hide ValidWindow, Cand, Halts, Lists;
    if |out| >= cap {
      assert Final(s, from, to, cap, j);
    } else {
      assert Final(s, from, to, cap, j + 1);
      assert Walk(s, from, to, j + 1) == Walk(s, from, to, j);
    }
  }

  lemma GoTurn(s: Series, from: Date, to: Date, cap: int, out: seq<Option<Date>>, j: nat)
    requires ValidWindow(s, from, to) && cap >= 1 && Walked(s, from, to, cap, out, j)
    requires !Halts(s, to, Cand(s, from, j)) && |out| < cap
    ensures var c := Cand(s, from, j);
            Walked(s, from, to, cap, if Lists(s, from, c) then out + [c.day] else out, j + 1)
  {
    hide ValidWindow, Cand, Halts, Lists;
  }

  /** A month without the day, or a weekend day that does not end the loop, changes nothing. */
  lemma SkipTurn(s: Series, from: Date, to: Date, cap: int, out: seq<Option<Date>>, j: nat)
    requires ValidWindow(s, from, to) && cap >= 1 && Walked(s, from, to, cap, out, j)
    requires !Cand(s, from, j).Offered? && !Halts(s, to, Cand(s, from, j))
    ensures Walked(s, from, to, cap, out, j + 1)
  {
    hide ValidWindow, Cand, Halts;
  }

  lemma PushTurn(s: Series, from: Date, to: Date, cap: int, out: seq<Option<Date>>, j: nat)
    requires ValidWindow(s, from, to) && cap >= 1 && Walked(s, from, to, cap, out, j)
    requires Cand(s, from, j).Offered?
    ensures var (go, pushed) := PushFrom(s, from, to, cap, Cand(s, from, j).day, out);
            if go then Walked(s, from, to, cap, pushed, j + 1) && !Halts(s, to, Cand(s, from, j)) && |out| < cap
            else Outcome(s, from, to, cap, Listed(out))
  {
    hide Cand, Walked, Outcome, StringLess, FormatIso;
    var (go, pushed) := PushFrom(s, from, to, cap, Cand(s, from, j).day, out);
    if go { GoTurn(s, from, to, cap, out, j); } else { HaltTurn(s, from, to, cap, out, j); }
  }

  // ----- daily and weekly -----

  predicate EveryDays(r: Rule) {
    r.freq.Daily? || r.freq.Weekly?
  }

  /** From one day on offer to the next; past Date's range every day is NaN. */
  lemma NextDay(s: Series, from: Date, j: nat)
    requires ValidSeries(s) && Plain(from) && EveryDays(s.rule)
    ensures Cand(s, from, j).Offered? && Cand(s, from, j + 1).Offered?
    ensures var c, d := Cand(s, from, j).day, Cand(s, from, j + 1).day;
            if c.None? then d.None? else d == Moved(c.value, Step(s.rule)) && ToDay(c.value) <= LAST_DAY &&
                                         (d.Some? ==> ToDay(c.value) < ToDay(d.value))
  {
    hide FromDay, ToDay, DayFromYear, DaysBeforeMonth, IsLeap, Start, Valid, AddDays, MakeDay;
    var k, step := Start(s, from) + j, Step(s.rule);
    DayAt(s, k);
    DayAt(s, k + 1);
    assert (k + 1) * step == k * step + step;
    AddDaysAction(s.anchor, k * step, step);
    AddDaysAction(s.anchor, 0, k * step);
    MakeDayAdds(AddDays(s.anchor, k * step), step);
    AddDaysAction(AddDays(s.anchor, k * step), 0, step);
  }

  lemma MakeDayAdds(d: Date, n: int)
    ensures MakeDay(d.year, d.month - 1, d.day + n) == ToDay(d) + n
  {
    hide DayFromYear, DaysBeforeMonth, IsLeap;
  }

  lemma DayAt(s: Series, k: nat)
    requires ValidSeries(s) && EveryDays(s.rule)
    ensures CandidateAt(s.rule, s.anchor, k) ==
            Offered(if ToDay(s.anchor) + k * Step(s.rule) > LAST_DAY then None
                    else Some(AddDays(s.anchor, k * Step(s.rule))))
  {
    hide DayFromYear, DaysBeforeMonth, IsLeap, AddDays, ToDay, MakeDay, Valid;
    MakeDayAdds(s.anchor, k * Step(s.rule));
  }

  lemma {:induction false} NanStays(s: Series, from: Date, to: Date, j: nat, n: nat)
    requires ValidWindow(s, from, to) && EveryDays(s.rule) && Cand(s, from, j) == Offered(None) && j < n
    requires Runs(s, from, to, j + 1) && !Lists(s, from, Offered(None))
    ensures Cand(s, from, n) == Offered(None)
    ensures Runs(s, from, to, n) && Walk(s, from, to, n) == Walk(s, from, to, j + 1)
  {
    hide ValidWindow, Cand, Halts, Lists;
    WindowParts(s, from, to);
    if n > j + 1 {
      NanStays(s, from, to, j, n - 1);
      assert !Halts(s, to, Cand(s, from, j));
    }
    NextDay(s, from, n - 1);
  }

  lemma WindowParts(s: Series, from: Date, to: Date)
    requires ValidWindow(s, from, to)
    ensures ValidSeries(s) && Plain(from) && Plain(to) && !Less(to, from)
  {
  }

  /** A NaN day that neither ends the loop nor is listed comes back for ever. */
  lemma NanEndless(s: Series, from: Date, to: Date, cap: int, out: seq<Option<Date>>, j: nat)
    requires ValidWindow(s, from, to) && EveryDays(s.rule) && cap >= 1 && Walked(s, from, to, cap, out, j)
    requires Cand(s, from, j) == Offered(None) && !Halts(s, to, Offered(None)) && !Lists(s, from, Offered(None))
    requires |out| < cap
    ensures Outcome(s, from, to, cap, Endless)
  {
    hide ValidWindow, Cand, Halts, Lists;
    forall n: nat ensures !Final(s, from, to, cap, n) {
      if n > j { NanStays(s, from, to, j, n); } else { WalkGrows(s, from, to, n, j); }
    }
  }

  /**
   The loop of the daily and weekly rules. Where the source repeats a turn that changes
   nothing, for ever, the model stops and says so.
   */
  method ExpandDays(s: Series, from: Date, to: Date, cap: int) returns (r: Expansion)
    requires ValidWindow(s, from, to) && cap >= 1 && EveryDays(s.rule)
    ensures Outcome(s, from, to, cap, r)
  {
    hide Less, FromDay, ToDay, MonthLength, Ceil, Cand, Halts, Lists, Walked, Outcome, Moved, Step, PushFrom,
         ValidSeries, AddDays, MakeDay;
    var out: seq<Option<Date>> := [];
    var step := Step(s.rule);
    var current := FirstDay(s, from);
    ghost var j: nat := 0;
    NothingWalked(s, from, to, cap);
    while true
      invariant Cand(s, from, j) == Offered(current) && Walked(s, from, to, cap, out, j)
      invariant |out| <= cap
      decreases if current.None? then 0 else LAST_DAY - ToDay(current.value) + 1, cap - |out|
    {
      NextDay(s, from, j);
      PushTurn(s, from, to, cap, out, j);
      var (go, pushed) := PushFrom(s, from, to, cap, current, out);
      if !go { return Listed(out); }
      if current.None? && pushed == out {
        NanRepeats(s, from, to, cap, out, j);
        return Endless;
      }
      PushedFits(s, from, to, cap, current, out);
      out := pushed;
      if current.Some? { current := Moved(current.value, step); }
      j := j + 1;
    }
  }

  lemma NanRepeats(s: Series, from: Date, to: Date, cap: int, out: seq<Option<Date>>, j: nat)
    requires ValidWindow(s, from, to) && EveryDays(s.rule) && cap >= 1 && Walked(s, from, to, cap, out, j)
    requires Cand(s, from, j) == Offered(None) && PushFrom(s, from, to, cap, None, out) == (true, out)
    ensures Outcome(s, from, to, cap, Endless)
  {
    hide Outcome, Walked, StringLess, FormatIso;
    assert |out + [None]| != |out|;
    NanEndless(s, from, to, cap, out, j);
  }

  lemma PushedFits(s: Series, from: Date, to: Date, cap: int, c: Option<Date>, out: seq<Option<Date>>)
    requires ValidWindow(s, from, to) && Printable(c) && |out| <= cap
    ensures var (go, pushed) := PushFrom(s, from, to, cap, c, out);
            go ==> |pushed| <= cap && |out| <= |pushed| && (pushed != out ==> |pushed| > |out|)
  {
  }

  /** The anchor, or the first day on offer that is not before the window. */
  method FirstDay(s: Series, from: Date) returns (current: Option<Date>)
    requires ValidSeries(s) && Plain(from) && EveryDays(s.rule)
    ensures Cand(s, from, 0) == Offered(current)
  {
    hide Less, FromDay, ToDay, MonthLength, Ceil, MakeDay, StringLess, FormatIso;
    NearOrder(s.anchor, from);
    AddDaysAction(s.anchor, 0, 0);
    assert 0 * Step(s.rule) == 0;
    DayAt(s, 0);
    AnchorInRange(s.anchor);
    if !StringLess(FormatIso(s.anchor), FormatIso(from)) {
      current := Some(s.anchor);
    } else {
      current := Moved(s.anchor, Ceil(DayDiff(s.anchor, from), Step(s.rule)) * Step(s.rule));
    }
  }

  lemma AnchorInRange(anchor: Date)
    requires Plain(anchor)
    ensures ToDay(anchor) <= LAST_DAY
  {
    hide ToDay, DaysBeforeMonth, IsLeap;
    DayBounds(anchor);
    MeanYears(anchor.year + 1);
  }

  // ----- weekdays -----

  lemma WeekdayAt(s: Series, k: nat)
    requires ValidSeries(s) && s.rule.freq.Weekdays?
    ensures var d := if ToDay(s.anchor) + k > LAST_DAY then None else Some(AddDays(s.anchor, k));
            CandidateAt(s.rule, s.anchor, k) ==
            if d.Some? && 1 <= Weekday(d.value) <= 5 then Offered(d) else Weekend(d)
  {
    hide DayFromYear, DaysBeforeMonth, IsLeap, AddDays, ToDay, MakeDay, Valid, Weekday;
    MakeDayAdds(s.anchor, k);
  }

  /** New Year's Day of ten times the window's last year, or of the year 10000, ends every daily loop. */
  lemma WeekdaysHalt(s: Series, from: Date, to: Date) returns (h: nat)
    requires ValidWindow(s, from, to) && s.rule.freq.Weekdays?
    ensures Halts(s, to, Cand(s, from, h))
    ensures forall j: nat :: j <= h ==> !Cand(s, from, j).Missing? && Cand(s, from, j).day.Some?
  {
    hide FromDay, ToDay, Halts, AddDays, Weekday, Leading, CandidateAt;
    var d := Date(if to.year < 1000 then 10000 else 10 * to.year, 1, 1);
    LeadingTen(d.year);
    ToDayOrder(s.anchor, d);
    ToDayOrder(from, d);
    BeforeFar(s.anchor, d);
    BeforeFar(from, d);
    FarInRange(d);
    var k := DayDiff(s.anchor, d);
    h := k - Start(s, from);
    AddDaysReaches(s.anchor, d);
    WeekdayAt(s, k);
    FarTurn(s, from, to, d);
    EndNotLater(s, to);
    forall j: nat | j <= h ensures !Cand(s, from, j).Missing? && Cand(s, from, j).day.Some? {
      WeekdayAt(s, Start(s, from) + j);
    }
  }

  lemma EndNotLater(s: Series, to: Date)
    ensures EndYear(s, to) <= to.year
  {
  }

  lemma LeadingTen(y: nat)
    requires 10000 <= y <= 99999
    ensures Leading(y) == y / 10
  {
  }

  lemma BeforeFar(a: Date, d: Date)
    requires Plain(a) && d.year >= 10000
    ensures Less(a, d)
  {
  }

  lemma FarInRange(d: Date)
    requires Valid(d) && d.year <= 100000
    ensures ToDay(d) <= LAST_DAY
  {
    hide ToDay, DaysBeforeMonth, IsLeap, Valid;
    DayBounds(d);
    MeanYears(d.year + 1);
  }

  method ExpandWeekdays(s: Series, from: Date, to: Date, cap: int) returns (r: Expansion)
    requires ValidWindow(s, from, to) && cap >= 1 && s.rule.freq.Weekdays?
    ensures Outcome(s, from, to, cap, r)
    ensures r.Listed?
  {
    hide Less, FromDay, ToDay, MonthLength, Cand, Halts, Lists, Walked, Outcome, PushFrom, ValidSeries, Weekday,
         StringLess, FormatIso, AddDays, MakeDay;
    var out: seq<Option<Date>> := [];
    ghost var h := WeekdaysHalt(s, from, to);
    var current := FirstWeekday(s, from);
    ghost var j: nat := 0;
    NothingWalked(s, from, to, cap);
    while |out| < cap
      invariant j <= h && WeekdayCand(s, from, j, current) && Printable(Some(current))
      invariant Walked(s, from, to, cap, out, j)
      decreases h - j
    {
      var weekday := Weekday(current);
      CandOf(s, from, to, j, current);
      if 1 <= weekday <= 5 {
        PushTurn(s, from, to, cap, out, j);
        var (go, pushed) := PushFrom(s, from, to, cap, Some(current), out);
        if !go { return Listed(out); }
        out := pushed;
      }
      if StringLess(FormatIso(to), FormatIso(current)) {
        if !(1 <= weekday <= 5) { HaltTurn(s, from, to, cap, out, j); }
        return Listed(out);
      }
      if !(1 <= weekday <= 5) { SkipTurn(s, from, to, cap, out, j); }
      NextWeekday(s, from, j, current);
      current := AddDays(current, 1);
      j := j + 1;
    }
    CapReached(s, from, to, cap, out, j);
    return Listed(out);
  }

  lemma CapReached(s: Series, from: Date, to: Date, cap: int, out: seq<Option<Date>>, j: nat)
    requires ValidWindow(s, from, to) && cap >= 1 && Walked(s, from, to, cap, out, j) && |out| >= cap
    ensures Outcome(s, from, to, cap, Listed(out))
  {
    hide Cand, Halts, Lists;
    assert Final(s, from, to, cap, j);
  }

  /** The j-th candidate of the weekdays loop is this day. */
  ghost predicate WeekdayCand(s: Series, from: Date, j: nat, d: Date)
    requires ValidSeries(s) && Plain(from)
  {
    Cand(s, from, j) == if 1 <= Weekday(d) <= 5 then Offered(Some(d)) else Weekend(Some(d))
  }

  lemma CandOf(s: Series, from: Date, to: Date, j: nat, d: Date)
    requires ValidWindow(s, from, to) && WeekdayCand(s, from, j, d)
    ensures Cand(s, from, j).Offered? <==> 1 <= Weekday(d) <= 5
    ensures !Cand(s, from, j).Missing? && Cand(s, from, j).day == Some(d) && Printable(Some(d))
    ensures StringLess(FormatIso(to), FormatIso(d)) ==> Halts(s, to, Cand(s, from, j))
    ensures Cand(s, from, j).Weekend? && Halts(s, to, Cand(s, from, j)) ==> StringLess(FormatIso(to), FormatIso(d))
  {
    hide Cand, StringLess, FormatIso, Weekday;
  }

  /** The anchor, or the window's first day if that is later. */
  method FirstWeekday(s: Series, from: Date) returns (current: Date)
    requires ValidSeries(s) && Plain(from) && s.rule.freq.Weekdays?
    ensures WeekdayCand(s, from, 0, current) && Printable(Some(current))
  {
    hide Less, FromDay, ToDay, MonthLength, AddDays, StringLess, FormatIso, Weekday, CandidateAt;
    NearOrder(from, s.anchor);
    AddDaysAction(s.anchor, 0, 0);
    WeekdayAt(s, 0);
    AnchorInRange(s.anchor);
    AddDaysReaches(s.anchor, from);
    AnchorInRange(from);
    ToDayOrder(s.anchor, from);
    ToDayOrder(from, s.anchor);
    WeekdayAt(s, Start(s, from));
    if StringLess(FormatIso(from), FormatIso(s.anchor)) { current := s.anchor; } else { current := from; }
  }

  lemma NextWeekday(s: Series, from: Date, j: nat, d: Date)
    requires ValidSeries(s) && Plain(from) && s.rule.freq.Weekdays? && WeekdayCand(s, from, j, d)
    requires !Cand(s, from, j + 1).Missing? && Cand(s, from, j + 1).day.Some?
    ensures WeekdayCand(s, from, j + 1, AddDays(d, 1)) && Printable(Some(AddDays(d, 1)))
  {
    hide Less, FromDay, ToDay, MonthLength, AddDays, Weekday, CandidateAt, Start;
    var k := Start(s, from) + j;
    WeekdayAt(s, k);
    WeekdayAt(s, k + 1);
    AddDaysAction(s.anchor, k, 1);
  }

  // ----- monthly and yearly -----

  predicate EveryMonths(r: Rule) {
    r.freq.Monthly? || r.freq.Yearly?
  }

  /** The rounded-up quotient is the least multiplier whose multiple reaches the dividend. */
  lemma CeilBounds(a: int, b: int)
    requires b > 0
    ensures Nth(0, Ceil(a, b) - 1, b) < a <= Nth(0, Ceil(a, b), b)
    ensures a > 0 ==> Ceil(a, b) >= 1
  {
    var q, r := (-a) / b, (-a) % b;
    assert -a == b * q + r;
  }

  lemma CeilAscends(a: int, c: int, b: int)
    requires b > 0 && a <= c
    ensures Ceil(a, b) <= Ceil(c, b)
  {
    hide Ceil;
    CeilBounds(a, b);
    CeilBounds(c, b);
    if Ceil(c, b) < Ceil(a, b) {
      if Ceil(c, b) < Ceil(a, b) - 1 { NthAscends(0, Ceil(c, b), Ceil(a, b) - 1, b); }
    }
  }

  /** A month whose year begins with 9999, far beyond Date's range: its candidate exists and ends the loop. */
  lemma FarMonth(s: Series, from: Date, to: Date, k: nat)
    requires ValidWindow(s, from, to) && EveryMonths(s.rule)
    requires 12 * 99_990_000_000 <= MonthIndex(s.anchor) + k * Step(s.rule) < 12 * 100_000_000_000
    ensures Halts(s, to, CandidateAt(s.rule, s.anchor, k))
  {
    hide Less, FromDay, ToDay, Halts, ShiftMonths, Leading, MonthLength, DayFromYear, IsLeap, MonthIndex, Step,
         ValidWindow;
    WindowParts(s, from, to);
    var index := MonthIndex(s.anchor) + k * Step(s.rule);
    var year, month := index / 12, index % 12 + 1;
    MeanYears(year);
    MeanYears(year + 1);
    assert MakeDay(year, month, 0) > LAST_DAY;
    var d := Date(year, month, s.anchor.day);
    assert Shifted(s.anchor, k * Step(s.rule)) == Some(d);
    SevenZeros();
    LeadingOf(9999, 7, year);
    DayFits(s.anchor);
    FarTurn(s, from, to, d);
    EndYearBound(s, from, to);
  }

  lemma SevenZeros()
    ensures Pow10(7) == 10_000_000
  {
    assert Pow10(2) == 100 && Pow10(4) == 100 * Pow10(2) && Pow10(6) == 100 * Pow10(4);
  }

  lemma EndYearBound(s: Series, from: Date, to: Date)
    requires ValidWindow(s, from, to)
    ensures EndYear(s, to) <= to.year <= 9999
  {
  }

  lemma MonthsHalt(s: Series, from: Date, to: Date) returns (h: nat)
    requires ValidWindow(s, from, to) && EveryMonths(s.rule)
    ensures Halts(s, to, Cand(s, from, h))
  {
    hide Less, FromDay, ToDay, Halts, Ceil, MonthLength, CandidateAt, Nth;
    var base, step, goal := MonthIndex(s.anchor), Step(s.rule), 12 * 99_990_000_000;
    var k := Ceil(goal - base, step);
    CeilBounds(goal - base, step);
    CeilAscends(MonthDiff(s.anchor, from), goal - base, step);
    NthOfZero(k, step);
    h := k - Start(s, from);
    FarMonth(s, from, to, k);
  }

  lemma NthOfZero(k: int, step: int)
    ensures Nth(0, k, step) == k * step && Nth(0, k - 1, step) == k * step - step
  {
  }

  lemma MonthAt(s: Series, k: nat)
    requires ValidSeries(s) && EveryMonths(s.rule)
    ensures var d := Shifted(s.anchor, k * Step(s.rule));
            CandidateAt(s.rule, s.anchor, k) == if d.None? then Missing else Offered(d)
  {
    hide Shifted;
  }

  method ExpandMonths(s: Series, from: Date, to: Date, cap: int) returns (r: Expansion)
    requires ValidWindow(s, from, to) && cap >= 1 && EveryMonths(s.rule)
    ensures Outcome(s, from, to, cap, r)
    ensures r.Listed?
  {
    hide Less, FromDay, ToDay, MonthLength, Ceil, Cand, Lists, Walked, Outcome, PushFrom, StringLess, FormatIso,
         Shifted, Step, MonthIndex, Start;
    var out: seq<Option<Date>> := [];
    var step := Step(s.rule);
    var k := FirstMonth(s, from);
    ghost var h := MonthsHalt(s, from, to);
    ghost var j: nat := 0;
    NothingWalked(s, from, to, cap);
    while true
      invariant k == Start(s, from) + j && j <= h && Walked(s, from, to, cap, out, j)
      decreases h - j
    {
      var candidate := Shifted(s.anchor, k * step);
      MonthCand(s, from, to, j);
      if candidate.None? {
        SkipTurn(s, from, to, cap, out, j);
      } else {
        PushTurn(s, from, to, cap, out, j);
        var (go, pushed) := PushFrom(s, from, to, cap, candidate, out);
        if !go { return Listed(out); }
        out := pushed;
      }
      k := k + 1;
      j := j + 1;
    }
  }

  lemma MonthCand(s: Series, from: Date, to: Date, j: nat)
    requires ValidWindow(s, from, to) && EveryMonths(s.rule)
    ensures var d := Shifted(s.anchor, (Start(s, from) + j) * Step(s.rule));
            Printable(d) && Cand(s, from, j) == if d.None? then Missing else Offered(d)
    ensures Cand(s, from, j).Missing? ==> !Halts(s, to, Cand(s, from, j))
  {
    hide Shifted, Start, StringLess;
    MonthAt(s, Start(s, from) + j);
  }

  method FirstMonth(s: Series, from: Date) returns (k: nat)
    requires ValidSeries(s) && Plain(from) && EveryMonths(s.rule)
    ensures k == Start(s, from)
  {
    hide Ceil, StringLess, FormatIso;
    NearOrder(s.anchor, from);
    k := if !StringLess(FormatIso(s.anchor), FormatIso(from)) then 0
         else Max(0, Ceil(MonthDiff(s.anchor, from), Step(s.rule)));
  }
}
