/**
 At the edge of the four digit years: days of later years listed, and an expansion that
 never returns.
 */
module RecurrenceEdge {
  import opened Calendar
  import opened IsoDates
  import opened Recurrence
  import opened RecurrenceDense
  import opened RecurrenceLoops
  import opened RecurrenceRange
  import opened RecurrenceWalk
  import opened Text
  import opened Wrappers

  // ----- a day too many -----

  lemma NewYear()
    ensures AddDays(Date(9999, 12, 31), 1) == Date(10000, 1, 1) && AddDays(Date(9999, 12, 31), 0) == Date(9999, 12, 31)
    ensures ToDay(Date(9999, 12, 31)) == 2932896 && ToDay(Date(10000, 1, 1)) == 2932897
    ensures DayFromYear(10000) == 2932897
  {
    hide FromDay;
    FromMakeDay(9999, 12, 31);
    FromMakeDay(10000, 1, 1);
    assert MakeDay(9999, 11, 32) == MakeDay(10000, 0, 1);
  }

  /**
   Every day, anchored at the end of the year 9999 and expanded up to it, is not one day but
   366: the days of the year 10000 print like days of the year 1000 and are listed.
   */
  lemma ExpansionOverruns(r: Expansion)
    requires var s := Series(Rule(Daily, 1), Date(9999, 12, 31), {}, None);
             Outcome(s, Date(1000, 1, 1), Date(9999, 12, 31), 366, r)
    ensures r.Listed? && |r.days| >= 2 && r.days[..2] == [Some(Date(9999, 12, 31)), Some(Date(10000, 1, 1))]
    ensures var s := Series(Rule(Daily, 1), Date(9999, 12, 31), {}, None);
            r != Listed(Somes(Take(WindowOf(s, Date(1000, 1, 1), Date(9999, 12, 31)), 366)))
  {
    hide Outcome, WindowOf, Leading, AddDays, ToDay, Walk, Halts, Lists, CandidateAt, DayFromYear;
    var s, from, to := Series(Rule(Daily, 1), Date(9999, 12, 31), {}, None), Date(1000, 1, 1), Date(9999, 12, 31);
    assert ValidWindow(s, from, to);
    NewYear();
    DayAt(s, 0);
    DayAt(s, 1);
    TwoListed(s, from, to);
    DenseReturns(s, from, to, 366, r);
    TwoReturned(s, from, to, 366, r);
    var w := WindowOf(s, from, to);
    NearListed(w, s, from, to);
    NearTaken(w, 366);
    assert r.days[1] == r.days[..2][1];
  }

  lemma NearTaken(days: seq<Date>, cap: nat)
    requires forall i :: 0 <= i < |days| ==> days[i].year <= 9999
    ensures var out := Somes(Take(days, cap));
            forall i :: 0 <= i < |out| ==> out[i].Some? && out[i].value.year <= 9999
  {
  }

  /** The first two candidates are listed. */
  lemma TwoListed(s: Series, from: Date, to: Date)
    requires ValidWindow(s, from, to) && from == Date(1000, 1, 1) && to == Date(9999, 12, 31)
    requires s.until.None? && s.exdates == {}
    requires Cand(s, from, 0) == Offered(Some(Date(9999, 12, 31))) &&
               Cand(s, from, 1) == Offered(Some(Date(10000, 1, 1)))
    ensures Walk(s, from, to, 2) == [Some(Date(9999, 12, 31)), Some(Date(10000, 1, 1))]
    ensures Runs(s, from, to, 2)
  {
    hide Cand, Leading, StringLess, FormatIso;
    NearOrder(to, to);
    NearOrder(from, to);
    LeadingTen(10000);
    FarTurn(s, from, to, Date(10000, 1, 1));
    forall j: nat | j < 2 ensures !Halts(s, to, Cand(s, from, j)) { assert j == 0 || j == 1; }
    WalkTurn(s, from, to, 0);
    WalkTurn(s, from, to, 1);
  }

  lemma WalkTurn(s: Series, from: Date, to: Date, j: nat)
    requires ValidWindow(s, from, to)
    ensures var c := Cand(s, from, j);
            Walk(s, from, to, j + 1) ==
            Walk(s, from, to, j) + if Runs(s, from, to, j + 1) && Lists(s, from, c) then [c.day] else []
    ensures Walk(s, from, to, 0) == []
  {
    hide Cand, Halts, Lists, Runs;
  }

  lemma TwoReturned(s: Series, from: Date, to: Date, cap: int, r: Expansion)
    requires ValidWindow(s, from, to) && cap >= 3 && Outcome(s, from, to, cap, r) && r.Listed?
    requires Runs(s, from, to, 2) && |Walk(s, from, to, 2)| == 2
    ensures |r.days| >= 2 && r.days[..2] == Walk(s, from, to, 2)
  {
    hide Cand, Halts, Lists, Walk;
    var n: nat :| Final(s, from, to, cap, n) && r.days == Take(Walk(s, from, to, n), cap);
    if n < 2 {
      RunsShorter(s, from, to, 2, n);
      WalkGrows(s, from, to, n, 2);
    }
    WalkGrows(s, from, to, 2, n);
    var a, b := Walk(s, from, to, 2), Walk(s, from, to, n);
    assert b[..2] == a;
  }

  /** The window holds no day past the year 9999. */
  lemma NearListed(days: seq<Date>, s: Series, from: Date, to: Date)
    requires ValidWindow(s, from, to) && days == WindowOf(s, from, to)
    ensures forall i :: 0 <= i < |days| ==> days[i].year <= 9999
  {
    hide ToDay, FromDay, Kept, Window, Less, Valid;
    WindowExact(s, ToDay(from), ToDay(to));
    NearDay(to);
    forall i | 0 <= i < |days| ensures days[i].year <= 9999 {
      assert days[i] in Window(s, ToDay(from), ToDay(to));
      NearYear(days[i]);
    }
  }

  // ----- rules that step over the halt -----

  /**
   A daily or weekly expansion runs for ever exactly when no candidate within Date's range
   ends it, window and bound reach the year 1000, and fewer than cap days are listed.
   */
  lemma EndlessExactly(s: Series, from: Date, to: Date, cap: int, n: nat, r: Expansion)
    requires ValidWindow(s, from, to) && cap >= 1 && Outcome(s, from, to, cap, r)
    requires EveryDays(s.rule) && Cand(s, from, n) == Offered(None)
    ensures r.Endless? <==>
            Runs(s, from, to, n) && 1000 <= EndYear(s, to) && 1000 <= from.year && |Walk(s, from, to, n)| < cap
  {
    hide Cand, Halts, Lists, Walk, Outcome;
    NanTurn(s, from, to);
    if Runs(s, from, to, n) && 1000 <= EndYear(s, to) && 1000 <= from.year && |Walk(s, from, to, n)| < cap {
      NanEndless(s, from, to, cap, Walk(s, from, to, n), n);
      NotBothOutcomes(s, from, to, cap, r);
    }
    if r.Endless? {
      NeverFinal(s, from, to, cap, n + 1);
      NeverFinal(s, from, to, cap, n);
      if from.year <= 999 {
        NanFills(s, from, to, n, cap);
        NeverFinal(s, from, to, cap, n + cap);
      }
    }
  }

  lemma NotBothOutcomes(s: Series, from: Date, to: Date, cap: int, r: Expansion)
    requires ValidWindow(s, from, to) && cap >= 1 && Outcome(s, from, to, cap, r) && Outcome(s, from, to, cap, Endless)
    ensures r == Endless
  {
    hide Final, Walk;
  }

  lemma NeverFinal(s: Series, from: Date, to: Date, cap: int, n: nat)
    requires ValidWindow(s, from, to) && cap >= 1 && Outcome(s, from, to, cap, Endless)
    ensures Runs(s, from, to, n) && |Walk(s, from, to, n)| < cap
  {
    hide Walk, Runs;
    assert !Final(s, from, to, cap, n);
  }

  /** Listed at every turn, NaN days fill any cap. */
  lemma {:induction false} NanFills(s: Series, from: Date, to: Date, n: nat, m: nat)
    requires ValidWindow(s, from, to) && EveryDays(s.rule) && Cand(s, from, n) == Offered(None)
    requires !Halts(s, to, Offered(None)) && Lists(s, from, Offered(None)) && Runs(s, from, to, n)
    ensures Cand(s, from, n + m) == Offered(None) && Runs(s, from, to, n + m) && |Walk(s, from, to, n + m)| >= m
  {
    hide ValidWindow, Cand, Halts, Lists;
    WindowParts(s, from, to);
    if m > 0 {
      NanFills(s, from, to, n, m - 1);
      NextDay(s, from, n + m - 1);
    }
  }

  /** It takes a weekly rule of more than 521 weeks, and a window and bound that reach the year 9999. */
  lemma EndlessOnly(s: Series, from: Date, to: Date, cap: int, r: Expansion)
    requires ValidWindow(s, from, to) && cap >= 1 && Outcome(s, from, to, cap, r) && r.Endless? && EveryDays(s.rule)
    ensures s.rule.freq.Weekly? && s.rule.interval >= 522 && EndYear(s, to) == 9999 && from.year >= 1000
  {
    hide Cand, Halts, Lists, Leading, Outcome, Walk, DayFromYear;
    EndYearBound(s, from, to);
    if Dense(s) { DenseReturns(s, from, to, cap, r); }
    if EndYear(s, to) <= 9998 {
      MeanYears(100000);
      YearsAscend(10000, 99980);
      YearsAscend(99980, 100000);
      var i, d := DayWithin(s, from, DayFromYear(99980), DayFromYear(100000));
      TwoDecades(d);
      FarTurn(s, from, to, d);
      NeverFinal(s, from, to, cap, i + 1);
    }
    var j := SomeFarNan(s, from);
    EndlessExactly(s, from, to, cap, j, r);
  }

  lemma TwoDecades(d: Date)
    requires Valid(d) && DayFromYear(99980) <= ToDay(d) < DayFromYear(100000)
    ensures 99980 <= d.year <= 99999 && Leading(d.year) >= 9998
  {
    hide ToDay, DayFromYear, Valid;
    DayBounds(d);
    if d.year < 99980 { YearsAscend(d.year + 1, 99980); }
    if d.year > 99999 { YearsAscend(100000, d.year); }
    LeadingTen(d.year);
  }

  lemma SomeFarNan(s: Series, from: Date) returns (j: nat)
    requires ValidSeries(s) && Plain(from) && EveryDays(s.rule)
    ensures Cand(s, from, j) == Offered(None)
  {
    hide CandidateAt, Start, Valid;
    j := 200_000_000;
    NanAt(s, Start(s, from) + j);
    DayAt(s, Start(s, from) + j);
  }

  /** No multiple of 999 weeks from the first Monday of 2029 is in the years 99990 to 99999, or the last day of 9999. */
  lemma NotInDecade(k: nat)
    ensures var n := 21550 + k * 6993; n != 2932896 && !(35801070 <= n < 35804722)
  {
  }

  lemma SparseYear(d: Date, n: int)
    requires Valid(d) && ToDay(d) == n && 2932897 <= n <= LAST_DAY && !(35801070 <= n < 35804722)
    ensures 10000 <= d.year && Leading(d.year) <= 9998
  {
    hide ToDay, Valid;
    DayBounds(d);
    NearOrFar(d);
    if 99990 <= d.year <= 99999 {
      YearsAscend(99990, d.year);
      YearsAscend(d.year + 1, 100000);
    } else if d.year <= 99989 {
      LeadingTen(d.year);
    } else {
      MeanYears(d.year);
      LeadingHundred(d.year);
    }
  }

  lemma NearOrFar(d: Date)
    requires Valid(d) && ToDay(d) >= DayFromYear(10000)
    ensures d.year >= 10000
  {
    hide ToDay, DayFromYear, Valid;
    DayBounds(d);
    if d.year < 10000 { YearsAscend(d.year + 1, 10000); }
  }

  lemma LeadingHundred(y: nat)
    requires 100000 <= y <= 999899
    ensures Leading(y) <= 9998
  {
    assert Leading(y) == Leading(y / 10) == y / 100;
  }

  /**
   Every 999 weeks from January 1, 2029, expanded over the last day of the year 9999: the
   expansion never returns, whatever the cap.
   */
  lemma ExpansionHangs(cap: int, r: Expansion)
    requires cap >= 1
    requires var s := Series(Rule(Weekly, 999), Date(2029, 1, 1), {}, None);
             Outcome(s, Date(9999, 12, 31), Date(9999, 12, 31), cap, r)
    ensures r == Endless
  {
    hide Outcome, Walk, Halts, Lists, Cand;
    var s, to := Series(Rule(Weekly, 999), Date(2029, 1, 1), {}, None), Date(9999, 12, 31);
    assert ValidWindow(s, to, to);
    var n := SomeFarNan(s, to);
    forall j: nat | j < n ensures !Halts(s, to, Cand(s, to, j)) && !Lists(s, to, Cand(s, to, j)) {
      NothingHappens(s, to, j);
    }
    QuietWalk(s, to, to, 0, n);
    assert Walk(s, to, to, 0) == [] by { WalkTurn(s, to, to, 0); }
    EndlessExactly(s, to, to, cap, n, r);
  }

  lemma NothingHappens(s: Series, to: Date, j: nat)
    requires s == Series(Rule(Weekly, 999), Date(2029, 1, 1), {}, None) && to == Date(9999, 12, 31)
    requires ValidWindow(s, to, to)
    ensures !Halts(s, to, Cand(s, to, j)) && !Lists(s, to, Cand(s, to, j))
  {
    hide Halts, Lists, CandidateAt, Start, Leading, StringLess, FormatIso, ToDay, AddDays;
    var k := Start(s, to) + j;
    NewYear();
    YearDay();
    DayAt(s, k);
    NanTurn(s, to, to);
    NotInDecade(k);
    AddDaysAction(s.anchor, 0, k * 6993);
    var n := 21550 + k * 6993;
    if n <= LAST_DAY {
      var d := AddDays(s.anchor, k * 6993);
      if n < 2932896 { BeforeEnd(s, to, d); } else { SparseYear(d, n); FarTurn(s, to, to, d); }
    }
  }

  lemma YearDay()
    ensures ToDay(Date(2029, 1, 1)) == 21550
  {
  }

  lemma BeforeEnd(s: Series, to: Date, d: Date)
    requires ValidWindow(s, to, to) && s.until.None? && Valid(d) && d.year >= 100 && ToDay(d) < ToDay(to)
    ensures !Halts(s, to, Offered(Some(d))) && !Lists(s, to, Offered(Some(d)))
  {
    hide ToDay, StringLess, FormatIso, MonthLength;
    NearDay(to);
    NearYear(d);
    NearOrder(to, d);
    ToDayOrder(d, to);
    ToDayOrder(to, d);
  }
}
