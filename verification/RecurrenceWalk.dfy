/**
 The candidates the expansion loops offer, compared as the text they print as: when a loop
 stops, what it lists, and why it stops.
 */
module RecurrenceWalk {
  import opened Calendar
  import opened IsoDates
  import opened Recurrence
  import opened Text
  import opened Wrappers

  // ----- days of Date's range -----

  /** The last day a Date can hold (section 21.4.1.1 of ECMA-262); arithmetic past it is NaN. */
  const LAST_DAY := 100_000_000

  /** The day a number of days later, or None when its fields are NaN. */
  function Moved(d: Date, days: int): Option<Date> {
    if MakeDay(d.year, d.month - 1, d.day + days) > LAST_DAY then None else Some(AddDays(d, days))
  }

  /** The anchor's day n months later; where the month's length is NaN no day is too many. */
  function Shifted(anchor: Date, n: int): Option<Date> {
    var index := MonthIndex(anchor) + n;
    if MakeDay(index / 12, index % 12 + 1, 0) > LAST_DAY then Some(Date(index / 12, index % 12 + 1, anchor.day))
    else ShiftMonths(anchor, n)
  }

  predicate Printable(d: Option<Date>) {
    d.Some? ==> d.value.year >= 100 && d.value.month >= 1 && d.value.day >= 1
  }

  function Iso(d: Option<Date>): string
    requires Printable(d)
  {
    if d.None? then NAN_DAY else FormatIso(d.value)
  }

  /** A day on offer, a weekend day the weekdays rule passes over, or a month without the anchor's day. */
  datatype Candidate =
    | Offered(day: Option<Date>)
    | Weekend(day: Option<Date>)
    | Missing

  predicate CanPrint(c: Candidate) {
    c.Missing? || Printable(c.day)
  }

  predicate ValidWindow(s: Series, from: Date, to: Date) {
    ValidSeries(s) && Plain(from) && Plain(to) && !Less(to, from)
  }

  // ----- the candidates -----

  /** The loop's day or month after k steps from the anchor. */
  function CandidateAt(r: Rule, anchor: Date, k: nat): (c: Candidate)
    requires ValidRule(r) && Plain(anchor)
    ensures CanPrint(c)
  {
    match r.freq
    case Daily | Weekly =>
      MovedPrints(anchor, k, Step(r));
      Offered(Moved(anchor, k * Step(r)))
    case Weekdays =>
      MovedPrints(anchor, k, 1);
      var d := Moved(anchor, k);
      if d.Some? && 1 <= Weekday(d.value) <= 5 then Offered(d) else Weekend(d)
    case Monthly | Yearly =>
      ShiftedPrints(anchor, k, Step(r));
      var d := Shifted(anchor, k * Step(r));
      if d.None? then Missing else Offered(d)
  }

  lemma MovedPrints(anchor: Date, k: nat, step: nat)
    requires Plain(anchor)
    ensures Printable(Moved(anchor, k * step))
    ensures k * step >= 0
  {
    hide FromDay, ToDay, MakeDay, AddDays, MonthLength;
    var d := AddDays(anchor, k * step);
    assert k * step >= 0;
    AddDaysAction(anchor, 0, k * step);
    ToDayOrder(d, anchor);
  }

  lemma ShiftedPrints(anchor: Date, k: nat, step: nat)
    requires Plain(anchor)
    ensures Printable(Shifted(anchor, k * step))
  {
    hide DaysInMonth, MakeDay, MonthLength;
    assert k * step >= 0;
    MonthIndexRead(anchor);
  }

  /** How many steps the loop fast-forwards before its first candidate. */
  function Start(s: Series, from: Date): nat
    requires ValidRule(s.rule) && Plain(s.anchor) && Plain(from)
  {
    match s.rule.freq
    case Daily | Weekly =>
      if Less(s.anchor, from) then
        AheadPositive(s.anchor, from, Step(s.rule));
        Ceil(DayDiff(s.anchor, from), Step(s.rule))
      else 0
    case Weekdays =>
      if Less(s.anchor, from) then
        AheadPositive(s.anchor, from, 1);
        DayDiff(s.anchor, from)
      else 0
    case Monthly | Yearly =>
      if Less(s.anchor, from) then Max(0, Ceil(MonthDiff(s.anchor, from), Step(s.rule))) else 0
  }

  lemma AheadPositive(anchor: Date, from: Date, step: int)
    requires Plain(anchor) && Plain(from) && Less(anchor, from) && step >= 1
    ensures DayDiff(anchor, from) > 0 && Ceil(DayDiff(anchor, from), step) >= 1
  {
    hide ToDay;
    ToDayOrder(anchor, from);
  }

  /** The j-th candidate of the loop. */
  function Cand(s: Series, from: Date, j: nat): (c: Candidate)
    requires ValidSeries(s) && Plain(from)
    ensures CanPrint(c)
  {
    CandidateAt(s.rule, s.anchor, Start(s, from) + j)
  }

  // ----- what a turn of the loop does with a candidate -----

  predicate PastBound(s: Series, d: Option<Date>)
    requires ValidSeries(s) && Printable(d)
  {
    s.until.Some? && StringLess(FormatIso(s.until.value), Iso(d))
  }

  /** The candidate ends the loop: it prints past the window, or, being on offer, past the bound. */
  predicate Halts(s: Series, to: Date, c: Candidate)
    requires ValidSeries(s) && Plain(to) && CanPrint(c)
  {
    match c
    case Missing => false
    case Weekend(d) => StringLess(FormatIso(to), Iso(d))
    case Offered(d) => StringLess(FormatIso(to), Iso(d)) || PastBound(s, d)
  }

  /** A candidate that does not end the loop is listed unless it prints before the window or is excluded. */
  predicate Lists(s: Series, from: Date, c: Candidate)
    requires Plain(from) && CanPrint(c)
  {
    c.Offered? && !StringLess(Iso(c.day), FormatIso(from)) && !(c.day.Some? && c.day.value in s.exdates)
  }

  // ----- walks -----

  /** None of the first n candidates ends the loop. */
  ghost predicate Runs(s: Series, from: Date, to: Date, n: nat)
    requires ValidWindow(s, from, to)
  {
    forall j: nat :: j < n ==> !Halts(s, to, Cand(s, from, j))
  }

  /** What the first n candidates list, in order; None is the day that prints as NaN. */
  ghost function Walk(s: Series, from: Date, to: Date, n: nat): seq<Option<Date>>
    requires ValidWindow(s, from, to)
  {
    if n == 0 then []
    else
      var c := Cand(s, from, n - 1);
      Walk(s, from, to, n - 1) + if Runs(s, from, to, n) && Lists(s, from, c) then [c.day] else []
  }

  /** After n candidates the outcome is decided: one of them ended the loop, or the cap is reached. */
  ghost predicate Final(s: Series, from: Date, to: Date, cap: int, n: nat)
    requires ValidWindow(s, from, to)
  {
    !Runs(s, from, to, n) || |Walk(s, from, to, n)| >= cap
  }

  /** The days an expansion returns; or it never returns. */
  datatype Expansion = Listed(days: seq<Option<Date>>) | Endless

  /** What the loop over the candidates comes to. */
  ghost predicate Outcome(s: Series, from: Date, to: Date, cap: int, r: Expansion)
    requires ValidWindow(s, from, to) && cap >= 1
  {
    match r
    case Listed(days) => exists n: nat :: Final(s, from, to, cap, n) && days == Take(Walk(s, from, to, n), cap)
    case Endless => forall n: nat :: !Final(s, from, to, cap, n)
  }

  lemma {:induction false} WalkGrows(s: Series, from: Date, to: Date, m: nat, n: nat)
    requires ValidWindow(s, from, to) && m <= n
    ensures Walk(s, from, to, m) <= Walk(s, from, to, n)
    ensures !Runs(s, from, to, m) ==> Walk(s, from, to, m) == Walk(s, from, to, n)
    decreases n
  {
    hide ValidWindow, Cand, Halts, Lists;
    if m < n { WalkGrows(s, from, to, m, n - 1); }
  }

  /** The outcome is one: once decided, more candidates change nothing. */
  lemma OutcomeUnique(s: Series, from: Date, to: Date, cap: int, m: nat, n: nat)
    requires ValidWindow(s, from, to) && cap >= 1 && m <= n && Final(s, from, to, cap, m)
    ensures Final(s, from, to, cap, n)
    ensures Take(Walk(s, from, to, m), cap) == Take(Walk(s, from, to, n), cap)
  {
    hide ValidWindow, Cand, Halts, Walk;
    WalkGrows(s, from, to, m, n);
    var a, b := Walk(s, from, to, m), Walk(s, from, to, n);
    assert b[..|a|] == a;
  }

  // ----- the order the texts stand in -----

  /** Past year 9999, or NaN. */
  predicate Far(d: Option<Date>) {
    d.None? || d.value.year >= 10000
  }

  /** A day of four year digits comes after another as text exactly when it comes after it. */
  lemma NearOrder(t: Date, d: Date)
    requires Plain(t) && Plain(d)
    ensures StringLess(FormatIso(t), FormatIso(d)) <==> Less(t, d)
    ensures StringLess(FormatIso(d), FormatIso(t)) <==> Less(d, t)
  {
    IsoOrder(t, d);
    IsoOrder(d, t);
  }

  /** The least of the two years that can end a loop. */
  function EndYear(s: Series, to: Date): int {
    if s.until.Some? && s.until.value.year < to.year then s.until.value.year else to.year
  }

  /** What a far candidate does depends on the four digits it begins with alone. */
  lemma FarTurn(s: Series, from: Date, to: Date, d: Date)
    requires ValidWindow(s, from, to) && d.year >= 10000 && d.month >= 1 && d.day >= 1
    ensures Halts(s, to, Offered(Some(d))) <==> EndYear(s, to) <= Leading(d.year)
    ensures Halts(s, to, Weekend(Some(d))) <==> to.year <= Leading(d.year)
    ensures Lists(s, from, Offered(Some(d))) <==> from.year <= Leading(d.year) && d !in s.exdates
  {
    hide StringLess, FormatIso, Leading, Valid;
    FarOrder(to, d);
    FarOrder(from, d);
    if s.until.Some? { FarOrder(s.until.value, d); }
  }

  /** NaN ends no loop over a window that ends in the year 1000 or later. */
  lemma NanTurn(s: Series, from: Date, to: Date)
    requires ValidWindow(s, from, to)
    ensures Halts(s, to, Offered(None)) <==> EndYear(s, to) <= 999
    ensures Halts(s, to, Weekend(None)) <==> to.year <= 999
    ensures Lists(s, from, Offered(None)) <==> from.year <= 999
  {
    hide StringLess, FormatIso, Valid;
    NanOrder(to);
    NanOrder(from);
    if s.until.Some? { NanOrder(s.until.value); }
  }
}
