/**
 The ISO day strings the calendar code exchanges: zero-padded printing, strict
 parsing with real-calendar validation, and the string order they are compared in.
 */
module IsoDates {
  import opened Calendar
  import opened Recurrence
  import opened Text
  import opened Wrappers

  // ----- dates as text -----

  datatype DateError = NotAnIsoDate | NoSuchDay

  function FormatIso(d: Date): string
    requires d.year >= 0 && d.month >= 0 && d.day >= 0
  {
    Pad(d.year, 4) + "-" + Pad(d.month, 2) + "-" + Pad(d.day, 2)
  }

  /** Four digits, two digits, two digits, joined by dashes. */
  predicate IsIsoShape(s: string) {
    && |s| == 10 && s[4] == '-' && s[7] == '-'
    && AllDigits(s[0..4]) && AllDigits(s[5..7]) && AllDigits(s[8..10])
  }

  /** Date.UTC reads the years 0 to 99 as 1900 to 1999 (section 21.4.3.4 of ECMA-262). */
  function UtcYear(year: int): int {
    if 0 <= year <= 99 then 1900 + year else year
  }

  function ParseIsoDate(text: string): Result<Date, DateError> {
    var s := Trim(text);
    if !IsIsoShape(s) then Failure(NotAnIsoDate) else
    var year, month, day := Number(s[0..4]), Number(s[5..7]), Number(s[8..10]);
    if month < 1 || month > 12 || day < 1 || day > DaysInMonth(UtcYear(year), month) then Failure(NoSuchDay)
    else Success(Date(year, month, day))
  }

  /** The metadata readers accept an untrimmed, real day only. */
  predicate IsIsoDay(s: string) {
    IsIsoShape(s) && ParseIsoDate(s).Success?
  }

  // ----- printing and parsing are inverse -----

  lemma NoTrim(s: string)
    requires s == [] || (!IsSpace(s[0]) && !IsSpace(s[|s| - 1]))
    ensures Trim(s) == s
  {
  }

  lemma FormatShape(d: Date)
    requires Valid(d) && 0 <= d.year <= 9999
    ensures IsIsoShape(FormatIso(d)) && Trim(FormatIso(d)) == FormatIso(d)
    ensures FormatIso(d)[0..4] == Pad(d.year, 4) && FormatIso(d)[5..7] == Pad(d.month, 2)
    ensures FormatIso(d)[8..10] == Pad(d.day, 2)
  {
    hide DaysInMonth, Pad, Pow10;
    Widths();
    PadReads(d.year, 4);
    PadReads(d.month, 2);
    PadReads(d.day, 2);
    var y, m, n := Pad(d.year, 4), Pad(d.month, 2), Pad(d.day, 2);
    var s := FormatIso(d);
    assert s == y + "-" + m + "-" + n;
    assert s[0..4] == y && s[5..7] == m && s[8..10] == n;
    assert s[8..10] == n;
    assert s[0] == y[0] && s[9] == n[1];
    assert IsDigit(y[0]) && IsDigit(n[1]);
    NoTrim(s);
  }

  /** Reading a year as 1900 plus itself changes one month length: February of the year 0. */
  lemma UtcMonthLength(year: int, month: int)
    ensures MonthLength(UtcYear(year), month) == if year == 0 && month == 2 then 28 else MonthLength(year, month)
  {
  }

  /** The text of a real day parses back to it, with one exception: February 29 of the year 0. */
  lemma ParseFormat(d: Date)
    requires Valid(d) && 0 <= d.year <= 9999
    ensures ParseIsoDate(FormatIso(d)) == if d == Date(0, 2, 29) then Failure(NoSuchDay) else Success(d)
    ensures IsIsoDay(FormatIso(d)) <==> d != Date(0, 2, 29)
  {
    hide DaysInMonth, MonthLength, UtcYear, Pad, Number;
    FormatShape(d);
    UtcMonthLength(d.year, d.month);
    DayFits(d);
    LeapYearZero();
    Widths();
    PadReads(d.year, 4);
    PadReads(d.month, 2);
    PadReads(d.day, 2);
  }

  lemma DayFits(d: Date)
    requires Valid(d)
    ensures 1 <= d.month <= 12 && 1 <= d.day <= 31
  {
  }

  lemma LeapYearZero()
    ensures MonthLength(0, 2) == 29
  {
  }

  /** Whatever parses is the trimmed canonical print of the date it parses to. */
  lemma FormatParse(text: string)
    requires ParseIsoDate(text).Success?
    ensures var d := ParseIsoDate(text).value; Valid(d) && 0 <= d.year <= 9999 && FormatIso(d) == Trim(text)
  {
    hide DaysInMonth, MonthLength, UtcYear, Pad, Number;
    var s, d := Trim(text), ParseIsoDate(text).value;
    UtcMonthLength(d.year, d.month);
    LeapYearZero();
    Widths();
    DigitsArePadded(s[0..4]);
    DigitsArePadded(s[5..7]);
    DigitsArePadded(s[8..10]);
    assert s == s[0..4] + "-" + s[5..7] + "-" + s[8..10];
  }

  /** Comparing ISO strings is comparing dates, for four-digit years. */
  lemma IsoOrder(a: Date, b: Date)
    requires Plain(a) && Plain(b)
    ensures StringLess(FormatIso(a), FormatIso(b)) <==> Less(a, b)
  {
    hide DaysInMonth, Pad, Pow10, StringLess;
    StringOrderTotal("-", "-");
    Widths();
    PadOrder(a.year, b.year, 4);
    PadOrder(a.month, b.month, 2);
    PadOrder(a.day, b.day, 2);
    PadReads(a.year, 4);
    PadReads(b.year, 4);
    PadReads(a.month, 2);
    PadReads(b.month, 2);
    var ad, bd := Pad(a.day, 2), Pad(b.day, 2);
    var am, bm := Pad(a.month, 2), Pad(b.month, 2);
    assert FormatIso(a) == Pad(a.year, 4) + ("-" + (am + ("-" + ad)));
    assert FormatIso(b) == Pad(b.year, 4) + ("-" + (bm + ("-" + bd)));
    PrefixOrder(Pad(a.year, 4), Pad(b.year, 4), "-" + (am + ("-" + ad)), "-" + (bm + ("-" + bd)));
    PrefixOrder("-", "-", am + ("-" + ad), bm + ("-" + bd));
    PrefixOrder(am, bm, "-" + ad, "-" + bd);
    PrefixOrder("-", "-", ad, bd);
  }

  /** From year 10000 on the string order is no longer chronological. */
  lemma IsoOrderFailsAtFiveDigits()
    ensures var a, b := Date(9999, 12, 31), Date(10000, 1, 1);
            Less(a, b) && StringLess(FormatIso(b), FormatIso(a))
  {
    Widths();
    PadReads(9999, 4);
    assert Decimal(10000) == Decimal(1000) + "0";
    assert Decimal(1000) == Decimal(100) + "0";
    assert Decimal(100) == Decimal(10) + "0";
    assert Decimal(10) == "10";
    PadStep(9999, 3);
    PadStep(999, 2);
    PadStep(99, 1);
  }

  // ----- years with more than four digits -----

  /** The first four digits of a year. */
  function Leading(y: nat): (q: nat)
    ensures q <= 9999 && (y >= 1000 ==> q >= 1000)
  {
    if y <= 9999 then y else Leading(y / 10)
  }

  lemma {:induction false} LeadingOf(q: nat, w: nat, y: nat)
    requires 1000 <= q <= 9999 && q * Pow10(w) <= y < (q + 1) * Pow10(w)
    ensures Leading(y) == q
  {
    if w > 0 {
      TenTimes(q, Pow10(w - 1), y);
      PowerPositive(w - 1);
      LeadingOf(q, w - 1, y / 10);
    }
  }

  lemma TenTimes(q: nat, p: nat, y: nat)
    requires q * (10 * p) <= y < (q + 1) * (10 * p)
    ensures q * p <= y / 10 < (q + 1) * p
    ensures q >= 1000 && p >= 1 ==> y >= 10000
  {
    assert q * (10 * p) == 10 * (q * p) && (q + 1) * (10 * p) == 10 * ((q + 1) * p);
    if q >= 1000 && p >= 1 { assert q * p >= 1000 * 1; }
  }

  lemma {:induction false} PowerPositive(w: nat)
    ensures Pow10(w) >= 1
  {
    if w > 0 { PowerPositive(w - 1); }
  }

  lemma FourDigits(y: nat)
    requires 1000 <= y <= 9999
    ensures Pad(y, 4) == Decimal(y) && |Decimal(y)| == 4
  {
    hide DigitChar;
    assert |Decimal(y / 1000)| == 1;
    assert |Decimal(y / 100)| == 2;
    assert |Decimal(y / 10)| == 3;
  }

  /** A longer year prints as its first four digits and more digits. */
  lemma {:induction false} LongYear(y: nat) returns (more: string)
    requires y >= 10000
    ensures Pad(y, 4) == Decimal(y) == Pad(Leading(y), 4) + more && more != [] && IsDigit(more[0])
    decreases y
  {
    hide Pad;
    var last := [DigitChar(y % 10)];
    assert Decimal(y) == Decimal(y / 10) + last;
    if y / 10 <= 9999 {
      FourDigits(y / 10);
      more := last;
    } else {
      more := LongYear(y / 10);
      assert Decimal(y) == Pad(Leading(y), 4) + (more + last);
      more := more + last;
    }
    Widths();
    PadReads(Leading(y), 4);
    LongPad(y);
  }

  lemma LongPad(y: nat)
    requires |Decimal(y)| >= 4
    ensures Pad(y, 4) == Decimal(y)
  {
  }

  /**
   A day in a year of five digits or more stands in the string order where its first four
   digits put it, behind every day of the year they spell.
   */
  lemma FarOrder(t: Date, d: Date)
    requires Plain(t) && d.year >= 10000 && d.month >= 0 && d.day >= 0
    ensures StringLess(FormatIso(t), FormatIso(d)) <==> t.year <= Leading(d.year)
    ensures StringLess(FormatIso(d), FormatIso(t)) <==> Leading(d.year) < t.year
  {
    hide DaysInMonth, Pad, Pow10, StringLess, Decimal, Leading;
    var more := LongYear(d.year);
    var q := Leading(d.year);
    Widths();
    PadOrder(t.year, q, 4);
    PadOrder(q, t.year, 4);
    PadReads(t.year, 4);
    PadReads(q, 4);
    var restT := "-" + (Pad(t.month, 2) + ("-" + Pad(t.day, 2)));
    var restD := more + ("-" + (Pad(d.month, 2) + ("-" + Pad(d.day, 2))));
    assert FormatIso(t) == Pad(t.year, 4) + restT;
    assert FormatIso(d) == Pad(q, 4) + restD;
    PrefixOrder(Pad(t.year, 4), Pad(q, 4), restT, restD);
    PrefixOrder(Pad(q, 4), Pad(t.year, 4), restD, restT);
    FirstCharOrder(restT, restD);
  }

  lemma FirstCharOrder(s: string, t: string)
    requires s != [] && t != [] && s[0] < t[0]
    ensures StringLess(s, t) && !StringLess(t, s)
  {
  }

  /** How a day without fields prints: String(NaN) padded to four, two and two places. */
  const NAN_DAY := "0NaN-NaN-NaN"

  /** In the string order it stands between the years 999 and 1000. */
  lemma NanOrder(t: Date)
    requires Plain(t)
    ensures StringLess(FormatIso(t), NAN_DAY) <==> t.year <= 999
    ensures StringLess(NAN_DAY, FormatIso(t)) <==> t.year >= 1000
  {
    hide Pad, StringLess, DigitChar, Decimal;
    var y, text := t.year, FormatIso(t);
    FirstDigit(y);
    var p, rest := Pad(y, 4), "-" + (Pad(t.month, 2) + ("-" + Pad(t.day, 2)));
    assert text == p + rest;
    assert text[0] == p[0] && text[1] == p[1];
    NanFirst(y / 1000);
    TwoCharOrder(text);
  }

  lemma FirstDigit(y: nat)
    requires y <= 9999
    ensures |Pad(y, 4)| == 4 && Pad(y, 4)[0] == DigitChar(y / 1000)
    ensures IsDigit(Pad(y, 4)[0]) && IsDigit(Pad(y, 4)[1])
  {
    hide Pad, DigitChar;
    Widths();
    PadStep(y, 3);
    PadStep(y / 10, 2);
    PadStep(y / 100, 1);
    PadOne(y / 1000);
    PadReads(y, 4);
  }

  lemma NanFirst(m: nat)
    requires m < 10
    ensures (DigitChar(m) == '0' <==> m == 0) && (DigitChar(m) > '0' <==> m > 0)
  {
  }

  lemma TwoCharOrder(text: string)
    requires |text| >= 2 && IsDigit(text[0]) && IsDigit(text[1])
    ensures StringLess(text, NAN_DAY) <==> text[0] == '0'
    ensures StringLess(NAN_DAY, text) <==> text[0] > '0'
  {
    assert NAN_DAY[0] == '0' && NAN_DAY[1..][0] == 'N' && text[1..][0] == text[1];
    assert 'N' > '9';
    assert StringLess(text[1..], NAN_DAY[1..]) && !StringLess(NAN_DAY[1..], text[1..]);
  }
}
