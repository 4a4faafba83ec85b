/**
 Deterministic date-node ids: generation from an ISO day at a precision, parsing,
 the chain parent, and the chronological order of the trailing payload.
 */
module DateNodeIds {
  import opened Calendar
  import opened IsoDates
  import opened Recurrence
  import opened Text
  import opened Wrappers

  datatype Precision = Year | Month | Day

  datatype ParsedId = ParsedId(precision: Precision, date: Date)

  const MIN_YEAR := 1900
  const MAX_YEAR := 2200

  const DAY_PREFIX := "00000000-0000-0000-00dd-"
  const MONTH_PREFIX := "00000000-0000-0000-00aa-"
  const YEAR_PREFIX := "00000000-0000-0000-00bb-"

  function Prefix(p: Precision): string {
    match p
    case Year => YEAR_PREFIX
    case Month => MONTH_PREFIX
    case Day => DAY_PREFIX
  }

  /** The twelve trailing digits. */
  function Payload(d: Date, p: Precision): string
    requires d.year >= 0 && d.month >= 0 && d.day >= 0
  {
    match p
    case Year => Pad(d.year, 4) + "00000000"
    case Month => Pad(d.year, 4) + Pad(d.month, 2) + "000000"
    case Day => Pad(d.year, 4) + Pad(d.month, 2) + Pad(d.day, 2) + "0000"
  }

  function DateNodeId(isoDate: string, p: Precision): Result<string, DateError> {
    match ParseIsoDate(isoDate)
    case Failure(e) => Failure(e)
    case Success(d) => Success(Prefix(p) + Payload(d, p))
  }

  /** A run of digits read as a number; anything else is absent. */
  function ReadDigits(s: string): Option<nat> {
    if s != [] && AllDigits(s) then Some(Number(s)) else None
  }

  predicate InWindow(year: Option<nat>) {
    year.Some? && MIN_YEAR <= year.value <= MAX_YEAR
  }

  predicate Between(n: Option<nat>, hi: nat) {
    n.Some? && 1 <= n.value <= hi
  }

  function ParseDateNodeId(id: string): Option<ParsedId> {
    if |id| != 36 then None
    else
      var year, month, day := ReadDigits(id[24..28]), ReadDigits(id[28..30]), ReadDigits(id[30..32]);
      if DAY_PREFIX <= id then
        if InWindow(year) && Between(month, 12) && Between(day, 31)
        then Some(ParsedId(Day, Date(year.value, month.value, day.value))) else None
      else if MONTH_PREFIX <= id then
        if InWindow(year) && Between(month, 12) then Some(ParsedId(Month, Date(year.value, month.value, 1))) else None
      else if YEAR_PREFIX <= id then
        if InWindow(year) then Some(ParsedId(Year, Date(year.value, 1, 1))) else None
      else None
  }

  /** The only parent a date-chain node may have; None at the root and for other ids. */
  function DateChainParentId(id: string): Result<Option<string>, DateError> {
    match ParseDateNodeId(id)
    case None => Success(None)
    case Some(parsed) =>
      var iso := FormatIso(parsed.date);
      if parsed.precision.Year? then Success(None) else
      match DateNodeId(iso, if parsed.precision.Month? then Year else Month)
      case Failure(e) => Failure(e)
      case Success(parent) => Success(Some(parent))
  }

  // ----- round trip -----

  /** The components a node of the precision keeps; the others read as 1. */
  function Truncated(d: Date, p: Precision): Date {
    match p
    case Year => Date(d.year, 1, 1)
    case Month => Date(d.year, d.month, 1)
    case Day => d
  }

  lemma PayloadReads(d: Date, p: Precision)
    requires Plain(d)
    ensures var t := Payload(d, p);
            && |t| == 12
            && ReadDigits(t[0..4]) == Some(d.year)
            && (!p.Year? ==> ReadDigits(t[4..6]) == Some(d.month))
            && (p.Day? ==> ReadDigits(t[6..8]) == Some(d.day))
  {
    hide Pad, DaysInMonth, Pow10, Number;
    Widths();
    PadReads(d.year, 4);
    PadReads(d.month, 2);
    PadReads(d.day, 2);
    var t := Payload(d, p);
    assert t[0..4] == Pad(d.year, 4);
    if !p.Year? { assert t[4..6] == Pad(d.month, 2); }
    if p.Day? { assert t[6..8] == Pad(d.day, 2); }
  }

  /** A generated id parses back to its precision and components exactly when its year is in the window. */
  lemma IdRoundTrip(d: Date, p: Precision)
    requires Plain(d)
    ensures DateNodeId(FormatIso(d), p).Success?
    ensures ParseDateNodeId(DateNodeId(FormatIso(d), p).value) ==
            if 1900 <= d.year <= 2200 then Some(ParsedId(p, Truncated(d, p))) else None
  {
    hide Pad, DaysInMonth, ReadDigits, ParseIsoDate, FormatIso, Payload;
    ParseFormat(d);
    PayloadReads(d, p);
    var id, t := DateNodeId(FormatIso(d), p).value, Payload(d, p);
    assert id == Prefix(p) + t;
    assert id[24..28] == t[0..4] && id[28..30] == t[4..6] && id[30..32] == t[6..8];
    assert id[21] == if p.Year? then 'b' else if p.Month? then 'a' else 'd';
  }

  /** The chain parent of a generated day is the generated month, of a month the generated year, of a year none. */
  lemma GeneratedChain(d: Date, p: Precision)
    requires Plain(d) && 1900 <= d.year <= 2200
    ensures DateNodeId(FormatIso(d), p).Success?
    ensures var parent := DateChainParentId(DateNodeId(FormatIso(d), p).value);
            match p
            case Year => parent == Success(None)
            case Month => DateNodeId(FormatIso(d), Year).Success? &&
                          parent == Success(Some(DateNodeId(FormatIso(d), Year).value))
            case Day => DateNodeId(FormatIso(d), Month).Success? &&
                        parent == Success(Some(DateNodeId(FormatIso(d), Month).value))
  {
    hide Pad, DaysInMonth, ParseIsoDate, FormatIso, ParseDateNodeId;
    IdRoundTrip(d, p);
    ParseFormat(d);
    ParseFormat(Truncated(d, p));
  }

  /** Asking for the chain parent throws exactly on a day id whose day its month does not have. */
  lemma ChainParentThrows(id: string)
    ensures DateChainParentId(id).Failure? <==>
            var parsed := ParseDateNodeId(id);
            parsed.Some? && parsed.value.precision.Day? &&
            parsed.value.date.day > DaysInMonth(parsed.value.date.year, parsed.value.date.month)
  {
    hide Pad, DaysInMonth, ReadDigits;
    var parsed := ParseDateNodeId(id);
    if parsed.Some? {
      var d := parsed.value.date;
      if d.day <= DaysInMonth(d.year, d.month) {
        ParseFormat(d);
      } else {
        UnrealDay(d);
      }
    }
  }

  /** The id of a day February 2025 does not have is recognised, yet has no chain parent to return. */
  lemma FebruaryThirtyFirstThrows()
    ensures ParseDateNodeId("00000000-0000-0000-00dd-202502310000") == Some(ParsedId(Day, Date(2025, 2, 31)))
    ensures DateChainParentId("00000000-0000-0000-00dd-202502310000").Failure?
  {
    hide Number, DaysInMonth, DateChainParentId;
    var id := "00000000-0000-0000-00dd-202502310000";
    assert id[24..28] == "2025" && id[28..30] == "02" && id[30..32] == "31";
    FourDigits("2025");
    TwoDigits("02");
    TwoDigits("31");
    ChainParentThrows(id);
  }

  lemma TwoDigits(s: string)
    requires |s| == 2 && AllDigits(s)
    ensures Number(s) == 10 * (s[0] - '0') as nat + (s[1] - '0') as nat
  {
    assert s[..1][..0] == [] && Number([]) == 0;
    assert Number(s[..1]) == (s[0] - '0') as nat;
  }

  lemma FourDigits(s: string)
    requires |s| == 4 && AllDigits(s)
    ensures Number(s) == 100 * Number(s[..2]) + 10 * (s[2] - '0') as nat + (s[3] - '0') as nat
    ensures Number(s[..2]) == 10 * (s[0] - '0') as nat + (s[1] - '0') as nat
  {
    assert s[..3][..2] == s[..2];
    TwoDigits(s[..2]);
  }

  lemma UnrealDay(d: Date)
    requires 100 <= d.year <= 9999 && 1 <= d.month <= 12 && 1 <= d.day <= 31
    requires DaysInMonth(d.year, d.month) < d.day
    ensures ParseIsoDate(FormatIso(d)).Failure?
  {
    hide Pad, DaysInMonth;
    if ParseIsoDate(FormatIso(d)).Success? {
      var e := ParseIsoDate(FormatIso(d)).value;
      PaddedShape(d);
      FormatParse(FormatIso(d));
      PaddedShape(e);
      SameFields(d, e);
    }
  }

  lemma PaddedShape(d: Date)
    requires 0 <= d.year <= 9999 && 0 <= d.month <= 99 && 0 <= d.day <= 99
    ensures |FormatIso(d)| == 10 && Trim(FormatIso(d)) == FormatIso(d)
    ensures FormatIso(d)[0..4] == Pad(d.year, 4) && FormatIso(d)[5..7] == Pad(d.month, 2)
    ensures FormatIso(d)[8..10] == Pad(d.day, 2)
  {
    hide Pad, Pow10;
    Widths();
    PadReads(d.year, 4);
    PadReads(d.month, 2);
    PadReads(d.day, 2);
    var y, n, s := Pad(d.year, 4), Pad(d.day, 2), FormatIso(d);
    assert s[0] == y[0] && s[9] == n[1];
    assert IsDigit(y[0]) && IsDigit(n[1]);
    NoTrim(s);
  }

  lemma SameFields(d: Date, e: Date)
    requires 0 <= d.year <= 9999 && 0 <= d.month <= 99 && 0 <= d.day <= 99
    requires 0 <= e.year <= 9999 && 0 <= e.month <= 99 && 0 <= e.day <= 99
    requires FormatIso(d) == FormatIso(e)
    ensures d == e
  {
    hide Pad, Pow10;
    Widths();
    PaddedShape(d);
    PaddedShape(e);
    PadOrder(d.year, e.year, 4);
    PadOrder(d.month, e.month, 2);
    PadOrder(d.day, e.day, 2);
  }

  // ----- ids, spelled out -----

  /** The ids of a day written in digits: they are made of the same digits. */
  lemma IdsSpelled(y: string, m: string, n: string)
    requires |y| == 4 && |m| == 2 && |n| == 2 && AllDigits(y) && AllDigits(m) && AllDigits(n)
    requires Valid(Date(Number(y), Number(m), Number(n)))
    requires Date(Number(y), Number(m), Number(n)) != Date(0, 2, 29)
    ensures var text := y + "-" + m + "-" + n;
            && ParseIsoDate(text) == Success(Date(Number(y), Number(m), Number(n)))
            && DateNodeId(text, Day) == Success("00000000-0000-0000-00dd-" + y + m + n + "0000")
            && DateNodeId(text, Month) == Success("00000000-0000-0000-00aa-" + y + m + "000000")
            && DateNodeId(text, Year) == Success("00000000-0000-0000-00bb-" + y + "00000000")
  {
    hide Pad, DaysInMonth, Number, ParseIsoDate;
    Widths();
    DigitsArePadded(y);
    DigitsArePadded(m);
    DigitsArePadded(n);
    var d := Date(Number(y), Number(m), Number(n));
    assert FormatIso(d) == y + "-" + m + "-" + n;
    ParseFormat(d);
    assert DAY_PREFIX + (y + m + n + "0000") == "00000000-0000-0000-00dd-" + y + m + n + "0000";
    assert MONTH_PREFIX + (y + m + "000000") == "00000000-0000-0000-00aa-" + y + m + "000000";
    assert YEAR_PREFIX + (y + "00000000") == "00000000-0000-0000-00bb-" + y + "00000000";
  }

  // ----- the payload orders chronologically -----

  /** Year, month and day of the node, with 0 for the components its precision leaves out. */
  function SortKey(d: Date, p: Precision): Date {
    match p
    case Year => Date(d.year, 0, 0)
    case Month => Date(d.year, d.month, 0)
    case Day => d
  }

  lemma PayloadIsKey(d: Date, p: Precision)
    requires Plain(d)
    ensures var k := SortKey(d, p);
            0 <= k.month < 100 && 0 <= k.day < 100 &&
            Payload(d, p) == Pad(k.year, 4) + (Pad(k.month, 2) + (Pad(k.day, 2) + "0000"))
  {
    hide DaysInMonth;
    assert Pad(0, 2) == "00" by {
      PadStep(0, 1);
      PadOne(0);
    }
  }

  /** Comparing payloads is comparing periods, a year before its months and a month before its days. */
  lemma PayloadOrder(a: Date, p: Precision, b: Date, q: Precision)
    requires Plain(a) && Plain(b)
    ensures StringLess(Payload(a, p), Payload(b, q)) <==> Less(SortKey(a, p), SortKey(b, q))
  {
    hide Pad, Pow10, DaysInMonth, StringLess, Payload;
    Widths();
    PayloadIsKey(a, p);
    PayloadIsKey(b, q);
    var j, k := SortKey(a, p), SortKey(b, q);
    PadOrder(j.year, k.year, 4);
    PadOrder(j.month, k.month, 2);
    PadOrder(j.day, k.day, 2);
    PadReads(j.year, 4);
    PadReads(k.year, 4);
    PadReads(j.month, 2);
    PadReads(k.month, 2);
    PadReads(j.day, 2);
    PadReads(k.day, 2);
    StringOrderTotal("0000", "0000");
    PrefixOrder(Pad(j.day, 2), Pad(k.day, 2), "0000", "0000");
    PrefixOrder(Pad(j.month, 2), Pad(k.month, 2), Pad(j.day, 2) + "0000", Pad(k.day, 2) + "0000");
    PrefixOrder(Pad(j.year, 4), Pad(k.year, 4),
                Pad(j.month, 2) + (Pad(j.day, 2) + "0000"), Pad(k.month, 2) + (Pad(k.day, 2) + "0000"));
  }
}
