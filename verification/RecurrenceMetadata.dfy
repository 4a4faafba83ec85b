/**
 The exception keys of a repeating date's metadata: reading them back after a
 writer changed them, and what the change does to the expanded series.
 */
module RecurrenceMetadata {
  import opened Calendar
  import opened IsoDates
  import opened Recurrence
  import opened Text
  import opened Wrappers

  /** The JSON values a metadata key may hold, as far as the readers tell them apart. */
  datatype Value = Null | Text(text: string) | Items(items: seq<Value>) | Other

  type Metadata = map<string, Value>

  datatype MetadataError = InvalidExdates | InvalidExdatesEntry | InvalidUntil | InvalidOccurrence

  predicate IsIsoText(v: Value) {
    v.Text? && IsIsoDay(v.text)
  }

  function TextsOf(items: seq<Value>): seq<string>
    requires forall i :: 0 <= i < |items| ==> items[i].Text?
  {
    seq(|items|, i requires 0 <= i < |items| => items[i].text)
  }

  /** The list without its repetitions, first occurrences kept in place. */
  function Deduped(xs: seq<string>): seq<string> {
    if xs == [] then []
    else
      var init, last := Deduped(xs[..|xs| - 1]), xs[|xs| - 1];
      if last in init then init else init + [last]
  }

  /** What the exdates key reads as: absent or null is the empty list, anything malformed is an error. */
  function ExdatesSpec(m: Metadata): Result<seq<string>, MetadataError> {
    if "exdates" !in m || m["exdates"].Null? then Success([])
    else if !m["exdates"].Items? then Failure(InvalidExdates)
    else
      var items := m["exdates"].items;
      if exists i :: 0 <= i < |items| && !IsIsoText(items[i]) then Failure(InvalidExdatesEntry)
      else Success(SortStrings(Deduped(TextsOf(items))))
  }

  method ExdatesOf(m: Metadata) returns (r: Result<seq<string>, MetadataError>)
    ensures r == ExdatesSpec(m)
  {
    hide IsIsoDay, SortStrings;
    if "exdates" !in m || m["exdates"].Null? { return Success([]); }
    if !m["exdates"].Items? { return Failure(InvalidExdates); }
    var raw := m["exdates"].items;
    var isos: seq<string> := [];
    for i := 0 to |raw|
      invariant forall j :: 0 <= j < i ==> IsIsoText(raw[j])
      invariant isos == Deduped(TextsOf(raw[..i]))
    {
      if !IsIsoText(raw[i]) { return Failure(InvalidExdatesEntry); }
      assert TextsOf(raw[..i + 1])[..i] == TextsOf(raw[..i]);
      if raw[i].text !in isos { isos := isos + [raw[i].text]; }
    }
    assert raw[..|raw|] == raw;
    return Success(SortStrings(isos));
  }

  function UntilOf(m: Metadata): Result<Option<string>, MetadataError> {
    if "until" !in m || m["until"].Null? then Success(None)
    else if !IsIsoText(m["until"]) then Failure(InvalidUntil)
    else Success(Some(m["until"].text))
  }

  function WithExdate(m: Metadata, iso: string): Result<Metadata, MetadataError> {
    if !IsIsoDay(iso) then Failure(InvalidOccurrence) else
    var prior := ExdatesSpec(m);
    if prior.Failure? then Failure(prior.error) else
    var next := SortStrings(prior.value + [iso]);
    Success(m["exdates" := Items(seq(|next|, i requires 0 <= i < |next| => Text(next[i])))])
  }

  function WithUntil(m: Metadata, iso: Option<string>): Result<Metadata, MetadataError> {
    if iso.None? then Success(m - {"until"})
    else if !IsIsoDay(iso.value) then Failure(InvalidUntil)
    else Success(m["until" := Text(iso.value)])
  }

  // ----- reading back what was written -----

  lemma {:induction false} DedupedExact(xs: seq<string>)
    ensures NoDuplicates(Deduped(xs))
    ensures forall x :: x in Deduped(xs) <==> x in xs
  {
    if xs != [] {
      DedupedExact(xs[..|xs| - 1]);
      assert xs == xs[..|xs| - 1] + [xs[|xs| - 1]];
    }
  }

  /** The list read is strictly ascending and holds exactly the listed days, each a real ISO day. */
  lemma ExdatesExact(m: Metadata)
    requires ExdatesSpec(m).Success?
    ensures var isos := ExdatesSpec(m).value;
            && (forall i, j :: 0 <= i < j < |isos| ==> StringLess(isos[i], isos[j]))
            && (forall x :: x in isos ==> IsIsoDay(x))
            && (forall x :: x in isos <==> "exdates" in m && m["exdates"].Items? && Text(x) in m["exdates"].items)
  {
    hide IsIsoDay, StringLess;
    if "exdates" in m && m["exdates"].Items? {
      var items := m["exdates"].items;
      var texts := TextsOf(items);
      DedupedExact(texts);
      SortDistinct(Deduped(texts));
      SortMembers(Deduped(texts));
      forall x ensures x in texts <==> Text(x) in items {
        if x in texts { var i :| 0 <= i < |texts| && texts[i] == x; assert items[i] == Text(x); }
        if Text(x) in items { var i :| 0 <= i < |items| && items[i] == Text(x); assert texts[i] == x; }
      }
      forall x | x in texts ensures IsIsoDay(x) {
        var i :| 0 <= i < |texts| && texts[i] == x;
        assert IsIsoText(items[i]);
      }
    }
  }

  /** Excluding a day adds exactly that day to the list, keeps the list readable and touches no other key. */
  lemma ExdateRoundTrip(m: Metadata, iso: string)
    ensures WithExdate(m, iso).Success? <==> IsIsoDay(iso) && ExdatesSpec(m).Success?
    ensures WithExdate(m, iso).Success? ==>
            var next := WithExdate(m, iso).value;
            && next - {"exdates"} == m - {"exdates"}
            && ExdatesSpec(next).Success?
            && forall x :: x in ExdatesSpec(next).value <==> x in ExdatesSpec(m).value || x == iso
  {
    hide IsIsoDay, StringLess, SortStrings, Deduped;
    if WithExdate(m, iso).Success? {
      var next := WithExdate(m, iso).value;
      var prior := ExdatesSpec(m).value;
      var list := SortStrings(prior + [iso]);
      ExdatesExact(m);
      SortMembers(prior + [iso]);
      var items := next["exdates"].items;
      forall i | 0 <= i < |items| ensures IsIsoText(items[i]) {
        assert list[i] in list;
      }
      ExdatesExact(next);
      forall x ensures Text(x) in items <==> x in list {
        if x in list { var i :| 0 <= i < |list| && list[i] == x; assert items[i] == Text(x); }
      }
    }
  }

  /** Setting the bound is read back, clearing it removes the key, and no other key changes. */
  lemma UntilRoundTrip(m: Metadata, iso: Option<string>)
    ensures WithUntil(m, iso).Success? <==> (iso.Some? ==> IsIsoDay(iso.value))
    ensures WithUntil(m, iso).Success? ==>
            var next := WithUntil(m, iso).value;
            UntilOf(next) == Success(iso) && next - {"until"} == m - {"until"} && ("until" in next <==> iso.Some?)
  {
    hide IsIsoDay;
    var cleared := m - {"until"};
    assert cleared - {"until"} == cleared;
    if iso.Some? {
      assert m["until" := Text(iso.value)] - {"until"} == cleared;
    }
  }

  // ----- the series the metadata describes -----

  function DayOf(iso: string): Date
    requires IsIsoDay(iso)
  {
    ParseIsoDate(iso).value
  }

  /** The expansion input read out of the metadata: rule and anchor given, exceptions from the keys. */
  ghost function SeriesOf(rule: Rule, anchor: Date, m: Metadata): Result<Series, MetadataError> {
    var exdates := ExdatesSpec(m);
    var until := UntilOf(m);
    if exdates.Failure? then Failure(exdates.error)
    else if until.Failure? then Failure(until.error)
    else
      Success(Series(rule, anchor, set x | x in exdates.value && IsIsoDay(x) :: DayOf(x),
                     if until.value.None? then None else Some(DayOf(until.value.value))))
  }

  lemma DayOfFormat(d: Date)
    requires Plain(d)
    ensures IsIsoDay(FormatIso(d)) && DayOf(FormatIso(d)) == d
  {
    ParseFormat(d);
  }

  /** "Only this event": writing the exclusion removes exactly that day from the series. */
  lemma ExcludeOne(rule: Rule, anchor: Date, m: Metadata, d: Date, n: int)
    requires SeriesOf(rule, anchor, m).Success? && Plain(d)
    ensures var w := WithExdate(m, FormatIso(d));
            && w.Success? && SeriesOf(rule, anchor, w.value).Success?
            && (Kept(SeriesOf(rule, anchor, w.value).value, n) <==>
                Kept(SeriesOf(rule, anchor, m).value, n) && FromDay(n) != d)
  {
    hide IsIsoDay, ExdatesSpec, WithExdate, FromDay, Occurs, DayOf, Less;
    DayOfFormat(d);
    var iso := FormatIso(d);
    ExdateRoundTrip(m, iso);
    var next := WithExdate(m, iso).value;
    assert UntilOf(next) == UntilOf(m) by {
      assert "until" in next <==> "until" in next - {"exdates"};
      assert "until" in m <==> "until" in m - {"exdates"};
      if "until" in m { assert (next - {"exdates"})["until"] == (m - {"exdates"})["until"]; }
    }
    var s, t := SeriesOf(rule, anchor, m).value, SeriesOf(rule, anchor, next).value;
    assert t.exdates == s.exdates + {d};
  }

  /** The split's bound: writing the day before d bounds the series there and changes nothing else. */
  lemma BoundBefore(rule: Rule, anchor: Date, m: Metadata, last: Date)
    requires SeriesOf(rule, anchor, m).Success? && Plain(last)
    ensures var w := WithUntil(m, Some(FormatIso(last)));
            w.Success? &&
            SeriesOf(rule, anchor, w.value) == Success(SeriesOf(rule, anchor, m).value.(until := Some(last)))
  {
    hide IsIsoDay, DayOf;
    DayOfFormat(last);
    var next := m["until" := Text(FormatIso(last))];
    assert ExdatesSpec(next) == ExdatesSpec(m);
  }
}
