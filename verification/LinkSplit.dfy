/** Splitting a text into plain segments and links, and what the split keeps. */
module LinkSplit {
  import opened LinkGrammar
  import opened Wrappers

  datatype Segment = Plain(text: string) | Link(text: string, href: string)

  // ----- the bare pass -----

  function HrefAt(text: string, i: nat): string
    requires i <= |text| && BareEnd(text, i) > 0
  {
    Trimmed(text[i..BareEnd(text, i)])
  }

  /** The next bare URL that can be linked; the others are stepped over whole. */
  function NextLink(text: string, from: nat): (r: Option<nat>)
    requires from <= |text|
    ensures r.Some? ==> from <= r.value <= |text| && BareEnd(text, r.value) > 0 && LinkableBare(HrefAt(text, r.value))
    decreases |text| - from
  {
    var first := FirstBare(text, from);
    if first.None? || LinkableBare(HrefAt(text, first.value)) then first
    else NextLink(text, BareEnd(text, first.value))
  }

  function Lead(text: string, cursor: nat, i: nat): seq<Segment>
    requires cursor <= i <= |text|
  {
    if cursor < i then [Plain(text[cursor..i])] else []
  }

  /** The segments of text[cursor..], the search for URLs going on at `from`. */
  function BarePass(text: string, cursor: nat, from: nat): seq<Segment>
    requires cursor <= from <= |text|
    decreases |text| - from
  {
    match NextLink(text, from)
    case None => Lead(text, cursor, |text|)
    case Some(i) =>
      var href := HrefAt(text, i);
      Lead(text, cursor, i) + [Link(href, href)] + BarePass(text, i + |href|, BareEnd(text, i))
  }

  function SplitBare(text: string): seq<Segment> {
    if text == "" then [Plain("")] else BarePass(text, 0, 0)
  }

  // ----- the markdown pass -----

  function MarkdownPass(text: string, cursor: nat): seq<Segment>
    requires cursor <= |text|
    decreases |text| - cursor
  {
    match FirstSpan(text, cursor)
    case None => Lead(text, cursor, |text|)
    case Some(i) =>
      var (name, href) := SpanAt(text, i).value;
      var end := i + |Spelled(name, href)|;
      SpanIsThere(text, i);
      var segment := if AllowedScheme(href) then Link(name, href) else Plain(text[i..end]);
      Lead(text, cursor, i) + [segment] + MarkdownPass(text, end)
  }

  function Markdown(text: string): seq<Segment> {
    if text == "" then [Plain("")] else MarkdownPass(text, 0)
  }

  /** The bare pass over the plain segments; links are left alone. */
  function Linkify(segments: seq<Segment>): seq<Segment> {
    if segments == [] then []
    else
      var last := segments[|segments| - 1];
      Linkify(segments[..|segments| - 1]) + if last.Link? then [last] else SplitBare(last.text)
  }

  function Split(text: string): seq<Segment> {
    Linkify(Markdown(text))
  }

  // ----- losslessness -----

  /** The text a segment was read from; a link's scheme is allowed and a bare link's tail is clean. */
  ghost predicate SourceOf(segment: Segment, source: string) {
    match segment
    case Plain(text) => source == text
    case Link(name, href) =>
      && AllowedScheme(href)
      && ((IsLabel(name) && IsHref(href) && source == Spelled(name, href)) ||
          (name == href && CleanTail(href) && LinkableBare(href) && source == href))
  }

  ghost function Concat(sources: seq<string>): string {
    if sources == [] then "" else sources[0] + Concat(sources[1..])
  }

  ghost predicate Spells(segments: seq<Segment>, sources: seq<string>) {
    |sources| == |segments| && forall i :: 0 <= i < |segments| ==> SourceOf(segments[i], sources[i])
  }

  /** The sources of the segments, put together, are the text. */
  ghost predicate Lossless(segments: seq<Segment>, text: string) {
    exists sources :: Spells(segments, sources) && Concat(sources) == text
  }

  lemma {:induction false} ConcatJoins(a: seq<string>, b: seq<string>)
    ensures Concat(a + b) == Concat(a) + Concat(b)
  {
    if a == [] {
      assert a + b == b;
    } else {
      ConcatJoins(a[1..], b);
      assert (a + b)[1..] == a[1..] + b;
    }
  }

  lemma LosslessJoins(a: seq<Segment>, s: string, b: seq<Segment>, t: string)
    requires Lossless(a, s) && Lossless(b, t)
    ensures Lossless(a + b, s + t)
  {
    hide SourceOf;
    var x :| Spells(a, x) && Concat(x) == s;
    var y :| Spells(b, y) && Concat(y) == t;
    ConcatJoins(x, y);
    assert Spells(a + b, x + y);
  }

  lemma LosslessOne(segment: Segment, source: string)
    requires SourceOf(segment, source)
    ensures Lossless([segment], source)
  {
    hide SourceOf;
    assert Spells([segment], [source]);
    assert Concat([source]) == source + Concat([]);
  }

  lemma LosslessLead(text: string, cursor: nat, i: nat)
    requires cursor <= i <= |text|
    ensures Lossless(Lead(text, cursor, i), text[cursor..i])
  {
    if cursor < i {
      LosslessOne(Plain(text[cursor..i]), text[cursor..i]);
    } else {
      assert Spells([], []) && Concat([]) == text[cursor..i];
    }
  }

  lemma LosslessThree(a: seq<Segment>, s: string, b: Segment, t: string, c: seq<Segment>, u: string)
    requires Lossless(a, s) && SourceOf(b, t) && Lossless(c, u)
    ensures Lossless(a + [b] + c, s + t + u)
  {
    hide Lossless, SourceOf;
    LosslessOne(b, t);
    LosslessJoins(a, s, [b], t);
    LosslessJoins(a + [b], s + t, c, u);
  }

  lemma Pieces(text: string, a: nat, b: nat, c: nat)
    requires a <= b <= c <= |text|
    ensures text[a..b] + text[b..c] + text[c..] == text[a..]
    ensures text[a..|text|] == text[a..]
  {
  }

  lemma {:induction false} BarePassLossless(text: string, cursor: nat, from: nat)
    requires cursor <= from <= |text|
    ensures Lossless(BarePass(text, cursor, from), text[cursor..])
    decreases |text| - from
  {
    hide Lossless, SourceOf, Lead, NextLink, LinkableBare, CleanTail, BareEnd;
    match NextLink(text, from)
    case None =>
      LosslessLead(text, cursor, |text|);
      Pieces(text, cursor, |text|, |text|);
    case Some(i) =>
      var href, e := HrefAt(text, i), BareEnd(text, i);
      assert href == text[i..e][..|href|] == text[i..i + |href|];
      LosslessLead(text, cursor, i);
      BareSource(href);
      BarePassLossless(text, i + |href|, e);
      LosslessThree(Lead(text, cursor, i), text[cursor..i], Link(href, href), href,
                    BarePass(text, i + |href|, e), text[i + |href|..]);
      Pieces(text, cursor, i, i + |href|);
  }

  lemma BareSource(href: string)
    requires LinkableBare(href) && CleanTail(href)
    ensures SourceOf(Link(href, href), href)
  {
    LinkableIsAllowed(href);
  }

  /** A span is kept as a link, or as it is spelled when its scheme is not allowed. */
  function SpanSegment(name: string, href: string): Segment {
    if AllowedScheme(href) then Link(name, href) else Plain(Spelled(name, href))
  }

  lemma SpanSource(text: string, i: nat, name: string, href: string)
    requires IsSpan(text, i, name, href)
    ensures i + |Spelled(name, href)| <= |text| && text[i..i + |Spelled(name, href)|] == Spelled(name, href)
    ensures |Spelled(name, href)| > 0 && SourceOf(SpanSegment(name, href), Spelled(name, href))
  {
  }

  lemma {:induction false} MarkdownPassLossless(text: string, cursor: nat)
    requires cursor <= |text|
    ensures Lossless(MarkdownPass(text, cursor), text[cursor..])
    decreases |text| - cursor
  {
    hide Lossless, SourceOf, Lead, IsSpan, Spelled, AllowedScheme, SpanAt;
    match FirstSpan(text, cursor)
    case None =>
      LosslessLead(text, cursor, |text|);
      Pieces(text, cursor, |text|, |text|);
    case Some(i) =>
      var (name, href) := SpanAt(text, i).value;
      SpanIsThere(text, i);
      SpanSource(text, i, name, href);
      var end := i + |Spelled(name, href)|;
      LosslessLead(text, cursor, i);
      MarkdownPassLossless(text, end);
      LosslessThree(Lead(text, cursor, i), text[cursor..i], SpanSegment(name, href), Spelled(name, href),
                    MarkdownPass(text, end), text[end..]);
      Pieces(text, cursor, i, end);
  }

  lemma SplitBareLossless(text: string)
    ensures Lossless(SplitBare(text), text)
  {
    hide Lossless;
    if text == "" {
      LosslessOne(Plain(""), "");
    } else {
      BarePassLossless(text, 0, 0);
      assert text[0..] == text;
    }
  }

  lemma {:induction false} LinkifyLossless(segments: seq<Segment>, sources: seq<string>)
    requires Spells(segments, sources)
    ensures Lossless(Linkify(segments), Concat(sources))
    decreases |segments|
  {
    hide Lossless, SourceOf, SplitBare;
    if segments == [] {
      NothingLossless();
    } else {
      var n := |segments| - 1;
      var last, from := segments[n], sources[n];
      LinkifyLossless(segments[..n], sources[..n]);
      SegmentLossless(last, from);
      assert sources == sources[..n] + [from];
      ConcatJoins(sources[..n], [from]);
      assert Concat([from]) == from + Concat([]) == from;
      LosslessJoins(Linkify(segments[..n]), Concat(sources[..n]),
                    if last.Link? then [last] else SplitBare(last.text), from);
    }
  }

  lemma NothingLossless()
    ensures Lossless([], "")
  {
    assert Spells([], []);
  }

  lemma SegmentLossless(segment: Segment, source: string)
    requires SourceOf(segment, source)
    ensures Lossless(if segment.Link? then [segment] else SplitBare(segment.text), source)
  {
    hide Lossless;
    if segment.Link? { LosslessOne(segment, source); } else { SplitBareLossless(segment.text); }
  }

  /** Nothing of the text is lost or made up, and every link in the result is a safe one. */
  lemma SplitLossless(text: string)
    ensures Lossless(Split(text), text)
  {
    hide SourceOf;
    if text == "" {
      LosslessOnePlain();
    } else {
      MarkdownPassLossless(text, 0);
      assert text[0..] == text;
    }
    var sources :| Spells(Markdown(text), sources) && Concat(sources) == text;
    LinkifyLossless(Markdown(text), sources);
  }

  lemma LosslessOnePlain()
    ensures Lossless([Plain("")], "")
  {
    LosslessOne(Plain(""), "");
  }
}
