/**
 What the split leaves as plain text: no markdown span with an allowed scheme, and no
 bare URL that the pass would still link.
 */
module LinkCompleteness {
  import opened LinkGrammar
  import opened LinkSplit
  import opened Wrappers

  lemma WordInSlice(text: string, a: nat, b: nat, j: nat, word: string)
    requires a <= a + j <= b <= |text|
    ensures HasWord(text[a..b], j, word) <==> HasWord(text, a + j, word) && a + j + |word| <= b
  {
    hide Lower;
    var slice := text[a..b];
    assert forall m :: 0 <= m < |slice| ==> slice[m] == text[a + m];
  }

  lemma WordChar(text: string, i: nat, word: string, k: nat)
    requires k < |word| && i + k < |text|
    ensures HasWord(text, i, word) ==> Lower(text[i + k]) == word[k]
  {
    hide Lower;
  }

  /** No text has both schemes at one place. */
  lemma OneScheme(text: string, i: nat)
    requires HasWord(text, i, "https://")
    ensures !HasWord(text, i, "http://")
  {
    hide Lower;
    WordChar(text, i, "https://", 4);
    WordChar(text, i, "http://", 4);
  }

  lemma SchemeInSlice(text: string, a: nat, b: nat, j: nat)
    requires a <= a + j <= b <= |text|
    ensures SchemeLength(text[a..b], j) > 0 ==> SchemeLength(text, a + j) == SchemeLength(text[a..b], j)
    ensures a + j + SchemeLength(text, a + j) <= b ==> SchemeLength(text[a..b], j) == SchemeLength(text, a + j)
  {
    hide HasWord;
    WordInSlice(text, a, b, j, "https://");
    WordInSlice(text, a, b, j, "http://");
    if HasWord(text, a + j, "https://") { OneScheme(text, a + j); }
  }

  lemma {:induction false} RunInSlice(text: string, a: nat, b: nat, j: nat)
    requires a <= a + j <= b <= |text|
    ensures RunEnd(text[a..b], j, UrlChar) ==
            (if RunEnd(text, a + j, UrlChar) <= b then RunEnd(text, a + j, UrlChar) else b) - a
    decreases b - a - j
  {
    hide UrlChar;
    if a + j < b {
      assert text[a..b][j] == text[a + j];
      if UrlChar(text[a + j]) { RunInSlice(text, a, b, j + 1); }
    }
  }

  lemma SchemeFits(text: string, i: nat)
    requires i <= |text|
    ensures i + SchemeLength(text, i) <= |text|
  {
  }

  /** A bare URL in a part of the text is one in the text, cut off where the part ends. */
  lemma BareInSlice(text: string, a: nat, b: nat, j: nat)
    requires a <= a + j <= b <= |text|
    ensures BareEnd(text[a..b], j) > 0 ==> BareEnd(text, a + j) > 0
    ensures 0 < BareEnd(text, a + j) <= b ==> BareEnd(text[a..b], j) == BareEnd(text, a + j) - a
  {
    hide RunEnd, SchemeLength, UrlChar;
    var slice := text[a..b];
    SchemeInSlice(text, a, b, j);
    SchemeFits(text, a + j);
    SchemeFits(slice, j);
    if a + j + SchemeLength(text, a + j) <= b { RunInSlice(text, a, b, j + SchemeLength(text, a + j)); }
  }

  lemma FirstOfSlice(text: string, a: nat, from: nat, b: nat)
    requires a <= from <= b <= |text|
    requires FirstBare(text, from).Some? && BareEnd(text, FirstBare(text, from).value) <= b
    ensures FirstBare(text[a..b], from - a) == Some(FirstBare(text, from).value - a)
    ensures BareEnd(text[a..b], FirstBare(text, from).value - a) == BareEnd(text, FirstBare(text, from).value) - a
  {
    hide BareEnd, FirstBare;
    var slice, s := text[a..b], FirstBare(text, from).value;
    var here := FirstBare(slice, from - a);
    NoneBefore(text, from);
    NoneBefore(slice, from - a);
    BareInSlice(text, a, b, s - a);
    BareInSlice(text, a, b, if here.Some? then here.value else 0);
  }

  lemma EndOfSlice(text: string, a: nat, from: nat, b: nat)
    requires a <= from <= b <= |text|
    requires FirstBare(text, from).None? || FirstBare(text, from).value >= b
    ensures FirstBare(text[a..b], from - a).None?
  {
    hide BareEnd, FirstBare;
    var here := FirstBare(text[a..b], from - a);
    NoneBefore(text, from);
    NoBareAtEnd(text[a..b]);
    BareInSlice(text, a, b, if here.Some? then here.value else 0);
  }

  lemma NoBareAtEnd(text: string)
    ensures BareEnd(text, |text|) == 0
  {
    hide RunEnd;
  }

  /** The two ways a search for the next link goes on. */
  lemma NextLinkTurn(text: string, from: nat)
    requires from <= |text|
    ensures var first := FirstBare(text, from);
            NextLink(text, from) == if first.None? || LinkableBare(HrefAt(text, first.value)) then first
                                    else NextLink(text, BareEnd(text, first.value))
    ensures var r := NextLink(text, from); r.Some? ==> from <= r.value <= |text| && BareEnd(text, r.value) > 0
  {
  }

  /** Looking for a link in the stretch before the next one finds none. */
  lemma {:induction false} QuietSlice(text: string, a: nat, from: nat, b: nat)
    requires a <= from <= b <= |text|
    requires NextLink(text, from) == Some(b) || (NextLink(text, from).None? && b == |text|)
    ensures NextLink(text[a..b], from - a).None?
    decreases |text| - from
  {
    hide BareEnd, LinkableBare, Trimmed, NextLink, FirstBare, HrefAt;
    var slice, first := text[a..b], FirstBare(text, from);
    NextLinkTurn(text, from);
    NextLinkTurn(slice, from - a);
    if first.Some? && first.value < b {
      var s, e := first.value, BareEnd(text, first.value);
      NextLinkTurn(text, e);
      FirstOfSlice(text, a, from, b);
      SameHref(text, a, b, s);
      QuietSlice(text, a, e, b);
    } else {
      EndOfSlice(text, a, from, b);
    }
  }

  lemma SameHref(text: string, a: nat, b: nat, s: nat)
    requires a <= s <= b <= |text| && 0 < BareEnd(text, s) <= b
    requires BareEnd(text[a..b], s - a) == BareEnd(text, s) - a
    ensures HrefAt(text[a..b], s - a) == HrefAt(text, s)
  {
    hide BareEnd;
    SliceOfSlice(text, a, b - a, s - a, BareEnd(text, s) - a);
  }

  lemma NoSchemeInTail(text: string, i: nat)
    requires i < |text| && text[i] in ".,;:!?=)]"
    ensures BareEnd(text, i) == 0
  {
    hide RunEnd;
    WordChar(text, i, "https://", 0);
    WordChar(text, i, "http://", 0);
  }

  /** No URL begins in the trimmed tail of another. */
  lemma {:induction false} TailIsQuiet(text: string, n: nat)
    requires n <= |text| && forall k :: 0 <= k < n ==> text[k] in ".,;:!?=)]"
    ensures FirstBare(text, 0) == FirstBare(text, n)
    decreases n
  {
    hide BareEnd;
    if n > 0 {
      TailIsQuiet(text, n - 1);
      NoSchemeInTail(text, n - 1);
    }
  }

  lemma QuietIsPlain(text: string)
    requires text != "" && NextLink(text, 0).None?
    ensures SplitBare(text) == [Plain(text)]
  {
    hide NextLink;
    assert text[0..|text|] == text;
  }

  /** Splitting a plain segment again leaves it as it is. */
  ghost predicate Settled(segments: seq<Segment>) {
    forall s :: s in segments && s.Plain? ==> SplitBare(s.text) == [s]
  }

  lemma LeadSettled(text: string, cursor: nat, from: nat, b: nat)
    requires cursor <= from <= b <= |text|
    requires NextLink(text, from) == Some(b) || (NextLink(text, from).None? && b == |text|)
    requires forall k :: cursor <= k < from ==> text[k] in ".,;:!?=)]"
    ensures Settled(Lead(text, cursor, b))
  {
    hide NextLink, SplitBare, FirstBare, BareEnd, LinkableBare, Trimmed;
    if cursor < b {
      var slice := text[cursor..b];
      QuietSlice(text, cursor, from, b);
      assert forall k :: 0 <= k < from - cursor ==> slice[k] == text[cursor + k];
      TailIsQuiet(slice, from - cursor);
      NextLinkTurn(slice, 0);
      NextLinkTurn(slice, from - cursor);
      QuietIsPlain(slice);
    }
  }

  lemma {:induction false} BarePassSettled(text: string, cursor: nat, from: nat)
    requires cursor <= from <= |text|
    requires forall k :: cursor <= k < from ==> text[k] in ".,;:!?=)]"
    ensures Settled(BarePass(text, cursor, from))
    decreases |text| - from
  {
    hide NextLink, SplitBare, LinkableBare, Trimmed, BareEnd, Lead;
    match NextLink(text, from)
    case None => LeadSettled(text, cursor, from, |text|);
    case Some(i) =>
      NextLinkTurn(text, from);
      var href, e := HrefAt(text, i), BareEnd(text, i);
      LeadSettled(text, cursor, from, i);
      TailChars(text, i, e);
      BarePassSettled(text, i + |href|, e);
      SettledJoin(Lead(text, cursor, i), Link(href, href), BarePass(text, i + |href|, e));
  }

  lemma TailChars(text: string, i: nat, e: nat)
    requires i <= e <= |text|
    ensures forall k :: i + |Trimmed(text[i..e])| <= k < e ==> text[k] in ".,;:!?=)]"
  {
    forall k | i + |Trimmed(text[i..e])| <= k < e ensures text[k] in ".,;:!?=)]" {
      TrimsTailOnly(text[i..e], k - i);
      assert text[i..e][k - i] == text[k];
    }
  }

  lemma SettledJoin(a: seq<Segment>, link: Segment, b: seq<Segment>)
    requires Settled(a) && link.Link? && Settled(b)
    ensures Settled(a + [link] + b)
  {
    hide SplitBare;
  }

  lemma SplitBareSettled(text: string)
    ensures Settled(SplitBare(text))
  {
    if text != "" { BarePassSettled(text, 0, 0); }
  }

  /** No span with an allowed scheme is inside the text. */
  ghost predicate NoSafeSpan(text: string) {
    forall i: nat, name, href :: IsSpan(text, i, name, href) ==> !AllowedScheme(href)
  }

  ghost predicate NoneMissed(segments: seq<Segment>) {
    forall s :: s in segments && s.Plain? ==> NoSafeSpan(s.text)
  }

  lemma SpanInSlice(text: string, a: nat, b: nat, i: nat, name: string, href: string)
    requires a <= b <= |text| && IsSpan(text[a..b], i, name, href)
    ensures IsSpan(text, a + i, name, href) && a + i + |Spelled(name, href)| <= b
  {
    hide IsLabel, IsHref, Spelled;
    SliceOfSlice(text, a, b - a, i, i + |Spelled(name, href)|);
  }

  lemma SliceNoSafeSpan(text: string, a: nat, b: nat)
    requires a <= b <= |text| && NoSafeSpan(text)
    ensures NoSafeSpan(text[a..b])
  {
    hide IsSpan, AllowedScheme;
    forall i: nat, name, href | IsSpan(text[a..b], i, name, href) ensures !AllowedScheme(href) {
      SpanInSlice(text, a, b, i, name, href);
    }
  }

  lemma RegionChars(name: string, href: string)
    requires IsLabel(name) && IsHref(href)
    ensures var span := Spelled(name, href);
            && (forall p :: 1 <= p < 1 + |name| ==> LabelChar(span[p]))
            && (forall p :: 3 + |name| <= p < 3 + |name| + |href| ==> HrefChar(span[p]))
  {
    var span := Spelled(name, href);
    SpelledChars(name, href);
    forall p | 1 <= p < 1 + |name| ensures LabelChar(span[p]) { assert span[1..1 + |name|][p - 1] == span[p]; }
    forall p | 3 + |name| <= p < 3 + |name| + |href| ensures HrefChar(span[p]) {
      assert span[3 + |name|..3 + |name| + |href|][p - 3 - |name|] == span[p];
    }
  }

  /** The only closing bracket followed by an opening parenthesis in a span is its own. */
  lemma OneTurn(name: string, href: string, p: nat)
    requires IsLabel(name) && IsHref(href) && p + 1 < |Spelled(name, href)|
    requires Spelled(name, href)[p] == ']' && Spelled(name, href)[p + 1] == '('
    ensures p == 1 + |name|
  {
    hide Spelled;
    SpelledChars(name, href);
    RegionChars(name, href);
  }

  /** A span inside a span has the same href. */
  lemma SpanInsideSpan(name: string, href: string, i: nat, inner: string, target: string)
    requires IsLabel(name) && IsHref(href) && IsSpan(Spelled(name, href), i, inner, target)
    ensures target == href
  {
    hide Spelled, IsLabel, IsHref;
    var outer := Spelled(name, href);
    SpanRegions(outer, i, inner, target);
    OneTurn(name, href, i + 1 + |inner|);
    SpelledChars(name, href);
    SpanNames(outer, i, inner, target);
    HrefRun(outer, 3 + |name|, 3 + |name| + |href|);
    HrefRun(outer, 3 + |name|, 3 + |name| + |target|);
  }

  lemma SpanNames(text: string, i: nat, name: string, href: string)
    requires IsSpan(text, i, name, href)
    ensures IsLabel(name) && IsHref(href)
  {
  }

  lemma RawNoSafeSpan(text: string, i: nat, name: string, href: string)
    requires IsSpan(text, i, name, href) && !AllowedScheme(href)
    ensures NoSafeSpan(text[i..i + |Spelled(name, href)|])
  {
    hide AllowedScheme, IsSpan, Spelled;
    SpanNames(text, i, name, href);
    SpanSource(text, i, name, href);
    forall j: nat, inner, target | IsSpan(Spelled(name, href), j, inner, target) ensures !AllowedScheme(target) {
      SpanInsideSpan(name, href, j, inner, target);
    }
  }

  lemma LeadNoSafeSpan(text: string, cursor: nat, b: nat)
    requires cursor <= b <= |text|
    requires FirstSpan(text, cursor) == Some(b) || (FirstSpan(text, cursor).None? && b == |text|)
    ensures NoSafeSpan(text[cursor..b])
  {
    hide IsSpan, AllowedScheme, SpanAt, FirstSpan, Spelled;
    forall i: nat, name, href | IsSpan(text[cursor..b], i, name, href) ensures !AllowedScheme(href) {
      SpanInSlice(text, cursor, b, i, name, href);
      SpanSource(text, cursor + i, name, href);
      SpanIsFound(text, cursor + i, name, href);
    }
  }

  lemma NoneMissedJoin(a: seq<Segment>, segment: Segment, b: seq<Segment>)
    requires NoneMissed(a) && (segment.Link? || NoSafeSpan(segment.text)) && NoneMissed(b)
    ensures NoneMissed(a + [segment] + b)
  {
    hide NoSafeSpan;
  }

  lemma {:induction false} MarkdownPassMissesNone(text: string, cursor: nat)
    requires cursor <= |text|
    ensures NoneMissed(MarkdownPass(text, cursor))
    decreases |text| - cursor
  {
    hide NoSafeSpan, IsSpan, AllowedScheme, Spelled, SpanAt;
    match FirstSpan(text, cursor)
    case None => LeadNoSafeSpan(text, cursor, |text|);
    case Some(i) =>
      var (name, href) := SpanAt(text, i).value;
      SpanIsThere(text, i);
      SpanSource(text, i, name, href);
      LeadNoSafeSpan(text, cursor, i);
      if !AllowedScheme(href) { RawNoSafeSpan(text, i, name, href); }
      var end := i + |Spelled(name, href)|;
      MarkdownPassMissesNone(text, end);
      NoneMissedJoin(Lead(text, cursor, i), SpanSegment(name, href), MarkdownPass(text, end));
  }

  /** Every plain segment of the bare pass is a part of the text. */
  lemma {:induction false} BarePassMissesNone(text: string, cursor: nat, from: nat)
    requires cursor <= from <= |text| && NoSafeSpan(text)
    ensures NoneMissed(BarePass(text, cursor, from))
    decreases |text| - from
  {
    hide NoSafeSpan, LinkableBare, NextLink, BareEnd, Trimmed;
    NextLinkTurn(text, from);
    match NextLink(text, from)
    case None => SliceNoSafeSpan(text, cursor, |text|);
    case Some(i) =>
      var href, e := HrefAt(text, i), BareEnd(text, i);
      SliceNoSafeSpan(text, cursor, i);
      BarePassMissesNone(text, i + |href|, e);
      NoneMissedJoin(Lead(text, cursor, i), Link(href, href), BarePass(text, i + |href|, e));
  }

  lemma {:induction false} LinkifyMissesNone(segments: seq<Segment>)
    requires NoneMissed(segments)
    ensures NoneMissed(Linkify(segments)) && Settled(Linkify(segments))
  {
    hide NoSafeSpan, SplitBare;
    if segments != [] {
      var init, last := segments[..|segments| - 1], segments[|segments| - 1];
      LinkifyMissesNone(init);
      if last.Plain? {
        SplitBareSettled(last.text);
        SplitBareMissesNone(last.text);
      }
    }
  }

  lemma SplitBareMissesNone(text: string)
    requires NoSafeSpan(text)
    ensures NoneMissed(SplitBare(text))
  {
    hide NoSafeSpan;
    if text != "" { BarePassMissesNone(text, 0, 0); }
  }

  /** What is left as plain text holds no safe markdown span, and no bare URL the pass would still link. */
  lemma SplitMissesNone(text: string)
    ensures NoneMissed(Split(text)) && Settled(Split(text))
  {
    if text == "" { NoSpanInNothing(); } else { MarkdownPassMissesNone(text, 0); }
    LinkifyMissesNone(Markdown(text));
  }

  lemma NoSpanInNothing()
    ensures NoSafeSpan("")
  {
  }
}
