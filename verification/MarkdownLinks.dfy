/** The scanning loops, each proved to compute the split and so all that is proved of it. */
module MarkdownLinks {
  import opened LinkCompleteness
  import opened LinkGrammar
  import opened LinkSplit
  import opened Wrappers

  method CountChar(text: string, c: char) returns (count: nat)
    ensures count == Count(text, c)
  {
    count := 0;
    for n := 0 to |text|
      invariant count == Count(text[..n], c)
    {
      assert text[..n + 1][..n] == text[..n];
      if text[n] == c { count := count + 1; }
    }
    assert text[..|text|] == text;
  }

  /** More closers than openers. */
  method Overclosed(text: string, closer: char, opener: char) returns (over: bool)
    ensures over <==> Count(text, closer) > Count(text, opener)
  {
    var closers := CountChar(text, closer);
    var openers := CountChar(text, opener);
    over := closers > openers;
  }

  /** Trims to the longest prefix whose tail is clean. */
  method TrimBareUrlTail(raw: string) returns (r: string)
    ensures r <= raw && CleanTail(r)
    ensures forall n :: |r| < n <= |raw| ==> !CleanTail(raw[..n])
    ensures r == Trimmed(raw)
  {
    hide Count;
    var end := |raw|;
    while end > 0
      invariant 0 <= end <= |raw|
      invariant forall n :: end < n <= |raw| ==> !CleanTail(raw[..n])
    {
      var last := raw[end - 1];
      if Sentence(last) {
        end := end - 1;
        continue;
      }
      var round := Overclosed(raw[..end], ')', '(');
      var square := Overclosed(raw[..end], ']', '[');
      if (last == ')' && round) || (last == ']' && square) {
        end := end - 1;
        continue;
      }
      break;
    }
    r := raw[..end];
    OnlyOneTrim(raw, r);
  }

  lemma OnlyOneTrim(raw: string, r: string)
    requires r <= raw && CleanTail(r) && forall n :: |r| < n <= |raw| ==> !CleanTail(raw[..n])
    ensures r == Trimmed(raw)
  {
    hide Count, CleanTail;
    assert raw[..|r|] == r && raw[..|Trimmed(raw)|] == Trimmed(raw);
  }

  /** Pushes the text in front of a match, if there is any. */
  method PushText(segments: seq<Segment>, text: string, cursor: nat, index: nat) returns (pushed: seq<Segment>)
    requires cursor <= index <= |text|
    ensures pushed == segments + Lead(text, cursor, index)
  {
    pushed := segments;
    if index > cursor { pushed := pushed + [Plain(text[cursor..index])]; }
  }

  lemma LeadWhole(text: string)
    ensures Lead(text, 0, |text|) == if text == "" then [] else [Plain(text)]
  {
    assert text[0..|text|] == text;
  }

  lemma BareTurn(text: string, cursor: nat, from: nat)
    requires cursor <= from <= |text|
    ensures match FirstBare(text, from)
            case None => BarePass(text, cursor, from) == Lead(text, cursor, |text|)
            case Some(i) =>
              var href, e := HrefAt(text, i), BareEnd(text, i);
              && from <= i < e <= |text| && i + |href| <= e && href == Trimmed(text[i..e])
              && BarePass(text, cursor, from) ==
                 if LinkableBare(href)
                 then Lead(text, cursor, i) + [Link(href, href)] + BarePass(text, i + |href|, e)
                 else BarePass(text, cursor, e)
  {
    hide LinkableBare, BareEnd, Trimmed, FirstBare, NextLink, BarePass, Lead;
    NextLinkTurn(text, from);
    PassTurn(text, cursor, from);
    var first := FirstBare(text, from);
    if first.Some? {
      var e := BareEnd(text, first.value);
      NextLinkTurn(text, e);
      PassTurn(text, cursor, e);
    }
  }

  lemma PassTurn(text: string, cursor: nat, from: nat)
    requires cursor <= from <= |text|
    ensures match NextLink(text, from)
            case None => BarePass(text, cursor, from) == Lead(text, cursor, |text|)
            case Some(i) =>
              var href := HrefAt(text, i);
              && i + |href| <= BareEnd(text, i)
              && BarePass(text, cursor, from) ==
                 Lead(text, cursor, i) + [Link(href, href)] + BarePass(text, i + |href|, BareEnd(text, i))
  {
    hide LinkableBare, BareEnd, Trimmed, NextLink, Lead;
  }

  method SplitBareUrls(text: string) returns (segments: seq<Segment>)
    ensures segments == SplitBare(text)
    ensures Lossless(segments, text) && Settled(segments)
  {
    hide Lossless, Settled, LinkableBare, BareEnd, FirstBare, BarePass, CleanTail, NextLink, Lead, Trimmed;
    SplitBareLossless(text);
    SplitBareSettled(text);
    segments := [];
    var cursor, lastIndex := 0, 0;
    var found := FirstBare(text, lastIndex);
    while found.Some?
      invariant 0 <= cursor <= lastIndex <= |text| && found == FirstBare(text, lastIndex)
      invariant segments + BarePass(text, cursor, lastIndex) == BarePass(text, 0, 0)
      invariant segments == [] ==> cursor == 0
      decreases |text| - lastIndex
    {
      BareTurn(text, cursor, lastIndex);
      var index := found.value;
      var end := BareEnd(text, index);
      var href := TrimBareUrlTail(text[index..end]);
      lastIndex := end;
      found := FirstBare(text, lastIndex);
      if !LinkableBare(href) { continue; }
      ghost var before, left := segments, cursor;
      segments := PushText(segments, text, cursor, index);
      segments := segments + [Link(href, href)];
      cursor := index + |href|;
      assert segments == before + (Lead(text, left, index) + [Link(href, href)]);
    }
    BareTurn(text, cursor, lastIndex);
    LeadWhole(text);
    if |segments| == 0 { return [Plain(text)]; }
    segments := PushText(segments, text, cursor, |text|);
  }

  lemma MarkdownTurn(text: string, cursor: nat)
    requires cursor <= |text|
    ensures match FirstSpan(text, cursor)
            case None => MarkdownPass(text, cursor) == Lead(text, cursor, |text|)
            case Some(i) =>
              var (name, href) := SpanAt(text, i).value;
              var end := i + |Spelled(name, href)|;
              && i < end <= |text| && text[i..end] == Spelled(name, href)
              && MarkdownPass(text, cursor) ==
                 Lead(text, cursor, i) + [SpanSegment(name, href)] + MarkdownPass(text, end)
  {
    hide Spelled, AllowedScheme, SpanAt, IsSpan;
    match FirstSpan(text, cursor)
    case None =>
    case Some(i) =>
      var (name, href) := SpanAt(text, i).value;
      SpanIsThere(text, i);
      SpanSource(text, i, name, href);
  }

  method MarkdownSegments(text: string) returns (segments: seq<Segment>)
    ensures segments == Markdown(text)
  {
    hide Spelled, AllowedScheme, SpanAt, MarkdownPass, FirstSpan, Lead;
    segments := [];
    var cursor := 0;
    MarkdownTurn(text, 0);
    while cursor < |text|
      invariant 0 <= cursor <= |text| && segments + MarkdownPass(text, cursor) == MarkdownPass(text, 0)
      invariant segments == [] ==> cursor == 0
      decreases |text| - cursor
    {
      var found := FirstSpan(text, cursor);
      if found.None? { break; }
      MarkdownTurn(text, cursor);
      var index := found.value;
      var (name, href) := SpanAt(text, index).value;
      var raw := text[index..index + |Spelled(name, href)|];
      ghost var before, left := segments, cursor;
      segments := PushText(segments, text, cursor, index);
      var safeHref := LinkableHref(href);
      segments := segments + [if safeHref.Some? then Link(name, safeHref.value) else Plain(raw)];
      cursor := index + |raw|;
      assert segments == before + (Lead(text, left, index) + [SpanSegment(name, href)]);
    }
    EndTurn(text, cursor);
    LeadWhole(text);
    if |segments| == 0 {
      segments := [Plain(text)];
    } else {
      segments := PushText(segments, text, cursor, |text|);
    }
  }

  lemma EndTurn(text: string, cursor: nat)
    requires cursor <= |text| && (cursor == |text| || FirstSpan(text, cursor).None?)
    ensures MarkdownPass(text, cursor) == Lead(text, cursor, |text|)
  {
    hide RunEnd;
  }

  /**
   The split of a text: its segments spell the text, every link is safe, bare links have
   clean tails, and no safe span or linkable URL is left in a plain segment.
   */
  method SplitMarkdownLinks(text: string) returns (segments: seq<Segment>)
    ensures segments == Split(text)
    ensures Lossless(segments, text) && NoneMissed(segments) && Settled(segments)
  {
    hide Lossless, NoneMissed, Settled, Markdown, SplitBare;
    SplitLossless(text);
    SplitMissesNone(text);
    var markdownSegments := MarkdownSegments(text);
    segments := [];
    assert markdownSegments[..0] == [];
    for n := 0 to |markdownSegments|
      invariant segments == Linkify(markdownSegments[..n])
    {
      var segment := markdownSegments[n];
      assert markdownSegments[..n + 1][..n] == markdownSegments[..n];
      if segment.Link? {
        segments := segments + [segment];
        continue;
      }
      var bare := SplitBareUrls(segment.text);
      segments := segments + bare;
    }
    assert markdownSegments[..|markdownSegments|] == markdownSegments;
  }
}
