/**
 The grammar of links in plain text: markdown spans, bare URLs and the tail that is
 trimmed off them. A regular expression's search is modelled by its leftmost match.
 */
module LinkGrammar {
  import opened Wrappers
  import Strings = Text

  // ----- schemes, matched without regard to ASCII case -----

  function Lower(c: char): char {
    if 'A' <= c <= 'Z' then c - 'A' + 'a' else c
  }

  predicate HasWord(text: string, i: nat, word: string) {
    i + |word| <= |text| && forall k :: 0 <= k < |word| ==> Lower(text[i + k]) == word[k]
  }

  /** The length of the web scheme that begins at i, 0 when there is none. */
  function SchemeLength(text: string, i: nat): nat {
    if HasWord(text, i, "https://") then 8 else if HasWord(text, i, "http://") then 7 else 0
  }

  predicate AllowedScheme(href: string) {
    SchemeLength(href, 0) > 0 || HasWord(href, 0, "mailto:")
  }

  function LinkableHref(href: string): Option<string> {
    if AllowedScheme(href) then Some(href) else None
  }

  /** The end of the longest run of such characters from i on. */
  function RunEnd(text: string, i: nat, p: char -> bool): (e: nat)
    requires i <= |text|
    ensures i <= e <= |text| && (forall k :: i <= k < e ==> p(text[k])) && (e < |text| ==> !p(text[e]))
    decreases |text| - i
  {
    if i < |text| && p(text[i]) then RunEnd(text, i + 1, p) else i
  }

  // ----- markdown spans -----

  predicate LabelChar(c: char) { c != ']' && c != '\n' }

  predicate HrefChar(c: char) { c != '(' && c != ')' && !Strings.IsSpace(c) }

  ghost predicate IsLabel(s: string) { s != "" && forall k :: 0 <= k < |s| ==> LabelChar(s[k]) }

  ghost predicate IsHref(s: string) { s != "" && forall k :: 0 <= k < |s| ==> HrefChar(s[k]) }

  function Spelled(name: string, href: string): string {
    "[" + name + "](" + href + ")"
  }

  /** The span `[label](href)` stands at i. */
  ghost predicate IsSpan(text: string, i: nat, name: string, href: string) {
    IsLabel(name) && IsHref(href) && i + |Spelled(name, href)| <= |text| &&
    text[i..i + |Spelled(name, href)|] == Spelled(name, href)
  }

  /** The span at i: its label and its href. */
  function SpanAt(text: string, i: nat): Option<(string, string)>
    requires i <= |text|
  {
    if i == |text| || text[i] != '[' then None
    else
      var e := RunEnd(text, i + 1, LabelChar);
      if e == i + 1 || e + 2 > |text| || text[e..e + 2] != "](" then None
      else
        var f := RunEnd(text, e + 2, HrefChar);
        if f == e + 2 || f == |text| || text[f] != ')' then None
        else Some((text[i + 1..e], text[e + 2..f]))
  }

  /** The leftmost index from `from` on where a span stands. */
  function FirstSpan(text: string, from: nat): (r: Option<nat>)
    requires from <= |text|
    ensures r.Some? ==> from <= r.value <= |text| && SpanAt(text, r.value).Some?
    ensures forall j :: from <= j < (if r.Some? then r.value else |text|) ==> SpanAt(text, j).None?
    decreases |text| - from
  {
    if SpanAt(text, from).Some? then Some(from)
    else if from < |text| then FirstSpan(text, from + 1)
    else None
  }

  /** A run is as long as it can be: it ends at the first character outside. */
  lemma {:induction false} RunEndsAt(text: string, i: nat, e: nat, p: char -> bool)
    requires i <= e < |text| && (forall k :: i <= k < e ==> p(text[k])) && !p(text[e])
    ensures RunEnd(text, i, p) == e
    decreases e - i
  {
    if i < e { RunEndsAt(text, i + 1, e, p); }
  }

  lemma SpanIsThere(text: string, i: nat)
    requires i <= |text| && SpanAt(text, i).Some?
    ensures var (name, href) := SpanAt(text, i).value; IsSpan(text, i, name, href)
  {
    var (name, href) := SpanAt(text, i).value;
    var e := i + 1 + |name|;
    assert text[i..i + |Spelled(name, href)|] ==
           [text[i]] + text[i + 1..e] + text[e..e + 2] + text[e + 2..e + 2 + |href|] + [text[e + 2 + |href|]];
  }

  /** The characters of a spelled span, one region after the other. */
  lemma SpelledChars(name: string, href: string)
    ensures var span := Spelled(name, href);
            && |span| == |name| + |href| + 4
            && span[0] == '[' && span[1 + |name|] == ']' && span[2 + |name|] == '(' && span[3 + |name| + |href|] == ')'
            && span[1..1 + |name|] == name && span[3 + |name|..3 + |name| + |href|] == href
  {
  }

  /** The characters of a span in its text. */
  lemma SpanRegions(text: string, i: nat, name: string, href: string)
    requires IsSpan(text, i, name, href)
    ensures var e, f := i + 1 + |name|, i + 3 + |name| + |href|;
            && f < |text| && text[i] == '[' && text[e] == ']' && text[e + 1] == '(' && text[f] == ')'
            && text[i + 1..e] == name && text[e + 2..f] == href
  {
    hide IsLabel, IsHref;
    SpelledChars(name, href);
    var span, n := Spelled(name, href), |Spelled(name, href)|;
    SliceOfSlice(text, i, n, 1, 1 + |name|);
    SliceOfSlice(text, i, n, 3 + |name|, 3 + |name| + |href|);
    assert text[i] == span[0] && text[i + 1 + |name|] == span[1 + |name|] && text[i + 2 + |name|] == span[2 + |name|];
    assert text[i + 3 + |name| + |href|] == span[3 + |name| + |href|];
  }

  lemma SliceOfSlice(text: string, i: nat, n: nat, lo: nat, hi: nat)
    requires i + n <= |text| && lo <= hi <= n
    ensures text[i..i + n][lo..hi] == text[i + lo..i + hi]
  {
    var part := text[i..i + n];
    forall k | 0 <= k < hi - lo ensures part[lo..hi][k] == text[i + lo..i + hi][k] {
      assert part[lo + k] == text[i + (lo + k)];
    }
  }

  lemma LabelRun(text: string, i: nat, e: nat)
    requires i <= e < |text| && IsLabel(text[i..e]) && text[e] == ']'
    ensures RunEnd(text, i, LabelChar) == e && e > i
  {
    forall k | i <= k < e ensures LabelChar(text[k]) { assert text[i..e][k - i] == text[k]; }
    RunEndsAt(text, i, e, LabelChar);
  }

  lemma HrefRun(text: string, i: nat, e: nat)
    requires i <= e < |text| && IsHref(text[i..e]) && text[e] == ')'
    ensures RunEnd(text, i, HrefChar) == e && e > i
  {
    forall k | i <= k < e ensures HrefChar(text[k]) { assert text[i..e][k - i] == text[k]; }
    RunEndsAt(text, i, e, HrefChar);
  }

  lemma SpanIsFound(text: string, i: nat, name: string, href: string)
    requires IsSpan(text, i, name, href)
    ensures i <= |text| && SpanAt(text, i) == Some((name, href))
  {
    hide Spelled, IsLabel, IsHref, RunEnd;
    SpanRegions(text, i, name, href);
    var e, f := i + 1 + |name|, i + 3 + |name| + |href|;
    LabelRun(text, i + 1, e);
    HrefRun(text, e + 2, f);
    assert text[e..e + 2] == "](";
  }

  // ----- bare URLs -----

  predicate UrlChar(c: char) { !Strings.IsSpace(c) && c != '<' && c != '>' && c != '"' && c != '\'' }

  /** The end of the bare URL that begins at i, 0 when there is none. */
  function BareEnd(text: string, i: nat): (e: nat)
    requires i <= |text|
    ensures e == 0 || i < e <= |text|
  {
    var n := SchemeLength(text, i);
    if n == 0 || RunEnd(text, i + n, UrlChar) == i + n then 0 else RunEnd(text, i + n, UrlChar)
  }

  /** The leftmost index from `from` on where a bare URL begins. */
  function FirstBare(text: string, from: nat): (r: Option<nat>)
    requires from <= |text|
    ensures r.Some? ==> from <= r.value <= |text| && BareEnd(text, r.value) > 0
    decreases |text| - from
  {
    if BareEnd(text, from) > 0 then Some(from)
    else if from < |text| then FirstBare(text, from + 1)
    else None
  }

  lemma {:induction false} NoneBefore(text: string, from: nat)
    requires from <= |text|
    ensures var r := FirstBare(text, from);
            forall j :: from <= j < (if r.Some? then r.value else |text|) ==> BareEnd(text, j) == 0
    decreases |text| - from
  {
    hide BareEnd;
    if BareEnd(text, from) == 0 && from < |text| {
      NoneBefore(text, from + 1);
    }
  }

  // ----- the tail of a bare URL -----

  function Count(text: string, c: char): nat {
    if text == "" then 0 else Count(text[..|text| - 1], c) + if text[|text| - 1] == c then 1 else 0
  }

  predicate Sentence(c: char) { c in ".,;:!?=" }

  /** No sentence punctuation at the end, and no closer there without its opener. */
  predicate CleanTail(s: string) {
    s == "" ||
    (!Sentence(s[|s| - 1]) &&
     !(s[|s| - 1] == ')' && Count(s, ')') > Count(s, '(')) &&
     !(s[|s| - 1] == ']' && Count(s, ']') > Count(s, '[')))
  }

  /** The longest prefix with a clean tail. */
  function Trimmed(raw: string): (r: string)
    ensures r <= raw && CleanTail(r) && forall n :: |r| < n <= |raw| ==> !CleanTail(raw[..n])
  {
    if CleanTail(raw) then
      assert forall n :: |raw| <= n <= |raw| ==> raw[..n] == raw;
      raw
    else
      var shorter := raw[..|raw| - 1];
      assert forall n :: 0 <= n <= |shorter| ==> shorter[..n] == raw[..n];
      assert raw[..|raw|] == raw;
      Trimmed(shorter)
  }

  /** What is left of the match still names a host. */
  predicate LinkableBare(href: string) {
    var n := SchemeLength(href, 0);
    n > 0 && n < |href| && href[n] !in "/?#"
  }

  lemma LinkableIsAllowed(href: string)
    requires LinkableBare(href)
    ensures AllowedScheme(href) && href != ""
  {
  }

  lemma {:induction false} TrimsTailOnly(raw: string, k: nat)
    requires |Trimmed(raw)| <= k < |raw|
    ensures raw[k] in ".,;:!?=)]"
    decreases |raw|
  {
    hide Count;
    if k < |raw| - 1 { TrimsTailOnly(raw[..|raw| - 1], k); }
  }
}
