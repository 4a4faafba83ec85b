/**
 The characters and schemes of the link grammar written out: which addresses may become links,
 where labels, addresses and bare URLs end, and what is trimmed off their tails.
 */
module LinkWording {
  import opened LinkGrammar
  import opened LinkSplit
  import Strings = Text

  // ----- schemes -----

  /** Each character may be any of its ways, one after the other from i on. */
  predicate Reads(text: string, i: nat, ways: seq<string>) {
    i + |ways| <= |text| && forall k :: 0 <= k < |ways| ==> text[i + k] in ways[k]
  }

  const HTTP := ["hH", "tT", "tT", "pP", ":", "/", "/"]
  const HTTPS := ["hH", "tT", "tT", "pP", "sS", ":", "/", "/"]
  const MAILTO := ["mM", "aA", "iI", "lL", "tT", "oO", ":"]

  predicate SameLetter(c: char, way: string, lower: char) {
    c in way <==> Lower(c) == lower
  }

  lemma ReadsWord(text: string, i: nat, ways: seq<string>, word: string)
    requires |ways| == |word|
    requires forall c: char, k :: 0 <= k < |ways| ==> SameLetter(c, ways[k], word[k])
    ensures Reads(text, i, ways) <==> HasWord(text, i, word)
  {
    hide Lower;
    if i + |ways| <= |text| {
      forall k | 0 <= k < |ways| ensures text[i + k] in ways[k] <==> Lower(text[i + k]) == word[k] {
        assert SameLetter(text[i + k], ways[k], word[k]);
      }
    }
  }

  lemma WaysOfHttps(c: char, k: nat)
    requires k < 8
    ensures SameLetter(c, HTTPS[k], "https://"[k])
  {
  }

  lemma WaysOfHttp(c: char, k: nat)
    requires k < 7
    ensures SameLetter(c, HTTP[k], "http://"[k])
  {
  }

  lemma WaysOfMailto(c: char, k: nat)
    requires k < 7
    ensures SameLetter(c, MAILTO[k], "mailto:"[k])
  {
  }

  lemma WordsRead(text: string, i: nat)
    ensures Reads(text, i, HTTPS) <==> HasWord(text, i, "https://")
    ensures Reads(text, i, HTTP) <==> HasWord(text, i, "http://")
    ensures Reads(text, i, MAILTO) <==> HasWord(text, i, "mailto:")
  {
    hide SameLetter;
    forall c: char, k | 0 <= k < 8 ensures SameLetter(c, HTTPS[k], "https://"[k]) { WaysOfHttps(c, k); }
    forall c: char, k | 0 <= k < 7 ensures SameLetter(c, HTTP[k], "http://"[k]) { WaysOfHttp(c, k); }
    forall c: char, k | 0 <= k < 7 ensures SameLetter(c, MAILTO[k], "mailto:"[k]) { WaysOfMailto(c, k); }
    ReadsWord(text, i, HTTPS, "https://");
    ReadsWord(text, i, HTTP, "http://");
    ReadsWord(text, i, MAILTO, "mailto:");
  }

  /** Only web and mail addresses become links, in any mix of capitals. */
  lemma SchemesAllowed(href: string)
    ensures LinkableHref(href).Some? <==> Reads(href, 0, HTTP) || Reads(href, 0, HTTPS) || Reads(href, 0, MAILTO)
    ensures LinkableHref(href).Some? ==> LinkableHref(href).value == href
  {
    hide Reads, HasWord;
    WordsRead(href, 0);
  }

  // ----- where things end -----

  /** White_Space and line terminators of ECMA-262, by code point. */
  predicate White(c: char) {
    var n := c as int;
    9 <= n <= 13 || n == 32 || n == 160 || n == 5760 || 8192 <= n <= 8202 || n == 8232 || n == 8233 || n == 8239 ||
    n == 8287 || n == 12288 || n == 65279
  }

  lemma WhiteIsSpace(c: char)
    ensures Strings.IsSpace(c) <==> White(c)
  {
    var marks := "\U{A0}\U{1680}\U{2028}\U{2029}\U{202F}\U{205F}\U{3000}\U{FEFF}";
    assert marks[0] as int == 160 && marks[1] as int == 5760 && marks[2] as int == 8232 && marks[3] as int == 8233;
    assert marks[4] as int == 8239 && marks[5] as int == 8287 && marks[6] as int == 12288 && marks[7] as int == 65279;
    if c in marks {
      var k :| 0 <= k < 8 && marks[k] == c;
    }
  }

  lemma CharsAre(c: char)
    ensures LabelChar(c) <==> c !in "]\n"
    ensures HrefChar(c) <==> !White(c) && c !in "()"
    ensures UrlChar(c) <==> !White(c) && c !in "<>\"'"
    ensures Sentence(c) <==> c == '.' || c == ',' || c == ';' || c == ':' || c == '!' || c == '?' || c == '='
  {
    hide White, Strings.IsSpace;
    WhiteIsSpace(c);
  }

  /** A bare URL stands at i and ends at e: a web scheme and the longest run of what may follow it. */
  predicate Bare(text: string, i: nat, e: nat) {
    && e <= |text|
    && (Reads(text, i, HTTPS) || Reads(text, i, HTTP))
    && (var n := if Reads(text, i, HTTPS) then 8 else 7;
        && i + n < e
        && (forall k :: i + n <= k < e ==> !White(text[k]) && text[k] !in "<>\"'")
        && (e < |text| ==> White(text[e]) || text[e] in "<>\"'"))
  }

  lemma UrlRun(text: string, i: nat, e: nat)
    requires i <= e <= |text| && (forall k :: i <= k < e ==> UrlChar(text[k])) && (e < |text| ==> !UrlChar(text[e]))
    ensures RunEnd(text, i, UrlChar) == e
  {
    hide UrlChar;
  }

  lemma BareMeans(text: string, i: nat, e: nat)
    requires i <= |text| && e > 0
    ensures BareEnd(text, i) == e <==> Bare(text, i, e)
  {
    hide Reads, HasWord, UrlChar, White, RunEnd;
    WordsRead(text, i);
    forall c: char ensures UrlChar(c) <==> !White(c) && c !in "<>\"'" { CharsAre(c); }
    var n := SchemeLength(text, i);
    SchemeSize(text, i);
    if n > 0 {
      var f := RunEnd(text, i + n, UrlChar);
      UrlRun(text, i + n, f);
      if Bare(text, i, e) { UrlRun(text, i + n, e); }
    }
  }

  lemma SchemeSize(text: string, i: nat)
    ensures i + SchemeLength(text, i) <= |text| || SchemeLength(text, i) == 0
  {
  }

  /** A match is linked when a host begins behind its scheme. */
  lemma HostMeans(href: string)
    ensures LinkableBare(href) <==>
            || (Reads(href, 0, HTTPS) && |href| > 8 && href[8] !in "/?#")
            || (Reads(href, 0, HTTP) && |href| > 7 && href[7] !in "/?#")
  {
    hide Reads, HasWord;
    WordsRead(href, 0);
    if HasWord(href, 0, "https://") { NotBoth(href); }
  }

  lemma NotBoth(href: string)
    requires HasWord(href, 0, "https://")
    ensures !HasWord(href, 0, "http://")
  {
    hide Lower;
    assert "https://"[4] == 's' && "http://"[4] == ':';
  }

  // ----- tails -----

  lemma {:induction false} CountIs(s: string, c: char)
    ensures Count(s, c) == multiset(s)[c]
  {
    if s != "" {
      CountIs(s[..|s| - 1], c);
      assert s == s[..|s| - 1] + [s[|s| - 1]];
    }
  }

  /** A tail that stays: no sentence punctuation, and no bracket closed more often than opened. */
  lemma TailStays(s: string, last: char)
    ensures CleanTail(s + [last]) <==>
            && last !in ".,;:!?="
            && (last == ')' ==> multiset(s)[')'] < multiset(s)['('])
            && (last == ']' ==> multiset(s)[']'] < multiset(s)['['])
  {
    hide Count;
    var t := s + [last];
    CountIs(t, ')');
    CountIs(t, '(');
    CountIs(t, ']');
    CountIs(t, '[');
  }

  lemma SpelledIs(name: string, href: string)
    ensures Spelled(name, href) == ['['] + name + [']', '('] + href + [')']
  {
  }
}
