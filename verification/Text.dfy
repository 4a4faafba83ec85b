/**
 JavaScript string primitives: whitespace, trimming, zero-padded numbers and the
 order of `<` on strings; lists without repetitions.
 */
module Text {

  // ----- decimal text -----

  predicate IsDigit(c: char) {
    '0' <= c <= '9'
  }

  predicate AllDigits(s: string) {
    forall i :: 0 <= i < |s| ==> IsDigit(s[i])
  }

  function DigitChar(n: nat): char
    requires n < 10
  {
    "0123456789"[n]
  }

  /** String(value) of a natural number. */
  function Decimal(n: nat): string {
    if n < 10 then [DigitChar(n)] else Decimal(n / 10) + [DigitChar(n % 10)]
  }

  /** value.padStart(width, "0"). */
  function PadStart(s: string, width: nat): string
    decreases width - |s|
  {
    if |s| >= width then s else PadStart("0" + s, width)
  }

  function Pad(value: nat, width: nat): string {
    PadStart(Decimal(value), width)
  }

  /** Number(s) of a string of decimal digits. */
  function Number(s: string): nat
    requires AllDigits(s)
  {
    if s == [] then 0 else 10 * Number(s[..|s| - 1]) + (s[|s| - 1] - '0') as nat
  }

  /** The order of `<` on strings: the first differing position decides, a proper prefix comes first. */
  predicate StringLess(s: string, t: string) {
    t != [] && (s == [] || s[0] < t[0] || (s[0] == t[0] && StringLess(s[1..], t[1..])))
  }

  predicate IsSpace(c: char) {
    c == ' ' || '\t' <= c <= '\r' || c in "\U{A0}\U{1680}\U{2028}\U{2029}\U{202F}\U{205F}\U{3000}\U{FEFF}" ||
    '\U{2000}' <= c <= '\U{200A}'
  }

  function TrimStart(s: string): string {
    if s != [] && IsSpace(s[0]) then TrimStart(s[1..]) else s
  }

  function TrimEnd(s: string): string {
    if s != [] && IsSpace(s[|s| - 1]) then TrimEnd(s[..|s| - 1]) else s
  }

  function Trim(s: string): string {
    TrimEnd(TrimStart(s))
  }

  // ----- padding is positional notation -----

  lemma {:induction false} PadStep(x: nat, w: nat)
    requires w >= 1
    ensures Pad(x, w + 1) == Pad(x / 10, w) + [DigitChar(x % 10)]
  {
    var last := [DigitChar(x % 10)];
    if x >= 10 {
      PadAppend(Decimal(x / 10), last, w);
    } else {
      ZeroPad(w);
      PadAppend("0", last, w);
      assert "0" + last == ['0'] + Decimal(x);
    }
  }

  lemma {:induction false} PadAppend(s: string, last: string, w: nat)
    requires |last| == 1
    ensures PadStart(s + last, w + 1) == PadStart(s, w) + last
    decreases w - |s|
  {
    if |s| < w {
      PadAppend("0" + s, last, w);
      assert "0" + (s + last) == ("0" + s) + last;
    }
  }

  lemma ZeroPad(w: nat)
    ensures Pad(0, w) == PadStart("0", w)
  {
  }

  function Pow10(w: nat): nat {
    if w == 0 then 1 else 10 * Pow10(w - 1)
  }

  lemma DigitReads(s: string, d: nat)
    requires AllDigits(s) && d < 10
    ensures AllDigits(s + [DigitChar(d)]) && Number(s + [DigitChar(d)]) == 10 * Number(s) + d
  {
    assert (s + [DigitChar(d)])[..|s|] == s;
  }

  /** A number that fits the width prints as exactly that many digits and reads back as itself. */
  lemma {:induction false} PadReads(x: nat, w: nat)
    requires w >= 1 && x < Pow10(w)
    ensures |Pad(x, w)| == w
    ensures AllDigits(Pad(x, w))
    ensures Number(Pad(x, w)) == x
  {
    if w == 1 {
      assert Pad(x, 1) == [DigitChar(x)];
    } else {
      PadReads(x / 10, w - 1);
      PadStep(x, w - 1);
      DigitReads(Pad(x / 10, w - 1), x % 10);
    }
  }

  /** Digits of a fixed width that read as x are the padded form of x. */
  lemma {:induction false} DigitsArePadded(s: string)
    requires s != [] && AllDigits(s)
    ensures Number(s) < Pow10(|s|) && Pad(Number(s), |s|) == s
  {
    hide Pad;
    var init, last := s[..|s| - 1], s[|s| - 1];
    assert s == init + [last];
    var digit := (last - '0') as nat;
    assert DigitChar(digit) == last;
    if init == [] {
      assert Number(init) == 0;
      PadOne(digit);
    } else {
      DigitsArePadded(init);
      PadStep(Number(s), |init|);
    }
  }

  // ----- string order of padded numbers -----

  lemma {:induction false} PrefixOrder(p: string, q: string, s: string, t: string)
    requires |p| == |q|
    ensures StringLess(p + s, q + t) <==> StringLess(p, q) || (p == q && StringLess(s, t))
  {
    if p == [] {
      assert p + s == s && q + t == t;
    } else {
      assert (p + s)[1..] == p[1..] + s && (q + t)[1..] == q[1..] + t;
      PrefixOrder(p[1..], q[1..], s, t);
    }
  }

  lemma DigitOrder(x: nat, y: nat)
    ensures x < y <==> x / 10 < y / 10 || (x / 10 == y / 10 && x % 10 < y % 10)
    ensures x == y <==> x / 10 == y / 10 && x % 10 == y % 10
  {
  }

  lemma DigitCharOrder(m: nat, n: nat)
    requires m < 10 && n < 10
    ensures StringLess([DigitChar(m)], [DigitChar(n)]) <==> m < n
    ensures DigitChar(m) == DigitChar(n) <==> m == n
  {
  }

  lemma {:induction false} PadOrder(x: nat, y: nat, w: nat)
    requires w >= 1 && x < Pow10(w) && y < Pow10(w)
    ensures StringLess(Pad(x, w), Pad(y, w)) <==> x < y
    ensures Pad(x, w) == Pad(y, w) <==> x == y
  {
    hide Pad, DigitChar, StringLess;
    DigitOrder(x, y);
    DigitCharOrder(x % 10, y % 10);
    var p, q := [DigitChar(x % 10)], [DigitChar(y % 10)];
    if w == 1 {
      PadOne(x);
      PadOne(y);
    } else {
      PadStep(x, w - 1);
      PadStep(y, w - 1);
      PadOrder(x / 10, y / 10, w - 1);
      PadReads(x / 10, w - 1);
      PadReads(y / 10, w - 1);
      PrefixOrder(Pad(x / 10, w - 1), Pad(y / 10, w - 1), p, q);
      SuffixEqual(Pad(x / 10, w - 1), Pad(y / 10, w - 1), p, q);
    }
  }

  lemma PadOne(x: nat)
    requires x < 10
    ensures Pad(x, 1) == [DigitChar(x)]
  {
  }

  lemma SuffixEqual(p: string, q: string, s: string, t: string)
    requires |p| == |q|
    ensures p + s == q + t <==> p == q && s == t
  {
    if p + s == q + t {
      assert p == (p + s)[..|p|] && q == (q + t)[..|p|];
      assert s == (p + s)[|p|..] && t == (q + t)[|p|..];
    }
  }

  lemma Widths()
    ensures Pow10(2) == 100 && Pow10(4) == 10000
  {
    assert Pow10(1) == 10 && Pow10(3) == 10 * Pow10(2);
  }

  // ----- sorting strings -----

  lemma {:induction false} StringOrderTotal(s: string, t: string)
    ensures !(StringLess(s, t) && StringLess(t, s))
    ensures s == t <==> !StringLess(s, t) && !StringLess(t, s)
  {
    if s != [] && t != [] && s[0] == t[0] {
      StringOrderTotal(s[1..], t[1..]);
      assert s == [s[0]] + s[1..] && t == [t[0]] + t[1..];
    }
  }

  lemma {:induction false} StringOrderTransitive(s: string, t: string, u: string)
    requires StringLess(s, t) && StringLess(t, u)
    ensures StringLess(s, u)
  {
    if s != [] && s[0] == t[0] == u[0] {
      StringOrderTransitive(s[1..], t[1..], u[1..]);
    }
  }

  predicate NoDuplicates<T(==)>(xs: seq<T>) {
    forall i, j :: 0 <= i < j < |xs| ==> xs[i] != xs[j]
  }

  lemma SubsetSize<T>(a: set<T>, b: set<T>)
    requires a <= b
    ensures |a| <= |b|
    ensures a != b ==> |a| < |b|
  {
    assert b == a + (b - a);
    assert a != b ==> b - a != {};
  }

  /** No element is less than an earlier one. */
  predicate Ascending(xs: seq<string>) {
    forall i, j :: 0 <= i < j < |xs| ==> !StringLess(xs[j], xs[i])
  }

  function InsertString(x: string, xs: seq<string>): seq<string> {
    if xs == [] || !StringLess(xs[0], x) then [x] + xs else [xs[0]] + InsertString(x, xs[1..])
  }

  /** Array.prototype.sort without a comparator. */
  function SortStrings(xs: seq<string>): seq<string> {
    if xs == [] then [] else InsertString(xs[0], SortStrings(xs[1..]))
  }

  lemma {:induction false} InsertAscends(x: string, xs: seq<string>)
    requires Ascending(xs)
    ensures Ascending(InsertString(x, xs)) && multiset(InsertString(x, xs)) == multiset([x]) + multiset(xs)
  {
    if xs == [] {
    } else if !StringLess(xs[0], x) {
      forall j | 0 <= j < |xs| ensures !StringLess(xs[j], x) {
        if j > 0 && StringLess(xs[j], x) {
          StringOrderTotal(xs[0], xs[j]);
          if StringLess(xs[0], xs[j]) { StringOrderTransitive(xs[0], xs[j], x); }
        }
      }
    } else {
      var rest := InsertString(x, xs[1..]);
      InsertAscends(x, xs[1..]);
      assert xs == [xs[0]] + xs[1..];
      forall j | 0 <= j < |rest| ensures !StringLess(rest[j], xs[0]) {
        assert rest[j] in multiset(rest);
        StringOrderTotal(xs[0], x);
      }
    }
  }

  lemma {:induction false} SortAscends(xs: seq<string>)
    ensures Ascending(SortStrings(xs)) && multiset(SortStrings(xs)) == multiset(xs)
  {
    if xs != [] {
      SortAscends(xs[1..]);
      InsertAscends(xs[0], SortStrings(xs[1..]));
      assert xs == [xs[0]] + xs[1..];
    }
  }

  lemma SortMembers(xs: seq<string>)
    ensures forall x :: x in SortStrings(xs) <==> x in xs
    ensures |SortStrings(xs)| == |xs|
  {
    SortAscends(xs);
    forall x ensures x in SortStrings(xs) <==> x in xs {
      assert x in multiset(SortStrings(xs)) <==> x in multiset(xs);
    }
    assert |multiset(SortStrings(xs))| == |multiset(xs)|;
  }

  /** Sorting a list without repetitions puts it in strictly ascending order. */
  lemma SortDistinct(xs: seq<string>)
    requires NoDuplicates(xs)
    ensures forall i, j :: 0 <= i < j < |xs| ==>
              |SortStrings(xs)| == |xs| && StringLess(SortStrings(xs)[i], SortStrings(xs)[j])
  {
    var ys := SortStrings(xs);
    SortAscends(xs);
    SortMembers(xs);
    forall i, j | 0 <= i < j < |ys| ensures StringLess(ys[i], ys[j]) {
      StringOrderTotal(ys[i], ys[j]);
      if ys[i] == ys[j] {
        Twice(ys, i, j);
        Once(xs, ys[i]);
      }
    }
  }

  lemma Twice(ys: seq<string>, i: int, j: int)
    requires 0 <= i < j < |ys| && ys[i] == ys[j]
    ensures multiset(ys)[ys[i]] >= 2
  {
    assert ys == ys[..i] + [ys[i]] + ys[i + 1..j] + [ys[j]] + ys[j + 1..];
  }

  lemma {:induction false} Once(xs: seq<string>, x: string)
    requires NoDuplicates(xs)
    ensures multiset(xs)[x] <= 1
  {
    if xs != [] {
      assert xs == [xs[0]] + xs[1..];
      Once(xs[1..], x);
      if x == xs[0] {
        assert forall k :: 0 <= k < |xs[1..]| ==> xs[1..][k] == xs[k + 1];
        assert x !in xs[1..];
      }
    }
  }
}
