/**
 What it means for an expansion to answer with the days of the window: told with the meaning of
 the rule and the calendar alone, without stepping or enumerating.
 */
module RecurrenceAnswer {
  import opened Calendar
  import opened Recurrence
  import opened RecurrenceExpansion
  import opened RecurrenceLoops
  import opened RecurrenceRange
  import opened RecurrenceWalk
  import opened Wrappers

  /** A day the window asks for: of the rule, not excluded, not past the bound, inside the window. */
  ghost predicate Wanted(s: Series, from: Date, to: Date, d: Date) {
    && Valid(d) && Recurs(s.rule, s.anchor, d) && d !in s.exdates
    && (s.until.Some? ==> !Less(s.until.value, d))
    && !Less(d, from) && !Less(to, d)
  }

  /** The first days wanted, in order and at most cap of them: one is left out only behind cap earlier ones. */
  ghost predicate FirstWanted(s: Series, from: Date, to: Date, cap: int, days: seq<Date>) {
    && |days| <= cap
    && (forall i, j :: 0 <= i < j < |days| ==> Less(days[i], days[j]))
    && (forall d :: d in days ==> Wanted(s, from, to, d))
    && forall d :: Wanted(s, from, to, d) && d !in days ==> |days| == cap && forall e :: e in days ==> Less(e, d)
  }

  /** There is only one such list. */
  lemma {:induction false} FirstWantedUnique(
      s: Series, from: Date, to: Date, cap: int, a: seq<Date>, b: seq<Date>, k: nat)
    requires FirstWanted(s, from, to, cap, a) && FirstWanted(s, from, to, cap, b) && k <= |a| && k <= |b|
    ensures a[..k] == b[..k]
  {
    if k > 0 {
      FirstWantedUnique(s, from, to, cap, a, b, k - 1);
      NotEarlier(s, from, to, cap, a, b, k - 1);
      NotEarlier(s, from, to, cap, b, a, k - 1);
      OneDay(a[k - 1], b[k - 1]);
      assert a[..k] == a[..k - 1] + [a[k - 1]] && b[..k] == b[..k - 1] + [b[k - 1]];
    }
  }

  lemma OneDay(a: Date, b: Date)
    requires !Less(a, b) && !Less(b, a)
    ensures a == b
  {
  }

  lemma LaterStill(a: Date, b: Date, c: Date)
    requires Less(a, b) && (b == c || Less(b, c))
    ensures Less(a, c) && !Less(c, a) && a != c
  {
  }

  lemma NotEarlier(s: Series, from: Date, to: Date, cap: int, a: seq<Date>, b: seq<Date>, k: nat)
    requires FirstWanted(s, from, to, cap, a) && FirstWanted(s, from, to, cap, b)
    requires k < |a| && k < |b| && a[..k] == b[..k]
    ensures !Less(a[k], b[k])
  {
    hide Wanted, Less;
    if Less(a[k], b[k]) {
      assert a[k] in a && b[k] in b;
      forall j | 0 <= j < |b| ensures b[j] != a[k] {
        if j < k {
          assert b[j] == b[..k][j] == a[..k][j] == a[j];
          LaterStill(a[j], a[k], a[k]);
        } else {
          LaterStill(a[k], b[k], b[j]);
        }
      }
      LaterStill(a[k], b[k], b[k]);
    }
  }

  /** The days of the plain enumeration are those the window asks for. */
  lemma WindowWanted(s: Series, from: Date, to: Date, d: Date)
    requires ValidWindow(s, from, to)
    ensures d in WindowOf(s, from, to) <==> Wanted(s, from, to, d)
  {
    hide Occurs, Recurs, FromDay, ToDay, Less, Window, MonthLength;
    WindowParts(s, from, to);
    WindowExact(s, ToDay(from), ToDay(to));
    if Valid(d) {
      OccursMeans(s.rule, s.anchor, d);
      ToDayInverse(d);
      ToDayOrder(d, from);
      ToDayOrder(to, d);
    }
  }

  lemma WindowFirst(s: Series, from: Date, to: Date, cap: int)
    requires ValidWindow(s, from, to) && cap >= 1
    ensures FirstWanted(s, from, to, cap, Take(WindowOf(s, from, to), cap))
  {
    hide Wanted, Less, ToDay, Take, Window;
    var w := WindowOf(s, from, to);
    var days := Take(w, cap);
    WindowExact(s, ToDay(from), ToDay(to));
    forall d ensures d in w <==> Wanted(s, from, to, d) { WindowWanted(s, from, to, d); }
    CutOff(w, cap);
  }

  /** What a cut leaves out stands behind all it keeps. */
  lemma CutOff(w: seq<Date>, cap: int)
    requires cap >= 0 && forall i, j :: 0 <= i < j < |w| ==> Less(w[i], w[j])
    ensures |Take(w, cap)| <= cap && Take(w, cap) <= w
    ensures forall d, e :: d in w && d !in Take(w, cap) && e in Take(w, cap) ==> |Take(w, cap)| == cap && Less(e, d)
    ensures forall d :: d in w && d !in Take(w, cap) ==> |Take(w, cap)| == cap
  {
    hide Less;
    var days := Take(w, cap);
    assert forall m :: 0 <= m < |days| ==> days[m] == w[m] && w[m] in days;
    forall d, e | d in w && d !in days && e in days ensures Less(e, d) {
      var i :| 0 <= i < |w| && w[i] == d;
      var j :| 0 <= j < |days| && days[j] == e;
    }
  }

  /**
   An answer is the plain enumeration cut at cap exactly when it lists the first days the window
   asks for.
   */
  lemma AnswerMeans(s: Series, from: Date, to: Date, cap: int, r: Result<Expansion, ExpandError>)
    requires ValidWindow(s, from, to) && cap >= 1
    ensures IsWindow(s, from, to, cap, r) <==>
            exists days :: FirstWanted(s, from, to, cap, days) && r == Success(Listed(Somes(days)))
    ensures forall days :: |Somes(days)| == |days| && forall i :: 0 <= i < |days| ==> Somes(days)[i] == Some(days[i])
  {
    hide FirstWanted, WindowOf, Take, ValidWindow;
    var w := Take(WindowOf(s, from, to), cap);
    WindowFirst(s, from, to, cap);
    forall days | FirstWanted(s, from, to, cap, days) ensures days == w { SameDays(s, from, to, cap, days, w); }
  }

  lemma SameDays(s: Series, from: Date, to: Date, cap: int, a: seq<Date>, b: seq<Date>)
    requires FirstWanted(s, from, to, cap, a) && FirstWanted(s, from, to, cap, b)
    ensures a == b
  {
    hide Wanted, Less;
    var k := if |a| <= |b| then |a| else |b|;
    FirstWantedUnique(s, from, to, cap, a, b, k);
    NoLonger(s, from, to, cap, a, b);
    NoLonger(s, from, to, cap, b, a);
    assert a[..k] == a && b[..k] == b;
  }

  lemma NoLonger(s: Series, from: Date, to: Date, cap: int, a: seq<Date>, b: seq<Date>)
    requires FirstWanted(s, from, to, cap, a) && FirstWanted(s, from, to, cap, b)
    requires var k := if |a| <= |b| then |a| else |b|; a[..k] == b[..k]
    ensures |b| <= |a|
  {
    hide Wanted, Less;
    if |a| < |b| {
      var d := b[|a|];
      assert d in b;
      forall j | 0 <= j < |a| ensures a[j] != d {
        assert a[..|a|][j] == b[..|a|][j];
        LaterStill(b[j], d, d);
      }
    }
  }
}
