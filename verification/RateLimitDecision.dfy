/**
 What decides a charge, read off the log of the charges before it: which of them open a window,
 and how much was granted since the last that did.
 */
module RateLimitDecision {
  import opened RateLimit

  /** A charge, granted or not, opens a window when the one before it for its key has run its length. */
  ghost predicate Opens(log: seq<Decision>, windowMs: int, i: nat)
    requires i < |log|
    decreases i, 1
  {
    forall j: nat | j < i && Latest(log, log[i].key, windowMs, j, i) :: log[i].now - log[j].now >= windowMs
  }

  /** The last of the first n charges to open a window for the key. */
  ghost predicate Latest(log: seq<Decision>, key: string, windowMs: int, i: nat, n: nat)
    requires i < n <= |log|
    decreases n, 0
  {
    && log[i].key == key && Opens(log, windowMs, i)
    && forall j: nat | i < j < n && log[j].key == key :: !Opens(log, windowMs, j)
  }

  /** The weight granted to the key. */
  function Total(log: seq<Decision>, key: string): nat {
    if log == [] then 0
    else
      var last := log[|log| - 1];
      Total(log[..|log| - 1], key) + if last.granted && last.key == key then last.weight else 0
  }

  // ----- the log decides -----

  lemma {:induction false} OpensPrefix(log: seq<Decision>, more: seq<Decision>, windowMs: int, i: nat)
    requires i < |log|
    ensures Opens(log + more, windowMs, i) == Opens(log, windowMs, i)
    decreases i, 1
  {
    assert (log + more)[i] == log[i];
    forall j: nat | j < i
      ensures Latest(log + more, log[i].key, windowMs, j, i) == Latest(log, log[i].key, windowMs, j, i)
      ensures (log + more)[j] == log[j]
    {
      LatestPrefix(log, more, log[i].key, windowMs, j, i);
    }
  }

  lemma {:induction false} LatestPrefix(
      log: seq<Decision>, more: seq<Decision>, key: string, windowMs: int, i: nat, n: nat)
    requires i < n <= |log|
    ensures Latest(log + more, key, windowMs, i, n) == Latest(log, key, windowMs, i, n)
    decreases n, 0
  {
    hide Opens;
    forall j: nat | j < n
      ensures Opens(log + more, windowMs, j) == Opens(log, windowMs, j) && (log + more)[j] == log[j]
    {
      OpensPrefix(log, more, windowMs, j);
    }
  }

  /** A charge more: it opens a window itself, or leaves the last opening what it was. */
  lemma LatestGrows(log: seq<Decision>, d: Decision, key: string, windowMs: int, i: nat)
    requires i <= |log|
    ensures var next := log + [d];
            Latest(next, key, windowMs, i, |next|) <==>
            if d.key == key && Opens(next, windowMs, |log|) then i == |log|
            else i < |log| && Latest(log, key, windowMs, i, |log|)
  {
    hide Opens;
    var next := log + [d];
    forall j: nat | j < |log| ensures Opens(next, windowMs, j) == Opens(log, windowMs, j) && next[j] == log[j] {
      OpensPrefix(log, [d], windowMs, j);
    }
  }

  lemma LatestUnique(log: seq<Decision>, key: string, windowMs: int, i: nat, j: nat, n: nat)
    requires i < n <= |log| && j < n && Latest(log, key, windowMs, i, n) && Latest(log, key, windowMs, j, n)
    ensures i == j
  {
    hide Opens;
  }

  /** The new charge opens a window exactly when the last opening, if there is one, has run its length. */
  lemma OpensNow(log: seq<Decision>, d: Decision, windowMs: int)
    ensures Opens(log + [d], windowMs, |log|) <==>
            forall i: nat | i < |log| && Latest(log, d.key, windowMs, i, |log|) :: d.now - log[i].now >= windowMs
  {
    var next := log + [d];
    forall i: nat | i < |log|
      ensures Latest(next, d.key, windowMs, i, |log|) == Latest(log, d.key, windowMs, i, |log|) && next[i] == log[i]
    {
      LatestPrefix(log, [d], d.key, windowMs, i, |log|);
    }
  }

  /** The table holds, for each key, the last opening and what was granted since. */
  ghost predicate Reflects(log: seq<Decision>, windowMs: int, key: string, windows: Windows) {
    if key in windows
    then exists i: nat :: i < |log| && Latest(log, key, windowMs, i, |log|) &&
                          windows[key] == Window(log[i].now, Total(log[i..], key))
    else forall i: nat | i < |log| :: !Latest(log, key, windowMs, i, |log|)
  }

  lemma TotalGrows(log: seq<Decision>, d: Decision, key: string, i: nat)
    requires i <= |log|
    ensures Total((log + [d])[i..], key) == Total(log[i..], key) + if d.granted && d.key == key then d.weight else 0
  {
    assert (log + [d])[i..] == log[i..] + [d];
    assert (log[i..] + [d])[..|log| - i] == log[i..];
  }

  /** The window the charge opened is the last of its key, and still runs. */
  ghost predicate InForceSince(log: seq<Decision>, windowMs: int, now: int, key: string, i: nat) {
    i < |log| && Latest(log, key, windowMs, i, |log|) && now - log[i].now < windowMs
  }

  /** Granted is what fits beside all that was granted since the window in force was opened. */
  ghost predicate Exact(log: seq<Decision>, windowMs: int, c: Call, granted: bool)
    requires c.TryAcquire?
  {
    && (forall i: nat :: InForceSince(log, windowMs, c.now, c.key, i) ==>
         (granted <==> Total(log[i..], c.key) + c.weight <= c.limit))
    && ((forall i: nat :: !InForceSince(log, windowMs, c.now, c.key, i)) ==> (granted <==> c.weight <= c.limit))
  }

  lemma ReflectsDecides(log: seq<Decision>, windowMs: int, windows: Windows, c: Call)
    requires c.TryAcquire? && Reflects(log, windowMs, c.key, windows)
    ensures Exact(log, windowMs, c, Admits(windows, windowMs, c.now, c.key, c.weight, c.limit))
  {
    hide Total, Latest;
    if c.key in windows {
      var i: nat :| i < |log| && Latest(log, c.key, windowMs, i, |log|) &&
                    windows[c.key] == Window(log[i].now, Total(log[i..], c.key));
      forall j: nat | InForceSince(log, windowMs, c.now, c.key, j) ensures i == j {
        LatestUnique(log, c.key, windowMs, i, j, |log|);
      }
      assert c.now - log[i].now < windowMs ==> InForceSince(log, windowMs, c.now, c.key, i);
    }
  }

  lemma ChargeReflects(log: seq<Decision>, windowMs: int, windows: Windows, c: Call, d: Decision)
    requires c.TryAcquire? && Reflects(log, windowMs, c.key, windows)
    requires d == Decision(c.now, c.key, c.weight, Admits(windows, windowMs, c.now, c.key, c.weight, c.limit))
    ensures Reflects(log + [d], windowMs, c.key, Charge(windows, windowMs, c.now, c.key, c.weight, c.limit))
  {
    hide Total, Latest, Opens;
    var next := log + [d];
    OpensNow(log, d, windowMs);
    if Opens(next, windowMs, |log|) {
      LatestGrows(log, d, c.key, windowMs, |log|);
      TotalGrows(log, d, c.key, |log|);
      NoTotal(c.key);
      assert log[|log|..] == [];
      assert c.key in windows ==> Expired(windows[c.key], windowMs, c.now);
    } else {
      var i: nat :| i < |log| && Latest(log, c.key, windowMs, i, |log|) && c.now - log[i].now < windowMs;
      LatestGrows(log, d, c.key, windowMs, i);
      TotalGrows(log, d, c.key, i);
      forall j: nat | j < |log| && Latest(log, c.key, windowMs, j, |log|) ensures j == i {
        LatestUnique(log, c.key, windowMs, i, j, |log|);
      }
      assert next[i] == log[i];
    }
  }

  lemma NoTotal(key: string)
    ensures Total([], key) == 0
  {
  }

  lemma OtherReflects(log: seq<Decision>, windowMs: int, key: string, windows: Windows, changed: Windows, d: Decision)
    requires d.key != key && Reflects(log, windowMs, key, windows)
    requires (key in changed <==> key in windows) && (key in windows ==> changed[key] == windows[key])
    ensures Reflects(log + [d], windowMs, key, changed)
  {
    hide Total, Latest, Opens;
    var next := log + [d];
    forall i: nat | i <= |log| ensures Latest(next, key, windowMs, i, |next|) <==>
                                       i < |log| && Latest(log, key, windowMs, i, |log|) {
      LatestGrows(log, d, key, windowMs, i);
    }
    if key in windows {
      var i: nat :| i < |log| && Latest(log, key, windowMs, i, |log|) &&
                    windows[key] == Window(log[i].now, Total(log[i..], key));
      TotalGrows(log, d, key, i);
      assert next[i] == log[i];
    }
  }

  ghost predicate NoPrunes(calls: seq<Call>) {
    forall c :: c in calls ==> c.TryAcquire?
  }

  lemma {:induction false} RunReflects(calls: seq<Call>, windowMs: int, key: string)
    requires NoPrunes(calls)
    ensures Reflects(Decisions(calls, windowMs), windowMs, key, After(calls, windowMs))
  {
    hide Reflects, Charge, Admits;
    if calls == [] {
      NothingReflected(windowMs, key);
    } else {
      var init, c := calls[..|calls| - 1], calls[|calls| - 1];
      assert calls == init + [c];
      RunReflects(init, windowMs, key);
      CallReflects(init, windowMs, key, c);
    }
  }

  lemma NothingReflected(windowMs: int, key: string)
    ensures Reflects(Decisions([], windowMs), windowMs, key, After([], windowMs))
  {
  }

  lemma CallReflects(init: seq<Call>, windowMs: int, key: string, c: Call)
    requires c.TryAcquire? && Reflects(Decisions(init, windowMs), windowMs, key, After(init, windowMs))
    ensures Reflects(Decisions(init + [c], windowMs), windowMs, key, After(init + [c], windowMs))
  {
    hide Reflects, Admits;
    var log, windows := Decisions(init, windowMs), After(init, windowMs);
    var d := Decision(c.now, c.key, c.weight, Admits(windows, windowMs, c.now, c.key, c.weight, c.limit));
    OneMore(init, windowMs, c);
    if c.key == key {
      ChargeReflects(log, windowMs, windows, c, d);
    } else {
      OtherReflects(log, windowMs, key, windows, Charge(windows, windowMs, c.now, c.key, c.weight, c.limit), d);
    }
  }

  /**
   Without pruning, whatever the clock does: a charge is granted exactly when its weight fits the
   limit beside all that was granted to its key since the window in force was opened.
   */
  lemma GrantedExactly(calls: seq<Call>, windowMs: int, c: Call)
    requires c.TryAcquire? && NoPrunes(calls)
    ensures var log, next := Decisions(calls, windowMs), Decisions(calls + [c], windowMs);
            |next| == |log| + 1 && Exact(log, windowMs, c, next[|log|].granted)
  {
    hide Reflects, Admits, Exact;
    RunReflects(calls, windowMs, c.key);
    OneMore(calls, windowMs, c);
    ReflectsDecides(Decisions(calls, windowMs), windowMs, After(calls, windowMs), c);
  }

  lemma {:induction false} PrunesDropped(calls: seq<Call>)
    ensures NoPrunes(WithoutPrunes(calls))
  {
    if calls != [] { PrunesDropped(calls[..|calls| - 1]); }
  }

  /** With pruning anywhere, for a clock that does not run backwards. */
  lemma GrantedWhilePruning(calls: seq<Call>, windowMs: int, c: Call)
    requires c.TryAcquire? && Clock(calls + [c])
    ensures var log, next := Decisions(calls, windowMs), Decisions(calls + [c], windowMs);
            |next| == |log| + 1 && Exact(log, windowMs, c, next[|log|].granted)
  {
    hide Exact, Decisions, Granted;
    var full := WithoutPrunes(calls);
    assert forall i :: 0 <= i < |calls| ==> (calls + [c])[i] == calls[i];
    PruneChangesNothing(calls, windowMs);
    PruneChangesNothing(calls + [c], windowMs);
    assert (calls + [c])[..|calls|] == calls;
    PrunesDropped(calls);
    GrantedExactly(full, windowMs, c);
  }

  // ----- the same by the clock -----

  ghost predicate Ordered(log: seq<Decision>) {
    forall i, j :: 0 <= i < j < |log| ==> log[i].now <= log[j].now
  }

  lemma {:induction false} HasLatest(log: seq<Decision>, key: string, windowMs: int, n: nat)
    requires n <= |log| && exists j :: 0 <= j < n && log[j].key == key
    ensures exists i: nat :: i < n && Latest(log, key, windowMs, i, n)
    decreases n
  {
    hide Opens;
    var j :| 0 <= j < n && log[j].key == key;
    var last := n - 1;
    if log[last].key == key && Opens(log, windowMs, last) {
      assert Latest(log, key, windowMs, last, n);
    } else if i: nat :| i < last && log[i].key == key {
      HasLatest(log, key, windowMs, last);
      var o: nat :| o < last && Latest(log, key, windowMs, o, last);
      assert Latest(log, key, windowMs, o, n);
    } else {
      FirstOpens(log, key, windowMs, last);
    }
  }

  lemma FirstOpens(log: seq<Decision>, key: string, windowMs: int, i: nat)
    requires i < |log| && log[i].key == key && forall j :: 0 <= j < i ==> log[j].key != key
    ensures Opens(log, windowMs, i)
  {
  }

  /** What comes before an opening lies before it in time. */
  lemma EarlierBefore(log: seq<Decision>, windowMs: int, i: nat, j: nat)
    requires windowMs > 0 && Ordered(log) && j < i < |log| && log[j].key == log[i].key && Opens(log, windowMs, i)
    ensures log[j].now < log[i].now
  {
    var key := log[i].key;
    HasLatest(log, key, windowMs, i);
    var o: nat :| o < i && Latest(log, key, windowMs, o, i);
    assert log[i].now - log[o].now >= windowMs;
    hide Opens;
    if o < j {
      NotOpening(log, windowMs, j);
      var k: nat :| k < j && Latest(log, key, windowMs, k, j) && log[j].now - log[k].now < windowMs;
      assert Latest(log, key, windowMs, o, j);
      LatestUnique(log, key, windowMs, o, k, j);
    }
  }

  lemma NotOpening(log: seq<Decision>, windowMs: int, j: nat)
    requires j < |log| && !Opens(log, windowMs, j)
    ensures exists k: nat :: k < j && Latest(log, log[j].key, windowMs, k, j) && log[j].now - log[k].now < windowMs
  {
  }

  lemma {:induction false} TotalIsGranted(log: seq<Decision>, key: string, i: nat, from: int, to: int)
    requires i <= |log|
    requires forall j :: 0 <= j < i && log[j].key == key ==> log[j].now < from
    requires forall j :: i <= j < |log| && log[j].key == key ==> from <= log[j].now < to
    ensures Total(log[i..], key) == Granted(log, key, from, to)
  {
    if |log| > 0 {
      var init := log[..|log| - 1];
      if i < |log| {
        assert forall j :: 0 <= j < |init| ==> init[j] == log[j];
        TotalIsGranted(init, key, i, from, to);
        TotalGrows(init, log[|log| - 1], key, i);
        assert log == init + [log[|log| - 1]];
      } else {
        assert log[i..] == [];
        TotalIsGranted(init, key, i - 1, from, to);
        assert init[i - 1..] == [];
      }
    }
  }

  lemma {:induction false} DecisionsOrdered(calls: seq<Call>, windowMs: int)
    requires Clock(calls)
    ensures Ordered(Decisions(calls, windowMs))
    ensures forall d :: d in Decisions(calls, windowMs) ==> calls != [] && d.now <= calls[|calls| - 1].now
  {
    hide After, Admits;
    if calls != [] {
      var init := calls[..|calls| - 1];
      DecisionsOrdered(init, windowMs);
      var log := Decisions(init, windowMs);
      assert forall i :: 0 <= i < |log| ==> log[i] in log;
    }
  }

  /**
   The decision from the log and the clock: granted exactly when the weight fits the limit beside
   what was granted from the start of the window in force to now.
   */
  lemma GrantedInWindow(calls: seq<Call>, windowMs: int, c: Call, i: nat)
    requires windowMs > 0 && c.TryAcquire? && Clock(calls + [c])
    requires InForceSince(Decisions(calls, windowMs), windowMs, c.now, c.key, i)
    ensures var log, next := Decisions(calls, windowMs), Decisions(calls + [c], windowMs);
            && |next| == |log| + 1
            && (next[|log|].granted <==> Granted(log, c.key, log[i].now, c.now + 1) + c.weight <= c.limit)
  {
    var log := Decisions(calls, windowMs);
    GrantedWhilePruning(calls, windowMs, c);
    LogBefore(calls, windowMs, c);
    assert Latest(log, c.key, windowMs, i, |log|);
    hide Latest, Opens, Decisions, Total, Granted, Clock;
    forall j: nat | j < i && log[j].key == c.key ensures log[j].now < log[i].now {
      OpeningOf(log, c.key, windowMs, i);
      EarlierBefore(log, windowMs, i, j);
    }
    TotalIsGranted(log, c.key, i, log[i].now, c.now + 1);
  }

  lemma OpeningOf(log: seq<Decision>, key: string, windowMs: int, i: nat)
    requires i < |log| && Latest(log, key, windowMs, i, |log|)
    ensures log[i].key == key && Opens(log, windowMs, i)
  {
  }

  lemma LogBefore(calls: seq<Call>, windowMs: int, c: Call)
    requires Clock(calls + [c])
    ensures var log := Decisions(calls, windowMs);
            Ordered(log) && forall j :: 0 <= j < |log| ==> log[j].now <= c.now
  {
    hide Decisions;
    assert forall k :: 0 <= k < |calls| ==> (calls + [c])[k] == calls[k];
    assert (calls + [c])[|calls|] == c;
    DecisionsOrdered(calls, windowMs);
    var log := Decisions(calls, windowMs);
    assert forall j :: 0 <= j < |log| ==> log[j] in log;
  }
}
