/**
 The in-memory fixed-window rate limiter: what a run of calls may be granted, and that
 housekeeping never shows. The clock a call reads is a parameter of the call.
 */
module RateLimit {

  datatype Window = Window(windowStartMs: int, count: int)

  datatype Call =
    | TryAcquire(now: int, key: string, weight: nat, limit: nat)
    | Prune(now: int)

  datatype Decision = Decision(now: int, key: string, weight: nat, granted: bool)

  type Windows = map<string, Window>

  // ----- one call -----

  predicate Expired(entry: Window, windowMs: int, now: int) {
    now - entry.windowStartMs >= windowMs
  }

  /** The window a charge is made against: the stored one, or a new one from now on. */
  function InForce(windows: Windows, windowMs: int, now: int, key: string): Window {
    if key !in windows || Expired(windows[key], windowMs, now) then Window(now, 0) else windows[key]
  }

  predicate Admits(windows: Windows, windowMs: int, now: int, key: string, weight: nat, limit: nat) {
    InForce(windows, windowMs, now, key).count + weight <= limit
  }

  function Charge(windows: Windows, windowMs: int, now: int, key: string, weight: nat, limit: nat): Windows {
    var entry := InForce(windows, windowMs, now, key);
    windows[key := if Admits(windows, windowMs, now, key, weight, limit)
                   then entry.(count := entry.count + weight) else entry]
  }

  function Live(windows: Windows, windowMs: int, now: int): Windows {
    map key | key in windows && !Expired(windows[key], windowMs, now) :: windows[key]
  }

  // ----- runs -----

  function After(calls: seq<Call>, windowMs: int): Windows {
    if calls == [] then map[]
    else
      var windows := After(calls[..|calls| - 1], windowMs);
      match calls[|calls| - 1]
      case TryAcquire(now, key, weight, limit) => Charge(windows, windowMs, now, key, weight, limit)
      case Prune(now) => Live(windows, windowMs, now)
  }

  function Decisions(calls: seq<Call>, windowMs: int): seq<Decision> {
    if calls == [] then []
    else
      var init := calls[..|calls| - 1];
      match calls[|calls| - 1]
      case TryAcquire(now, key, weight, limit) =>
        Decisions(init, windowMs) +
        [Decision(now, key, weight, Admits(After(init, windowMs), windowMs, now, key, weight, limit))]
      case Prune(_) => Decisions(init, windowMs)
  }

  lemma OneMore(calls: seq<Call>, windowMs: int, c: Call)
    requires c.TryAcquire?
    ensures After(calls + [c], windowMs) ==
            Charge(After(calls, windowMs), windowMs, c.now, c.key, c.weight, c.limit)
    ensures Decisions(calls + [c], windowMs) ==
            Decisions(calls, windowMs) +
            [Decision(c.now, c.key, c.weight,
              Admits(After(calls, windowMs), windowMs, c.now, c.key, c.weight, c.limit))]
  {
    assert (calls + [c])[..|calls|] == calls;
  }

  /** The clock never runs backwards. */
  ghost predicate Clock(calls: seq<Call>) {
    forall i, j :: 0 <= i < j < |calls| ==> calls[i].now <= calls[j].now
  }

  /** Every charge against the key names the same limit. */
  ghost predicate FixedLimit(calls: seq<Call>, key: string, limit: nat) {
    forall c :: c in calls && c.TryAcquire? && c.key == key ==> c.limit == limit
  }

  /** The weight granted to the key from `from` on and before `to`. */
  ghost function Granted(log: seq<Decision>, key: string, from: int, to: int): nat {
    if log == [] then 0
    else
      var last := log[|log| - 1];
      Granted(log[..|log| - 1], key, from, to) +
      if last.granted && last.key == key && from <= last.now < to then last.weight else 0
  }

  // ----- housekeeping is invisible -----

  function WithoutPrunes(calls: seq<Call>): seq<Call> {
    if calls == [] then []
    else
      var init := WithoutPrunes(calls[..|calls| - 1]);
      if calls[|calls| - 1].Prune? then init else init + [calls[|calls| - 1]]
  }

  /** The pruned table holds the same entries, short only of ones that have expired. */
  ghost predicate Lags(pruned: Windows, full: Windows, windowMs: int, now: int) {
    && (forall key :: key in pruned ==> key in full && full[key] == pruned[key])
    && forall key :: key in full && key !in pruned ==> Expired(full[key], windowMs, now)
  }

  lemma ChargeKeepsLag(pruned: Windows, full: Windows, windowMs: int, c: Call, now: int)
    requires c.TryAcquire? && c.now <= now && Lags(pruned, full, windowMs, c.now)
    ensures Admits(pruned, windowMs, c.now, c.key, c.weight, c.limit) ==
            Admits(full, windowMs, c.now, c.key, c.weight, c.limit)
    ensures Lags(Charge(pruned, windowMs, c.now, c.key, c.weight, c.limit),
                 Charge(full, windowMs, c.now, c.key, c.weight, c.limit), windowMs, now)
  {
    assert InForce(pruned, windowMs, c.now, c.key) == InForce(full, windowMs, c.now, c.key);
  }

  lemma PruneKeepsLag(pruned: Windows, full: Windows, windowMs: int, at: int, now: int)
    requires at <= now && Lags(pruned, full, windowMs, at)
    ensures Lags(Live(pruned, windowMs, at), full, windowMs, now)
  {
  }

  lemma {:induction false} PrunedLags(calls: seq<Call>, windowMs: int, now: int)
    requires Clock(calls) && (calls != [] ==> calls[|calls| - 1].now <= now)
    ensures Lags(After(calls, windowMs), After(WithoutPrunes(calls), windowMs), windowMs, now)
    ensures Decisions(calls, windowMs) == Decisions(WithoutPrunes(calls), windowMs)
  {
    hide Charge, Live, Admits;
    if calls != [] {
      var init, last := calls[..|calls| - 1], calls[|calls| - 1];
      PrunedLags(init, windowMs, last.now);
      var pruned, full := After(init, windowMs), After(WithoutPrunes(init), windowMs);
      if last.TryAcquire? {
        ChargeKeepsLag(pruned, full, windowMs, last, now);
        OneMore(WithoutPrunes(init), windowMs, last);
      } else {
        PruneKeepsLag(pruned, full, windowMs, last.now, now);
      }
    }
  }

  /** Pruning anywhere in a run never changes a decision. */
  lemma PruneChangesNothing(calls: seq<Call>, windowMs: int)
    requires Clock(calls)
    ensures Decisions(calls, windowMs) == Decisions(WithoutPrunes(calls), windowMs)
  {
    if calls != [] { PrunedLags(calls, windowMs, calls[|calls| - 1].now); }
  }

  // ----- the sliding bound -----

  lemma {:induction false} GrantedSplits(log: seq<Decision>, key: string, from: int, mid: int, to: int)
    requires from <= mid <= to
    ensures Granted(log, key, from, to) == Granted(log, key, from, mid) + Granted(log, key, mid, to)
  {
    if log != [] { GrantedSplits(log[..|log| - 1], key, from, mid, to); }
  }

  lemma {:induction false} NothingInside(log: seq<Decision>, key: string, from: int, to: int)
    requires to <= from
    ensures Granted(log, key, from, to) == 0
  {
    if log != [] { NothingInside(log[..|log| - 1], key, from, to); }
  }

  lemma GrantedPart(log: seq<Decision>, key: string, from: int, low: int, high: int, to: int)
    requires from <= low && high <= to
    ensures Granted(log, key, low, high) <= Granted(log, key, from, to)
  {
    if high <= low {
      NothingInside(log, key, low, high);
    } else {
      GrantedSplits(log, key, from, low, to);
      GrantedSplits(log, key, low, high, to);
    }
  }

  lemma GrantedMore(log: seq<Decision>, d: Decision, key: string, from: int, to: int)
    ensures Granted(log + [d], key, from, to) ==
            Granted(log, key, from, to) + if d.granted && d.key == key && from <= d.now < to then d.weight else 0
  {
    assert (log + [d])[..|log|] == log;
  }

  /** What the stored window says of all that was granted so far. */
  ghost predicate Accounts(log: seq<Decision>, key: string, windowMs: int, limit: nat, entry: Window) {
    var start := entry.windowStartMs;
    && 0 <= entry.count <= limit
    && (forall to :: Granted(log, key, start, to) <= entry.count)
    && Granted(log, key, start, start + windowMs) == entry.count
    && (forall from, to :: start + windowMs <= from ==> Granted(log, key, from, to) == 0)
    && (forall from :: start - windowMs < from ==> Granted(log, key, from, start) <= limit)
  }

  ghost predicate Twice(log: seq<Decision>, key: string, windowMs: int, limit: nat) {
    forall from, to :: to <= from + windowMs ==> Granted(log, key, from, to) <= 2 * limit
  }

  ghost predicate Bounded(log: seq<Decision>, key: string, windowMs: int, limit: nat, windows: Windows) {
    && Twice(log, key, windowMs, limit)
    && if key in windows then Accounts(log, key, windowMs, limit, windows[key])
       else forall from, to :: Granted(log, key, from, to) == 0
  }

  /** A new window opens with nothing granted in it. */
  lemma WindowOpens(log: seq<Decision>, key: string, windowMs: int, limit: nat, entry: Window, now: int)
    requires windowMs > 0 && Accounts(log, key, windowMs, limit, entry) && Expired(entry, windowMs, now)
    ensures Accounts(log, key, windowMs, limit, Window(now, 0))
  {
    var start := entry.windowStartMs;
    forall from | now - windowMs < from ensures Granted(log, key, from, now) <= limit {
      GrantedPart(log, key, start, from, now, now);
    }
  }

  lemma FirstWindowOpens(log: seq<Decision>, key: string, windowMs: int, limit: nat, now: int)
    requires forall from, to :: Granted(log, key, from, to) == 0
    ensures Accounts(log, key, windowMs, limit, Window(now, 0))
  {
  }

  /** A charge that fits keeps the account, and the bound on every sliding interval. */
  lemma ChargeFits(log: seq<Decision>, key: string, windowMs: int, limit: nat, entry: Window, d: Decision)
    requires Accounts(log, key, windowMs, limit, entry) && Twice(log, key, windowMs, limit)
    requires d.key == key && d.granted && entry.windowStartMs <= d.now && !Expired(entry, windowMs, d.now)
    requires entry.count + d.weight <= limit
    ensures Accounts(log + [d], key, windowMs, limit, entry.(count := entry.count + d.weight))
    ensures Twice(log + [d], key, windowMs, limit)
  {
    var start, next := entry.windowStartMs, log + [d];
    forall from, to
      ensures Granted(next, key, from, to) ==
              Granted(log, key, from, to) + if from <= d.now < to then d.weight else 0
    {
      GrantedMore(log, d, key, from, to);
    }
    forall from, to | to <= from + windowMs ensures Granted(next, key, from, to) <= 2 * limit {
      if from <= d.now < to {
        if start <= from {
          GrantedPart(log, key, start, from, to, to);
        } else {
          GrantedSplits(log, key, from, start, to);
        }
      }
    }
  }

  lemma RefusalKeeps(log: seq<Decision>, key: string, windowMs: int, limit: nat, windows: Windows, d: Decision)
    requires Bounded(log, key, windowMs, limit, windows) && (d.key != key || !d.granted)
    ensures Bounded(log + [d], key, windowMs, limit, windows)
  {
    var next := log + [d];
    forall from, to ensures Granted(next, key, from, to) == Granted(log, key, from, to) {
      GrantedMore(log, d, key, from, to);
    }
  }

  lemma ChargeKeeps(log: seq<Decision>, key: string, windowMs: int, limit: nat, windows: Windows, now: int, weight: nat)
    requires windowMs > 0 && Bounded(log, key, windowMs, limit, windows)
    requires key in windows ==> windows[key].windowStartMs <= now
    ensures Bounded(log + [Decision(now, key, weight, Admits(windows, windowMs, now, key, weight, limit))],
                    key, windowMs, limit, Charge(windows, windowMs, now, key, weight, limit))
  {
    hide Accounts, Twice;
    var entry := InForce(windows, windowMs, now, key);
    if key !in windows {
      FirstWindowOpens(log, key, windowMs, limit, now);
    } else if Expired(windows[key], windowMs, now) {
      WindowOpens(log, key, windowMs, limit, windows[key], now);
    }
    var d := Decision(now, key, weight, Admits(windows, windowMs, now, key, weight, limit));
    if d.granted {
      ChargeFits(log, key, windowMs, limit, entry, d);
    } else {
      RefusalKeeps(log, key, windowMs, limit, windows[key := entry], d);
    }
  }

  lemma CallKeeps(log: seq<Decision>, key: string, windowMs: int, limit: nat, windows: Windows, c: Call)
    requires windowMs > 0 && Bounded(log, key, windowMs, limit, windows)
    requires key in windows ==> windows[key].windowStartMs <= c.now
    requires c.TryAcquire? && (c.key == key ==> c.limit == limit)
    ensures Bounded(log +
              [Decision(c.now, c.key, c.weight, Admits(windows, windowMs, c.now, c.key, c.weight, c.limit))],
                    key, windowMs, limit, Charge(windows, windowMs, c.now, c.key, c.weight, c.limit))
  {
    hide Bounded;
    if c.key == key {
      ChargeKeeps(log, key, windowMs, limit, windows, c.now, c.weight);
    } else {
      var d := Decision(c.now, c.key, c.weight, Admits(windows, windowMs, c.now, c.key, c.weight, c.limit));
      RefusalKeeps(log, key, windowMs, limit, windows, d);
      OtherKey(log + [d], key, windowMs, limit, windows, Charge(windows, windowMs, c.now, c.key, c.weight, c.limit));
    }
  }

  lemma {:induction false} RunIsBounded(calls: seq<Call>, windowMs: int, key: string, limit: nat)
    requires windowMs > 0 && Clock(calls) && FixedLimit(calls, key, limit)
    ensures Bounded(Decisions(calls, windowMs), key, windowMs, limit, After(WithoutPrunes(calls), windowMs))
    ensures var windows := After(WithoutPrunes(calls), windowMs);
            key in windows ==> calls != [] && windows[key].windowStartMs <= calls[|calls| - 1].now
  {
    hide Bounded, Lags, Granted, After, Decisions;
    if calls == [] {
      NothingGranted(key, windowMs, limit);
    } else {
      var init, last := calls[..|calls| - 1], calls[|calls| - 1];
      assert calls == init + [last];
      RunIsBounded(init, windowMs, key, limit);
      PruneChangesNothing(init, windowMs);
      PruneChangesNothing(calls, windowMs);
      if last.TryAcquire? {
        var full := WithoutPrunes(init);
        assert last in calls;
        OneMore(full, windowMs, last);
        CallKeeps(Decisions(full, windowMs), key, windowMs, limit, After(full, windowMs), last);
      }
    }
  }

  lemma NothingGranted(key: string, windowMs: int, limit: nat)
    ensures Bounded(Decisions([], windowMs), key, windowMs, limit, After([], windowMs))
    ensures key !in After([], windowMs)
  {
  }

  lemma OtherKey(log: seq<Decision>, key: string, windowMs: int, limit: nat, windows: Windows, changed: Windows)
    requires Bounded(log, key, windowMs, limit, windows)
    requires key in changed <==> key in windows
    requires key in windows ==> changed[key] == windows[key]
    ensures Bounded(log, key, windowMs, limit, changed)
  {
  }

  /**
   In every run, the weight granted to a key inside any interval of one window length is
   at most twice the limit, wherever the interval begins.
   */
  lemma AtMostTwice(calls: seq<Call>, windowMs: int, key: string, limit: nat, from: int)
    requires Clock(calls) && FixedLimit(calls, key, limit)
    ensures Granted(Decisions(calls, windowMs), key, from, from + windowMs) <= 2 * limit
  {
    if windowMs > 0 {
      RunIsBounded(calls, windowMs, key, limit);
    } else {
      NothingInside(Decisions(calls, windowMs), key, from, from + windowMs);
    }
  }

  /** What a stored window counts is exactly what was granted in it, and within the limit. */
  lemma WindowHoldsLimit(calls: seq<Call>, windowMs: int, key: string, limit: nat)
    requires windowMs > 0 && Clock(calls) && FixedLimit(calls, key, limit)
    requires key in After(calls, windowMs)
    ensures var entry := After(calls, windowMs)[key];
            Granted(Decisions(calls, windowMs), key, entry.windowStartMs, entry.windowStartMs + windowMs) ==
              entry.count <= limit
  {
    RunIsBounded(calls, windowMs, key, limit);
    PrunedLags(calls, windowMs, calls[|calls| - 1].now);
  }

  /** Twice the limit is reached: a full window's worth at its end, another right after it. */
  lemma BoundIsReached(windowMs: int, key: string, limit: nat) returns (calls: seq<Call>)
    requires windowMs >= 2
    ensures Clock(calls) && FixedLimit(calls, key, limit)
    ensures Granted(Decisions(calls, windowMs), key, windowMs - 1, 2 * windowMs - 1) == 2 * limit
  {
    var open := TryAcquire(0, key, 0, limit);
    var full := TryAcquire(windowMs - 1, key, limit, limit);
    var next := TryAcquire(windowMs, key, limit, limit);
    calls := [open, full, next];
    assert [] + [open] == [open] && [open] + [full] == [open, full] && [open, full] + [next] == calls;
    OneMore([], windowMs, open);
    OneMore([open], windowMs, full);
    OneMore([open, full], windowMs, next);
    var low, high := windowMs - 1, 2 * windowMs - 1;
    var d0, d1, d2 := Decision(0, key, 0, true), Decision(windowMs - 1, key, limit, true),
                      Decision(windowMs, key, limit, true);
    assert Decisions(calls, windowMs) == ([] + [d0] + [d1]) + [d2];
    GrantedMore([], d0, key, low, high);
    GrantedMore([] + [d0], d1, key, low, high);
    GrantedMore([] + [d0] + [d1], d2, key, low, high);
  }

  // ----- the object -----

  /** `calls` is the run so far; every method keeps the table what that run leaves. */
  class FixedWindowLimiter {
    const windowMs: int
    var windows: Windows
    ghost var calls: seq<Call>

    ghost predicate Valid()
      reads this
    {
      windows == After(calls, windowMs)
    }

    constructor (windowMs: int)
      ensures Valid() && calls == [] && this.windowMs == windowMs
    {
      this.windowMs := windowMs;
      windows, calls := map[], [];
    }

    method TryAcquire(now: int, key: string, weight: nat, limit: nat) returns (granted: bool)
      requires Valid()
      modifies this
      ensures Valid() && calls == old(calls) + [Call.TryAcquire(now, key, weight, limit)]
      ensures Decisions(calls, windowMs) == Decisions(old(calls), windowMs) + [Decision(now, key, weight, granted)]
    {
      var charge := Call.TryAcquire(now, key, weight, limit);
      OneMore(calls, windowMs, charge);
      var entry: Window;
      if key !in windows || now - windows[key].windowStartMs >= windowMs {
        entry := Window(now, 0);
        windows := windows[key := entry];
      } else {
        entry := windows[key];
      }
      calls := calls + [charge];
      if entry.count + weight > limit { return false; }
      windows := windows[key := entry.(count := entry.count + weight)];
      return true;
    }

    method Prune(now: int)
      requires Valid()
      modifies this
      ensures Valid() && calls == old(calls) + [Call.Prune(now)]
      ensures windows == Live(old(windows), windowMs, now)
    {
      assert (calls + [Call.Prune(now)])[..|calls|] == calls;
      var todo := windows.Keys;
      while todo != {}
        invariant todo <= windows.Keys <= old(windows).Keys && calls == old(calls)
        invariant forall key :: key in old(windows) ==>
                    (key in windows <==> key in todo || !Expired(old(windows)[key], windowMs, now))
        invariant forall key :: key in windows ==> windows[key] == old(windows)[key]
        decreases todo
      {
        var key :| key in todo;
        if now - windows[key].windowStartMs >= windowMs { windows := windows - {key}; }
        todo := todo - {key};
      }
      calls := calls + [Call.Prune(now)];
    }
  }
}
