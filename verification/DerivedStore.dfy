/**
 A workspace's derived store and its replay from the relay log.

 `Store.apply` is a parameter: a deterministic partial function of the store and an
 envelope. When it succeeds the envelope's id is recorded; when it rejects nothing changes.
 */
module DerivedStore {
  import opened RelayLog
  import opened Text
  import opened Wrappers

  /** The derived state and the applied_envelope table. */
  datatype Store<S> = Store(state: S, applied: set<string>)

  type Applier<!S> = (Store<S>, Envelope) -> Option<S>

  function Recorded<S>(s: S, st: Store<S>, e: Envelope): Store<S> {
    Store(s, st.applied + {e.id})
  }

  /** An envelope the pass tries: not applied yet, and not sealed. */
  predicate Tried<S>(st: Store<S>, e: Envelope) {
    e.id !in st.applied && !e.sealed
  }

  /** One turn of a pass: skip, apply or leave pending. */
  function ReplayOne<S>(f: Applier<S>, st: Store<S>, e: Envelope): Store<S> {
    if !Tried(st, e) then st
    else
      match f(st, e)
      case None => st
      case Some(s) => Recorded(s, st, e)
  }

  function Replay<S>(f: Applier<S>, st: Store<S>, es: seq<Envelope>): Store<S> {
    if es == [] then st else ReplayOne(f, Replay(f, st, es[..|es| - 1]), es[|es| - 1])
  }

  /** Whether the pass over es rejects its i-th envelope. */
  predicate Rejected<S>(f: Applier<S>, st: Store<S>, es: seq<Envelope>, i: nat)
    requires i < |es|
  {
    var at := Replay(f, st, es[..i]);
    Tried(at, es[i]) && f(at, es[i]).None?
  }

  /** The pending count of a pass. */
  function Pending<S>(f: Applier<S>, st: Store<S>, es: seq<Envelope>): nat {
    if es == [] then 0
    else
      var init := es[..|es| - 1];
      Pending(f, st, init) + if Rejected(f, st, es, |init|) then 1 else 0
  }

  /** The batch apply of the write path: all envelopes in one transaction, known ids skipped. */
  function ApplyMany<S>(f: Applier<S>, st: Store<S>, es: seq<Envelope>): Option<Store<S>> {
    if es == [] then Some(st)
    else
      match ApplyMany(f, st, es[..|es| - 1])
      case None => None
      case Some(mid) =>
        var e := es[|es| - 1];
        if e.id in mid.applied then Some(mid)
        else
          match f(mid, e)
          case None => None
          case Some(s) => Some(Recorded(s, mid, e))
  }

  function IdsOf(es: seq<Envelope>): set<string> {
    set e | e in es :: e.id
  }

  // ----- passes -----

  lemma {:induction false} ReplayConcat<S>(f: Applier<S>, st: Store<S>, a: seq<Envelope>, b: seq<Envelope>)
    ensures Replay(f, st, a + b) == Replay(f, Replay(f, st, a), b)
  {
    if b == [] {
      assert a + b == a;
    } else {
      assert (a + b)[..|a + b| - 1] == a + b[..|b| - 1];
      ReplayConcat(f, st, a, b[..|b| - 1]);
    }
  }

  lemma {:induction false} PendingConcat<S>(f: Applier<S>, st: Store<S>, a: seq<Envelope>, b: seq<Envelope>)
    ensures Pending(f, st, a + b) == Pending(f, st, a) + Pending(f, Replay(f, st, a), b)
  {
    if b == [] {
      assert a + b == a;
    } else {
      var init := b[..|b| - 1];
      assert (a + b)[..|a + b| - 1] == a + init;
      PendingConcat(f, st, a, init);
      ReplayConcat(f, st, a, init);
    }
  }

  /** A pass only adds ids, and only ids of the envelopes it was given. */
  lemma {:induction false} ReplayBounds<S>(f: Applier<S>, st: Store<S>, es: seq<Envelope>)
    ensures st.applied <= Replay(f, st, es).applied <= st.applied + IdsOf(es)
  {
    if es != [] {
      ReplayBounds(f, st, es[..|es| - 1]);
      assert es[|es| - 1] in es;
    }
  }

  lemma {:induction false} ApplyManyBounds<S>(f: Applier<S>, st: Store<S>, es: seq<Envelope>)
    ensures ApplyMany(f, st, es).Some? ==>
              ApplyMany(f, st, es).value.applied == st.applied + IdsOf(es)
  {
    if es != [] {
      ApplyManyBounds(f, st, es[..|es| - 1]);
      assert es == es[..|es| - 1] + [es[|es| - 1]];
    }
  }

  /** Every plaintext envelope of a pass ends applied or was rejected at its turn. */
  lemma PassDecides<S>(f: Applier<S>, st: Store<S>, es: seq<Envelope>, i: nat)
    requires i < |es| && !es[i].sealed
    ensures es[i].id in Replay(f, st, es).applied || Rejected(f, st, es, i)
  {
    var at := Replay(f, st, es[..i]);
    assert es[..i + 1][..i] == es[..i];
    assert es == es[..i + 1] + es[i + 1..];
    ReplayConcat(f, st, es[..i + 1], es[i + 1..]);
    ReplayBounds(f, Replay(f, st, es[..i + 1]), es[i + 1..]);
  }

  /** A pass that records no id leaves the whole store as it was, at every turn. */
  lemma {:induction false} IdlePass<S>(f: Applier<S>, st: Store<S>, es: seq<Envelope>)
    requires Replay(f, st, es).applied == st.applied
    ensures forall i :: 0 <= i <= |es| ==> Replay(f, st, es[..i]) == st
  {
    if es == [] {
      assert es[..0] == [];
    } else {
      var init, last := es[..|es| - 1], es[|es| - 1];
      ReplayBounds(f, st, init);
      IdlePass(f, st, init);
      assert init[..|init|] == init && es[..|es|] == es;
      forall i | 0 <= i <= |es| ensures Replay(f, st, es[..i]) == st {
        if i < |es| { assert es[..i] == init[..i]; }
      }
    }
  }

  // ----- convergence, whatever the order of the log -----

  /** Each envelope is applicable exactly once its prerequisites are applied. */
  ghost predicate Gated<S(!new)>(f: Applier<S>, prereqs: Envelope -> set<string>) {
    forall st, e :: f(st, e).Some? <==> prereqs(e) <= st.applied
  }

  /** No plaintext envelope with its prerequisites in the set is missing from it. */
  ghost predicate Closed(ids: set<string>, es: seq<Envelope>, prereqs: Envelope -> set<string>) {
    forall e :: e in es && !e.sealed && prereqs(e) <= ids ==> e.id in ids
  }

  /** The store after n reopens over the same log. */
  function Passes<S>(f: Applier<S>, st: Store<S>, es: seq<Envelope>, n: nat): Store<S> {
    if n == 0 then st else Replay(f, Passes(f, st, es, n - 1), es)
  }

  ghost predicate Settled<S>(f: Applier<S>, st: Store<S>, es: seq<Envelope>) {
    Replay(f, st, es) == st
  }

  lemma {:induction false} PassStaysInside<S(!new)>(
      f: Applier<S>, prereqs: Envelope -> set<string>, st: Store<S>, es: seq<Envelope>, log: seq<Envelope>,
      ids: set<string>)
    requires Gated(f, prereqs) && Closed(ids, log, prereqs) && st.applied <= ids
    requires forall e :: e in es && !e.sealed ==> e in log
    ensures Replay(f, st, es).applied <= ids
  {
    if es != [] {
      var init := es[..|es| - 1];
      assert forall e :: e in init ==> e in es;
      PassStaysInside(f, prereqs, st, init, log, ids);
      assert es[|es| - 1] in es;
    }
  }

  lemma {:induction false} PassesStayInside<S(!new)>(
      f: Applier<S>, prereqs: Envelope -> set<string>, st: Store<S>, es: seq<Envelope>, log: seq<Envelope>,
      ids: set<string>, n: nat)
    requires Gated(f, prereqs) && Closed(ids, log, prereqs) && st.applied <= ids
    requires forall e :: e in es && !e.sealed ==> e in log
    ensures Passes(f, st, es, n).applied <= ids
  {
    if n > 0 {
      PassesStayInside(f, prereqs, st, es, log, ids, n - 1);
      PassStaysInside(f, prereqs, Passes(f, st, es, n - 1), es, log, ids);
    }
  }

  lemma SettledIsClosed<S(!new)>(f: Applier<S>, prereqs: Envelope -> set<string>, st: Store<S>, es: seq<Envelope>)
    requires Gated(f, prereqs) && Settled(f, st, es)
    ensures Closed(st.applied, es, prereqs)
  {
    IdlePass(f, st, es);
    forall e | e in es && !e.sealed && prereqs(e) <= st.applied ensures e.id in st.applied {
      var i :| 0 <= i < |es| && es[i] == e;
      PassDecides(f, st, es, i);
    }
  }

  lemma {:induction false} IdsBound(es: seq<Envelope>)
    ensures |IdsOf(es)| <= |es|
  {
    if es != [] {
      var init, last := es[..|es| - 1], es[|es| - 1];
      IdsBound(init);
      assert es == init + [last];
      assert IdsOf(es) == IdsOf(init) + {last.id};
    }
  }

  /** Before the store settles every pass records at least one more id. */
  lemma {:induction false} PassesGrow<S>(f: Applier<S>, st: Store<S>, es: seq<Envelope>, n: nat)
    ensures st.applied <= Passes(f, st, es, n).applied <= st.applied + IdsOf(es)
    ensures Settled(f, Passes(f, st, es, n), es) || |Passes(f, st, es, n).applied| >= |st.applied| + n
  {
    if n > 0 {
      PassesGrow(f, st, es, n - 1);
      var prev, next := Passes(f, st, es, n - 1), Passes(f, st, es, n);
      ReplayBounds(f, prev, es);
      SubsetSize(prev.applied, next.applied);
      if prev.applied == next.applied {
        IdlePass(f, prev, es);
        assert es[..|es|] == es;
      }
    }
  }

  /** Repeated reopens settle after at most as many passes as the log has envelopes. */
  lemma ReopensSettle<S>(f: Applier<S>, s0: S, es: seq<Envelope>)
    ensures Settled(f, Passes(f, Store(s0, {}), es, |es|), es)
  {
    var st: Store<S> := Store(s0, {});
    PassesGrow(f, st, es, |es|);
    PassesGrow(f, st, es, |es| + 1);
    var now, next := Passes(f, st, es, |es|), Passes(f, st, es, |es| + 1);
    IdsBound(es);
    SubsetSize(now.applied, IdsOf(es));
    SubsetSize(next.applied, IdsOf(es));
    if !Settled(f, now, es) {
      ReplayBounds(f, now, es);
      SubsetSize(now.applied, next.applied);
      IdleIsSettled(f, now, es);
    }
  }

  lemma IdleIsSettled<S>(f: Applier<S>, st: Store<S>, es: seq<Envelope>)
    ensures Replay(f, st, es).applied == st.applied ==> Settled(f, st, es)
  {
    if Replay(f, st, es).applied == st.applied {
      IdlePass(f, st, es);
      assert es[..|es|] == es;
    }
  }

  /** The two logs hold the same plaintext envelopes, in whatever orders. */
  ghost predicate SamePlaintext(a: seq<Envelope>, b: seq<Envelope>) {
    forall e: Envelope :: !e.sealed ==> (e in a <==> e in b)
  }

  /**
   Two logs holding the same plaintext envelopes, in whatever orders, settle on the same
   applied set: the least one closed under the envelopes whose prerequisites it holds.
   */
  lemma OrderIndependent<S(!new)>(
      f: Applier<S>, prereqs: Envelope -> set<string>, s0: S, a: seq<Envelope>, b: seq<Envelope>)
    requires Gated(f, prereqs) && SamePlaintext(a, b)
    ensures var x, y := Passes(f, Store(s0, {}), a, |a|), Passes(f, Store(s0, {}), b, |b|);
            && Settled(f, x, a) && Settled(f, y, b)
            && x.applied == y.applied
            && Closed(x.applied, a, prereqs)
            && forall ids :: Closed(ids, a, prereqs) ==> x.applied <= ids
  {
    hide Gated, Settled, Closed, Passes;
    var st: Store<S> := Store(s0, {});
    var x, y := Passes(f, st, a, |a|), Passes(f, st, b, |b|);
    ReopensSettle(f, s0, a);
    ReopensSettle(f, s0, b);
    SettledIsClosed(f, prereqs, x, a);
    SettledIsClosed(f, prereqs, y, b);
    PassesStayInside(f, prereqs, st, a, b, y.applied, |a|);
    PassesStayInside(f, prereqs, st, b, a, x.applied, |b|);
    forall ids | Closed(ids, a, prereqs) ensures x.applied <= ids {
      PassesStayInside(f, prereqs, st, a, a, ids, |a|);
    }
  }
}
