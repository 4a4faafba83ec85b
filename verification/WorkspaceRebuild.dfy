/**
 What the derived store and the snapshot are made of: envelopes the log holds, over every
 run whose writes bring no new id first sealed and then as plaintext.
 */
module WorkspaceRebuild {
  import opened DerivedStore
  import opened RelayLog
  import opened WorkspaceConvergence
  import opened WorkspaceRuns
  import opened Wrappers

  // ----- what a write applies -----

  /** The log holds this very envelope, not only one of its id. */
  predicate HasRow(log: Log, e: Envelope) {
    exists i :: 0 <= i < |log.rows| && log.rows[i].env == e
  }

  predicate FirstOfId(batch: seq<Envelope>, i: nat)
    requires i < |batch|
  {
    forall k :: 0 <= k < i ==> batch[k].id != batch[i].id
  }

  /** An id new to the log comes first sealed, so that the log keeps that one, and later as plaintext. */
  predicate SealedThenPlain(log: Log, batch: seq<Envelope>) {
    exists i, j :: 0 <= i < j < |batch| && ShadowsPlain(log, batch, i, j)
  }

  predicate ShadowsPlain(log: Log, batch: seq<Envelope>, i: nat, j: nat)
    requires i < j < |batch|
  {
    && FirstOfId(batch, i) && !HasId(log.rows, batch[i].id) && batch[i].sealed
    && batch[j].id == batch[i].id && !batch[j].sealed
  }

  /** Of the envelopes handed to the store, those it applies: the first of each id it does not know. */
  function Taken(known: set<string>, es: seq<Envelope>): seq<Envelope> {
    if es == [] then []
    else
      var init, last := es[..|es| - 1], es[|es| - 1];
      if last.id in known + IdsOf(init) then Taken(known, init) else Taken(known, init) + [last]
  }

  /** What a write hands to the store and the store then applies. */
  function Written<S>(w: World<S>, batch: seq<Envelope>): seq<Envelope> {
    Taken(w.store.applied, Fresh(SavedIds(w.log, batch), batch))
  }

  /** A batch that goes through is a replay of what it applies. */
  lemma {:induction false} ApplyIsReplay<S>(f: Applier<S>, st: Store<S>, es: seq<Envelope>)
    requires forall e :: e in es ==> !e.sealed
    ensures ApplyMany(f, st, es).Some? ==> ApplyMany(f, st, es).value == Replay(f, st, Taken(st.applied, es))
  {
    if es != [] {
      var init, last := es[..|es| - 1], es[|es| - 1];
      assert last in es && forall e :: e in init ==> e in es;
      ApplyIsReplay(f, st, init);
      ApplyManyBounds(f, st, init);
      var taken := Taken(st.applied, init);
      assert (taken + [last])[..|taken|] == taken;
    }
  }

  /** What is applied comes from the list, and every id of the list that was unknown is applied. */
  lemma {:induction false} TakenMembers(known: set<string>, es: seq<Envelope>)
    ensures forall e :: e in Taken(known, es) ==> e in es
    ensures IdsOf(Taken(known, es)) == IdsOf(es) - known
  {
    if es != [] {
      var init, last := es[..|es| - 1], es[|es| - 1];
      TakenMembers(known, init);
      assert es == init + [last];
      assert IdsOf(es) == IdsOf(init) + {last.id};
      var taken := Taken(known, init);
      assert IdsOf(taken + [last]) == IdsOf(taken) + {last.id};
    }
  }

  lemma LastIsTaken(known: set<string>, saved: set<string>, batch: seq<Envelope>, e: Envelope)
    requires batch != [] && e in Taken(known, Fresh(saved, batch))
    requires e !in Taken(known, Fresh(saved, batch[..|batch| - 1]))
    ensures e == batch[|batch| - 1] && e.id in saved && !e.sealed
    ensures e.id !in IdsOf(Fresh(saved, batch[..|batch| - 1]))
  {
    hide IdsOf;
    var newly, last := Fresh(saved, batch[..|batch| - 1]), batch[|batch| - 1];
    assert (newly + [last])[..|newly|] == newly;
  }

  /** No plaintext envelope of the same id stands before one that is applied. */
  lemma {:induction false} TakenIsFirstPlain(
      known: set<string>, saved: set<string>, batch: seq<Envelope>, e: Envelope) returns (i: nat)
    requires e in Taken(known, Fresh(saved, batch))
    ensures i < |batch| && batch[i] == e && e.id in saved && !e.sealed
    ensures forall k :: 0 <= k < i && batch[k].id == e.id ==> batch[k].sealed
  {
    NothingTaken(known, saved);
    hide Taken, Fresh;
    var init := batch[..|batch| - 1];
    if e in Taken(known, Fresh(saved, init)) {
      i := TakenIsFirstPlain(known, saved, init, e);
      assert forall k :: 0 <= k <= i ==> batch[k] == init[k];
    } else {
      i := |init|;
      LastIsTaken(known, saved, batch, e);
      FreshMembers(saved, init);
      assert forall k :: 0 <= k < i ==> batch[k] == init[k] && init[k] in init;
    }
  }

  lemma NothingTaken(known: set<string>, saved: set<string>)
    ensures Taken(known, Fresh(saved, [])) == []
  {
  }

  /** Of the envelopes with an id new to the log, the log takes the first. */
  lemma {:induction false} IngestKeepsFirst(log: Log, batch: seq<Envelope>, i: nat)
    requires i < |batch| && FirstOfId(batch, i) && !HasId(log.rows, batch[i].id)
    ensures HasRow(IngestAll(log, batch), batch[i])
  {
    var init, last := batch[..|batch| - 1], batch[|batch| - 1];
    var mid, next := IngestAll(log, init), IngestAll(log, batch);
    if i < |init| {
      IngestKeepsFirst(log, init, i);
      var r :| 0 <= r < |mid.rows| && mid.rows[r].env == init[i];
      assert next.rows[r].env == batch[i];
    } else {
      IngestIds(log, init, last.id);
      assert !HasId(mid.rows, last.id);
      assert next.rows[|mid.rows|].env == last;
    }
  }

  lemma HeldUnderOneId(log: Log, a: Envelope, b: Envelope)
    requires ValidLog(log) && HasRow(log, a) && HasRow(log, b) && a.id == b.id
    ensures a == b
  {
  }

  lemma NewIdIsSaved(log: Log, batch: seq<Envelope>, e: Envelope)
    requires e in batch && !HasId(log.rows, e.id)
    ensures e.id in SavedIds(log, batch)
  {
    hide IngestAll;
    var i :| 0 <= i < |batch| && batch[i] == e;
    IngestIds(log, batch, e.id);
    IngestExtends(log, batch);
    var next, added := IngestAll(log, batch), Added(log, batch);
    var r :| 0 <= r < |next.rows| && next.rows[r].env.id == e.id;
    forall k | 0 <= k < |log.rows| ensures next.rows[k].env.id != e.id {
      assert log.rows[k] == next.rows[..|log.rows|][k];
    }
    assert Envelopes(added)[r - |log.rows|] == next.rows[r].env;
  }

  lemma SavedIsNew(log: Log, batch: seq<Envelope>, id: string)
    requires id in SavedIds(log, batch)
    ensures !HasId(log.rows, id)
  {
    var added := Added(log, batch);
    var e :| e in Envelopes(added) && e.id == id;
    var i :| 0 <= i < |added| && added[i].env == e;
    IngestExtends(log, batch);
    AddedFromBatch(log, batch, |log.rows| + i);
  }

  lemma {:induction false} FirstOfAnId(batch: seq<Envelope>, i: nat) returns (k: nat)
    requires i < |batch|
    ensures k <= i && batch[k].id == batch[i].id && FirstOfId(batch, k)
  {
    k := i;
    if !FirstOfId(batch, i) {
      var m :| 0 <= m < i && batch[m].id == batch[i].id;
      k := FirstOfAnId(batch, m);
    }
  }

  lemma NoShadow(log: Log, batch: seq<Envelope>, k: nat, i: nat)
    requires !SealedThenPlain(log, batch) && k < i < |batch| && FirstOfId(batch, k) && !HasId(log.rows, batch[k].id)
    requires batch[i].id == batch[k].id && !batch[i].sealed
    ensures !batch[k].sealed
  {
    assert !ShadowsPlain(log, batch, k, i);
  }

  /** What a write applies is in the log, unless the log kept a sealed envelope of the id. */
  lemma WrittenIsHeld(log: Log, known: set<string>, batch: seq<Envelope>, e: Envelope)
    requires !SealedThenPlain(log, batch)
    requires e in Taken(known, Fresh(SavedIds(log, batch), batch))
    ensures e in batch && HasRow(IngestAll(log, batch), e)
  {
    hide Taken, Fresh, SavedIds, HasRow;
    var i := TakenIsFirstPlain(known, SavedIds(log, batch), batch, e);
    SavedIsNew(log, batch, e.id);
    var k := FirstOfAnId(batch, i);
    if k < i { NoShadow(log, batch, k, i); }
    IngestKeepsFirst(log, batch, k);
  }

  /**
   The exact condition for one write: every envelope it applies is one the log holds, if
   and only if no new id of the batch comes first sealed and later as plaintext.
   */
  lemma WriteExact<S>(w: World<S>, batch: seq<Envelope>)
    requires Safe(w)
    ensures (forall e :: e in Written(w, batch) ==> HasRow(IngestAll(w.log, batch), e)) <==>
            !SealedThenPlain(w.log, batch)
  {
    hide ValidLog, Taken, Fresh, SavedIds, HasRow, HasId;
    var next, saved := IngestAll(w.log, batch), SavedIds(w.log, batch);
    if SealedThenPlain(w.log, batch) {
      var i, j :| 0 <= i < j < |batch| && ShadowsPlain(w.log, batch, i, j);
      var e := ShadowIsWritten(w, batch, i, j);
      IngestKeepsFirst(w.log, batch, i);
      IngestValid(w.log, batch);
      if HasRow(next, e) { HeldUnderOneId(next, e, batch[i]); }
    } else {
      forall e | e in Written(w, batch) ensures HasRow(next, e) {
        WrittenIsHeld(w.log, w.store.applied, batch, e);
      }
    }
  }

  /** The plaintext envelope behind a sealed one of its id is applied, though the log does not hold it. */
  lemma ShadowIsWritten<S>(w: World<S>, batch: seq<Envelope>, i: nat, j: nat) returns (e: Envelope)
    requires Safe(w) && i < j < |batch| && ShadowsPlain(w.log, batch, i, j)
    ensures e in Written(w, batch) && e.id == batch[i].id && !e.sealed
  {
    hide ValidLog, Taken, Fresh, SavedIds;
    var saved := SavedIds(w.log, batch);
    var newly := Fresh(saved, batch);
    NewIdIsSaved(w.log, batch, batch[j]);
    FreshMembers(saved, batch);
    TakenMembers(w.store.applied, newly);
    var taken := Taken(w.store.applied, newly);
    assert batch[j] in newly && batch[j].id !in w.store.applied;
    assert batch[j].id in IdsOf(taken);
    e :| e in taken && e.id == batch[j].id;
  }

  // ----- stores rebuilt from the log -----

  /** Rows of the log, all of workspaces in the scope. */
  ghost predicate AllHeld(log: Log, scope: iset<string>, es: seq<Envelope>) {
    forall e :: e in es ==> e.workspaceId in scope && HasRow(log, e)
  }

  /** Some envelopes of the log, replayed from the blank store, give the store. */
  ghost predicate Rebuilt<S>(f: Applier<S>, blank: S, scope: iset<string>, log: Log, st: Store<S>) {
    exists es :: AllHeld(log, scope, es) && Replay(f, Store(blank, {}), es) == st
  }

  /** Store and snapshot are both made of envelopes of the log. */
  ghost predicate Faithful<S>(f: Applier<S>, blank: S, scope: iset<string>, w: World<S>) {
    && Rebuilt(f, blank, scope, w.log, w.store)
    && (w.snap.Some? ==> Rebuilt(f, blank, scope, w.log, w.snap.value.image))
  }

  /** A write through the open handle stays in scope and brings no new id first sealed and later as plaintext. */
  ghost predicate ProperStep<S>(w: World<S>, a: Action, scope: iset<string>) {
    a.Apply? && w.open ==> (forall e :: e in a.batch ==> e.workspaceId in scope) && !SealedThenPlain(w.log, a.batch)
  }

  ghost predicate ProperRun<S>(f: Applier<S>, ws: string, blank: S, scope: iset<string>, actions: seq<Action>) {
    actions != [] ==>
      var init := actions[..|actions| - 1];
      ProperRun(f, ws, blank, scope, init) &&
      ProperStep(RunAll(f, ws, blank, init), actions[|actions| - 1], scope)
  }

  lemma BlankRebuilt<S>(f: Applier<S>, blank: S, scope: iset<string>, log: Log)
    ensures Rebuilt(f, blank, scope, log, Store(blank, {}))
  {
    EmptyReplay(f, Store(blank, {}));
    assert AllHeld(log, scope, []);
  }

  lemma RebuiltGoesOn<S>(
      f: Applier<S>, blank: S, scope: iset<string>, log: Log, st: Store<S>, more: seq<Envelope>)
    requires Rebuilt(f, blank, scope, log, st) && AllHeld(log, scope, more)
    ensures Rebuilt(f, blank, scope, log, Replay(f, st, more))
  {
    hide Replay, HasRow;
    var es :| AllHeld(log, scope, es) && Replay(f, Store(blank, {}), es) == st;
    ReplayConcat(f, Store(blank, {}), es, more);
    assert AllHeld(log, scope, es + more);
  }

  lemma HeldLater(log: Log, batch: seq<Envelope>, e: Envelope)
    requires HasRow(log, e)
    ensures HasRow(IngestAll(log, batch), e)
  {
    IngestExtends(log, batch);
    var i :| 0 <= i < |log.rows| && log.rows[i].env == e;
    var next := IngestAll(log, batch);
    assert next.rows[i] == next.rows[..|log.rows|][i];
  }

  lemma RebuiltLater<S>(
      f: Applier<S>, blank: S, scope: iset<string>, log: Log, batch: seq<Envelope>, st: Store<S>)
    requires Rebuilt(f, blank, scope, log, st)
    ensures Rebuilt(f, blank, scope, IngestAll(log, batch), st)
  {
    hide Replay, HasRow, IngestAll;
    var es :| AllHeld(log, scope, es) && Replay(f, Store(blank, {}), es) == st;
    forall e | e in es ensures HasRow(IngestAll(log, batch), e) { HeldLater(log, batch, e); }
    assert AllHeld(IngestAll(log, batch), scope, es);
  }

  lemma TailHeld(log: Log, ws: string, afterSeq: nat, done: nat, scope: iset<string>)
    requires ws in scope
    ensures AllHeld(log, scope, Prefix(Tail(log, ws, afterSeq), done))
  {
    var rows := TailRows(log.rows, ws, afterSeq);
    var es := Prefix(Envelopes(rows), done);
    TailMembers(log.rows, ws, afterSeq);
    forall e | e in es ensures e.workspaceId in scope && HasRow(log, e) {
      var i :| 0 <= i < |es| && es[i] == e;
      assert rows[i] in rows && rows[i].env == e;
    }
  }

  lemma ReplayRebuilds<S>(
      f: Applier<S>, ws: string, blank: S, scope: iset<string>, log: Log, st: Store<S>, afterSeq: nat, done: nat)
    requires ws in scope && Rebuilt(f, blank, scope, log, st)
    ensures Rebuilt(f, blank, scope, log, Replay(f, st, Prefix(Tail(log, ws, afterSeq), done)))
  {
    hide Rebuilt, AllHeld, Tail;
    TailHeld(log, ws, afterSeq, done, scope);
    RebuiltGoesOn(f, blank, scope, log, st, Prefix(Tail(log, ws, afterSeq), done));
  }

  lemma WriteRebuilds<S>(
      f: Applier<S>, ws: string, blank: S, scope: iset<string>, w: World<S>, batch: seq<Envelope>)
    requires Faithful(f, blank, scope, w)
    requires (forall e :: e in batch ==> e.workspaceId in scope) && !SealedThenPlain(w.log, batch)
    ensures Faithful(f, blank, scope, Applying(f, ws, w, batch))
  {
    hide Rebuilt, Replay, Taken, Fresh, SavedIds, SealedThenPlain, IngestAll, ApplyMany, HasRow;
    var next, newly := IngestAll(w.log, batch), Fresh(SavedIds(w.log, batch), batch);
    RebuiltLater(f, blank, scope, w.log, batch, w.store);
    if w.snap.Some? { RebuiltLater(f, blank, scope, w.log, batch, w.snap.value.image); }
    FreshMembers(SavedIds(w.log, batch), batch);
    ApplyIsReplay(f, w.store, newly);
    var written := Taken(w.store.applied, newly);
    forall e | e in written ensures e.workspaceId in scope && HasRow(next, e) {
      WrittenIsHeld(w.log, w.store.applied, batch, e);
    }
    assert AllHeld(next, scope, written);
    RebuiltGoesOn(f, blank, scope, next, w.store, written);
  }

  lemma IngestKeepsFaithful<S>(
      f: Applier<S>, blank: S, scope: iset<string>, w: World<S>, batch: seq<Envelope>)
    requires Faithful(f, blank, scope, w)
    ensures Faithful(f, blank, scope, w.(log := IngestAll(w.log, batch)))
  {
    hide Rebuilt, IngestAll;
    RebuiltLater(f, blank, scope, w.log, batch, w.store);
    if w.snap.Some? { RebuiltLater(f, blank, scope, w.log, batch, w.snap.value.image); }
  }

  lemma WholePrefix<T>(xs: seq<T>)
    ensures Prefix(xs, |xs|) == xs
  {
  }

  lemma HydrationRebuilds<S>(f: Applier<S>, ws: string, blank: S, scope: iset<string>, w: World<S>)
    requires ws in scope && Faithful(f, blank, scope, w)
    ensures Faithful(f, blank, scope, Hydrated(f, ws, w))
  {
    hide Rebuilt, Replay, Pending, Tail, TailRows;
    var (start, afterSeq) := HydrationStart(w);
    WholePrefix(Tail(w.log, ws, afterSeq));
    ReplayRebuilds(f, ws, blank, scope, w.log, start, afterSeq, |Tail(w.log, ws, afterSeq)|);
  }

  lemma StepRebuilds<S>(f: Applier<S>, ws: string, blank: S, scope: iset<string>, w: World<S>, a: Action)
    requires ws in scope && Faithful(f, blank, scope, w) && ProperStep(w, a, scope)
    ensures Faithful(f, blank, scope, Do(f, ws, blank, w, a))
  {
    hide Rebuilt, Replay, Pending, Tail, Applying, Hydrated, SealedThenPlain, IngestAll;
    match a
    case Append(batch) => IngestKeepsFaithful(f, blank, scope, w, batch);
    case Apply(batch) => if w.open { WriteRebuilds(f, ws, blank, scope, w, batch); }
    case ApplyCrash(batch) => IngestKeepsFaithful(f, blank, scope, w, batch);
    case Sweep =>
      WholePrefix(Tail(w.log, ws, w.lastSeq));
      ReplayRebuilds(f, ws, blank, scope, w.log, w.store, w.lastSeq, |Tail(w.log, ws, w.lastSeq)|);
    case SweepCrash(done) => ReplayRebuilds(f, ws, blank, scope, w.log, w.store, w.lastSeq, done);
    case Reopen => HydrationRebuilds(f, ws, blank, scope, w);
    case ReopenCrash(done) =>
      var (start, afterSeq) := HydrationStart(w);
      ReplayRebuilds(f, ws, blank, scope, w.log, start, afterSeq, done);
    case Crash =>
    case DropFile => BlankRebuilt(f, blank, scope, w.log);
  }

  /**
   Over every run, crashes at any point included, whose writes bring no new id first sealed
   and later as plaintext: the derived store and the snapshot are what envelopes of the log
   give, replayed from the blank store; and when the writes stay in a scope of workspaces
   that holds the handle's own, envelopes of that scope.
   */
  lemma {:induction false} RunsRebuild<S>(
      f: Applier<S>, ws: string, blank: S, scope: iset<string>, actions: seq<Action>)
    requires ws in scope && ProperRun(f, ws, blank, scope, actions)
    ensures Faithful(f, blank, scope, RunAll(f, ws, blank, actions))
  {
    hide Do, Rebuilt, ProperStep;
    if actions == [] {
      BlankRebuilt(f, blank, scope, EMPTY_LOG);
    } else {
      var init := actions[..|actions| - 1];
      RunsRebuild(f, ws, blank, scope, init);
      StepRebuilds(f, ws, blank, scope, RunAll(f, ws, blank, init), actions[|actions| - 1]);
    }
  }

  // ----- the writes that break it -----

  /** A store whose state is the list of what it applied. */
  function Remember(st: Store<seq<Envelope>>, e: Envelope): Option<seq<Envelope>> {
    Some(st.state + [e])
  }

  lemma {:induction false} RememberedByWrite(st: Store<seq<Envelope>>, es: seq<Envelope>)
    ensures ApplyMany(Remember, st, es).Some?
    ensures ApplyMany(Remember, st, es).value.state == st.state + Taken(st.applied, es)
  {
    if es != [] {
      RememberedByWrite(st, es[..|es| - 1]);
      ApplyManyBounds(Remember, st, es[..|es| - 1]);
    }
  }

  lemma {:induction false} RememberedByReplay(st: Store<seq<Envelope>>, es: seq<Envelope>)
    ensures forall e :: e in Replay(Remember, st, es).state ==> e in st.state || e in es
  {
    if es != [] {
      RememberedByReplay(st, es[..|es| - 1]);
      assert es == es[..|es| - 1] + [es[|es| - 1]];
    }
  }

  lemma RememberedIsHeld(scope: iset<string>, log: Log, st: Store<seq<Envelope>>)
    requires Rebuilt(Remember, [], scope, log, st)
    ensures forall e :: e in st.state ==> HasRow(log, e)
  {
    hide HasRow;
    var es :| AllHeld(log, scope, es) && Replay(Remember, Store([], {}), es) == st;
    RememberedByReplay(Store([], {}), es);
  }

  /** For a store that remembers what it applied, a write keeps it made of the log's envelopes exactly then. */
  lemma RememberExact(ws: string, scope: iset<string>, w: World<seq<Envelope>>, batch: seq<Envelope>)
    requires Safe(w) && Faithful(Remember, [], scope, w) && forall e :: e in batch ==> e.workspaceId in scope
    ensures Faithful(Remember, [], scope, Applying(Remember, ws, w, batch)) <==> !SealedThenPlain(w.log, batch)
  {
    hide ValidLog, InLog, Rebuilt, Taken, Fresh, SavedIds, SealedThenPlain, HasRow, ApplyMany, IngestAll, Remember;
    var v := Applying(Remember, ws, w, batch);
    WriteExact(w, batch);
    if !SealedThenPlain(w.log, batch) {
      WriteRebuilds(Remember, ws, [], scope, w, batch);
    } else if Faithful(Remember, [], scope, v) {
      var e :| e in Written(w, batch) && !HasRow(IngestAll(w.log, batch), e);
      TakenMembers(w.store.applied, Fresh(SavedIds(w.log, batch), batch));
      RememberedByWrite(w.store, Fresh(SavedIds(w.log, batch), batch));
      assert e in v.store.state;
      RememberedIsHeld(scope, v.log, v.store);
    }
  }

  lemma {:induction false} SealedReplay<S>(f: Applier<S>, st: Store<S>, es: seq<Envelope>)
    requires forall e :: e in es ==> e.sealed
    ensures Replay(f, st, es) == st
  {
    if es != [] {
      assert es[|es| - 1] in es && forall e :: e in es[..|es| - 1] ==> e in es;
      SealedReplay(f, st, es[..|es| - 1]);
    }
  }

  lemma PairIngested(a: Envelope, b: Envelope)
    requires a.id == b.id
    ensures IngestAll(EMPTY_LOG, [a, b]) == Log([Row(1, a)], 1)
    ensures SavedIds(EMPTY_LOG, [a, b]) == {a.id}
  {
    assert [a, b][..1] == [a] && [a][..0] == [];
    assert IngestAll(EMPTY_LOG, []) == EMPTY_LOG;
    assert IngestAll(EMPTY_LOG, [a]) == Log([Row(1, a)], 1);
    assert Log([Row(1, a)], 1).rows[0].env.id == b.id;
    assert Added(EMPTY_LOG, [a, b]) == [Row(1, a)];
    assert Envelopes([Row(1, a)]) == [a];
  }

  lemma PairHanded(a: Envelope, b: Envelope)
    requires a.id == b.id && a.sealed && !b.sealed
    ensures Fresh({a.id}, [a, b]) == [b]
  {
    assert [a, b][..1] == [a] && [a][..0] == [];
    assert Fresh({a.id}, []) == [] && Fresh({a.id}, [a]) == [];
  }

  /**
   The run that breaks it, whatever the store does with the plaintext envelope as long as it
   accepts it: one batch of a sealed envelope and a plaintext one of the same id. The log holds
   the sealed one only, the store the other, and no envelopes of the log give that store.
   */
  lemma SealedCopyFirst<S>(f: Applier<S>, ws: string, blank: S, a: Envelope, b: Envelope)
    requires a.id == b.id && a.sealed && !b.sealed && f(Store(blank, {}), b).Some?
    ensures var w := RunAll(f, ws, blank, [Reopen, Apply([a, b])]);
            && w.log.rows == [Row(1, a)] && w.store.applied == {b.id}
            && forall scope :: !Rebuilt(f, blank, scope, w.log, w.store)
  {
    hide Hydrated, Fresh, SavedIds, ApplyMany, IngestAll, LatestSeqOf;
    var run := [Reopen, Apply([a, b])];
    assert run[..1] == [Reopen] && [Reopen][..0] == [];
    var ready: World<S> := Initial(blank).(open := true);
    ReopenEmpty(f, ws, blank);
    assert RunAll(f, ws, blank, [Reopen]) == ready;
    PairIngested(a, b);
    PairHanded(a, b);
    ApplyOne(f, ready.store, b);
    var w := RunAll(f, ws, blank, run);
    assert w == Applying(f, ws, ready, [a, b]);
    forall scope ensures !Rebuilt(f, blank, scope, w.log, w.store) { SealedLogIsBlank(f, blank, scope, a, w.store); }
  }

  lemma SealedLogIsBlank<S>(f: Applier<S>, blank: S, scope: iset<string>, a: Envelope, st: Store<S>)
    requires a.sealed && st.applied != {}
    ensures !Rebuilt(f, blank, scope, Log([Row(1, a)], 1), st)
  {
    var log := Log([Row(1, a)], 1);
    forall es: seq<Envelope> | AllHeld(log, scope, es) ensures Replay(f, Store(blank, {}), es) == Store(blank, {}) {
      forall e | e in es ensures e.sealed { assert HasRow(log, e); }
      SealedReplay(f, Store(blank, {}), es);
    }
  }
}
