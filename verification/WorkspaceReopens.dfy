/**
 Where repeated reopens end, from any state a run with crashes, lost files and restored
 snapshots can leave.
 */
module WorkspaceReopens {
  import opened DerivedStore
  import opened RelayLog
  import opened Text
  import opened WorkspaceConvergence
  import opened WorkspaceRebuild
  import opened WorkspaceRuns
  import opened Wrappers

  // ----- what every run keeps -----

  /** The rows of the workspace up to the cursor: a stretch of which the blank store takes nothing. */
  ghost predicate Idle<S>(f: Applier<S>, ws: string, blank: S, log: Log, upToSeq: nat, before: seq<Envelope>) {
    && before + Tail(log, ws, upToSeq) == Tail(log, ws, 0)
    && Settled(f, Store(blank, {}), before)
  }

  /** A snapshot that holds nothing leaves out only what the blank store takes nothing of. */
  ghost predicate SnapIdle<S>(f: Applier<S>, ws: string, blank: S, w: World<S>) {
    w.snap.Some? && w.snap.value.image.applied == {} ==>
      exists before :: Idle(f, ws, blank, w.log, w.snap.value.upToSeq, before)
  }

  ghost predicate Ready<S>(f: Applier<S>, ws: string, blank: S, w: World<S>) {
    Safe(w) && Faithful(f, blank, iset{ws}, w) && SnapIdle(f, ws, blank, w)
  }

  lemma EmptyIsBlank<S>(f: Applier<S>, blank: S, scope: iset<string>, log: Log, st: Store<S>)
    requires Rebuilt(f, blank, scope, log, st) && st.applied == {}
    ensures st == Store(blank, {})
  {
    hide AllHeld, Replay;
    var es :| AllHeld(log, scope, es) && Replay(f, Store(blank, {}), es) == st;
    IdleIsSettled(f, Store(blank, {}), es);
  }

  lemma NothingPastTip(log: Log, ws: string)
    requires ValidLog(log)
    ensures Tail(log, ws, LatestSeqOf(log.rows, ws)) == []
  {
    hide ValidLog, TailRows, LatestSeqOf;
    var tip := LatestSeqOf(log.rows, ws);
    ValidAscends(log);
    LatestIsMax(log.rows, ws);
    TailMembers(log.rows, ws, tip);
    NoMembers(TailRows(log.rows, ws, tip));
  }

  lemma TailOfBoth(rows: seq<Row>, added: seq<Row>, ws: string, upToSeq: nat)
    requires forall i :: 0 <= i < |added| ==> added[i].num > upToSeq
    ensures Envelopes(TailRows(rows + added, ws, upToSeq)) ==
            Envelopes(TailRows(rows, ws, upToSeq)) + Envelopes(TailRows(added, ws, 0))
  {
    hide TailRows;
    TailConcat(rows, added, ws, upToSeq);
    NewRowsInTail(added, ws, upToSeq);
    EnvelopesConcat(TailRows(rows, ws, upToSeq), TailRows(added, ws, 0));
  }

  lemma AddedNumbers(log: Log, batch: seq<Envelope>)
    requires ValidLog(log)
    ensures IngestAll(log, batch).rows == log.rows + Added(log, batch)
    ensures forall i :: 0 <= i < |Added(log, batch)| ==> Added(log, batch)[i].num > log.lastSeq
  {
    hide ValidLog, IngestAll;
    IngestExtends(log, batch);
    IngestValid(log, batch);
    forall i | 0 <= i < |Added(log, batch)| ensures Added(log, batch)[i].num > log.lastSeq {
      assert Added(log, batch)[i] == IngestAll(log, batch).rows[|log.rows| + i];
    }
  }

  /** New rows go behind every tail in the same way. */
  lemma TailsGrow(log: Log, batch: seq<Envelope>, ws: string, upToSeq: nat) returns (more: seq<Envelope>)
    requires ValidLog(log) && upToSeq <= log.lastSeq
    ensures Tail(IngestAll(log, batch), ws, 0) == Tail(log, ws, 0) + more
    ensures Tail(IngestAll(log, batch), ws, upToSeq) == Tail(log, ws, upToSeq) + more
  {
    hide ValidLog, TailRows, IngestAll, Added, Envelopes;
    AddedNumbers(log, batch);
    more := Envelopes(TailRows(Added(log, batch), ws, 0));
    TailOfBoth(log.rows, Added(log, batch), ws, 0);
    TailOfBoth(log.rows, Added(log, batch), ws, upToSeq);
  }

  lemma IngestKeepsIdle<S>(f: Applier<S>, ws: string, blank: S, w: World<S>, batch: seq<Envelope>)
    requires Safe(w) && SnapIdle(f, ws, blank, w)
    ensures SnapIdle(f, ws, blank, w.(log := IngestAll(w.log, batch)))
  {
    hide ValidLog, InLog, Tail, IngestAll, Settled;
    if w.snap.Some? && w.snap.value.image.applied == {} {
      var upToSeq := w.snap.value.upToSeq;
      var before :| Idle(f, ws, blank, w.log, upToSeq, before);
      var more := TailsGrow(w.log, batch, ws, upToSeq);
      assert before + (Tail(w.log, ws, upToSeq) + more) == before + Tail(w.log, ws, upToSeq) + more;
      assert Idle(f, ws, blank, IngestAll(w.log, batch), upToSeq, before);
    }
  }

  lemma HydrationKeepsIdle<S>(f: Applier<S>, ws: string, blank: S, w: World<S>)
    requires Ready(f, ws, blank, w)
    ensures SnapIdle(f, ws, blank, Hydrated(f, ws, w))
  {
    hide ValidLog, InLog, Rebuilt, Tail, TailRows, Replay, Pending, Settled;
    var v, tail := Hydrated(f, ws, w), Tail(w.log, ws, 0);
    if v.snap != w.snap && v.store.applied == {} {
      ReplayBounds(f, w.store, tail);
      EmptyIsBlank(f, blank, iset{ws}, w.log, w.store);
      IdleIsSettled(f, w.store, tail);
      NothingPastTip(w.log, ws);
      assert tail + [] == tail;
      assert Idle(f, ws, blank, w.log, LatestSeqOf(w.log.rows, ws), tail);
    }
  }

  lemma StepKeepsIdle<S>(f: Applier<S>, ws: string, blank: S, w: World<S>, a: Action)
    requires Ready(f, ws, blank, w)
    ensures SnapIdle(f, ws, blank, Do(f, ws, blank, w, a))
  {
    hide ValidLog, InLog, Rebuilt, Tail, Replay, Pending, Hydrated, IngestAll, ApplyMany, Idle;
    match a
    case Append(batch) => IngestKeepsIdle(f, ws, blank, w, batch);
    case Apply(batch) => IngestKeepsIdle(f, ws, blank, w, batch);
    case ApplyCrash(batch) => IngestKeepsIdle(f, ws, blank, w, batch);
    case Reopen => HydrationKeepsIdle(f, ws, blank, w);
    case Sweep =>
    case SweepCrash(_) =>
    case ReopenCrash(_) =>
    case Crash =>
    case DropFile =>
  }

  lemma StepKeepsReady<S>(f: Applier<S>, ws: string, blank: S, w: World<S>, a: Action)
    requires Ready(f, ws, blank, w) && ProperStep(w, a, iset{ws})
    ensures Ready(f, ws, blank, Do(f, ws, blank, w, a))
  {
    hide Safe, Faithful, SnapIdle, ProperStep, Do;
    DoSafe(f, ws, blank, w, a);
    StepRebuilds(f, ws, blank, iset{ws}, w, a);
    StepKeepsIdle(f, ws, blank, w, a);
  }

  lemma StartReady<S>(f: Applier<S>, ws: string, blank: S, log: Log)
    requires ValidLog(log)
    ensures Ready(f, ws, blank, World(log, None, Store(blank, {}), false, 0, 0))
  {
    hide ValidLog, Rebuilt;
    BlankRebuilt(f, blank, iset{ws}, log);
  }

  lemma {:induction false} RunsAreReady<S>(f: Applier<S>, ws: string, blank: S, actions: seq<Action>)
    requires ProperRun(f, ws, blank, iset{ws}, actions)
    ensures Ready(f, ws, blank, RunAll(f, ws, blank, actions))
  {
    hide Do, Ready, ProperStep, ValidLog;
    if actions == [] {
      EmptyLogValid();
      StartReady(f, ws, blank, EMPTY_LOG);
    } else {
      var init := actions[..|actions| - 1];
      RunsAreReady(f, ws, blank, init);
      StepKeepsReady(f, ws, blank, RunAll(f, ws, blank, init), actions[|actions| - 1]);
    }
  }

  lemma EmptyLogValid()
    ensures ValidLog(EMPTY_LOG)
  {
  }

  // ----- one reopen -----

  lemma HeldInTail(log: Log, ws: string, e: Envelope)
    requires ValidLog(log) && e.workspaceId == ws && HasRow(log, e)
    ensures e in Tail(log, ws, 0)
  {
    hide ValidLog, TailRows;
    var i :| 0 <= i < |log.rows| && log.rows[i].env == e;
    assert log.rows[i] in log.rows;
    SeqBound(log, log.rows[i]);
    RowInTail(log, ws, 0, log.rows[i]);
  }

  lemma AllInTail(log: Log, ws: string, es: seq<Envelope>)
    requires ValidLog(log) && AllHeld(log, iset{ws}, es)
    ensures forall e :: e in es ==> e in Tail(log, ws, 0)
  {
    hide ValidLog, Tail, HasRow;
    forall e | e in es ensures e in Tail(log, ws, 0) { HeldInTail(log, ws, e); }
  }

  lemma {:induction false} RefusedReplay<S>(f: Applier<S>, st: Store<S>, es: seq<Envelope>)
    requires forall e :: e in es ==> e.sealed || f(st, e).None?
    ensures Replay(f, st, es) == st
  {
    if es != [] {
      assert es[|es| - 1] in es && forall e :: e in es[..|es| - 1] ==> e in es;
      RefusedReplay(f, st, es[..|es| - 1]);
    }
  }

  /** Where the blank store takes nothing of the workspace, every store rebuilt from the log is blank. */
  lemma NothingTakes<S>(f: Applier<S>, ws: string, blank: S, log: Log, st: Store<S>)
    requires ValidLog(log) && Settled(f, Store(blank, {}), Tail(log, ws, 0))
    requires Rebuilt(f, blank, iset{ws}, log, st)
    ensures st == Store(blank, {})
  {
    hide ValidLog, Tail, Replay, AllHeld;
    var empty: Store<S> := Store(blank, {});
    var tail := Tail(log, ws, 0);
    var es: seq<Envelope> :| AllHeld(log, iset{ws}, es) && Replay(f, empty, es) == st;
    AllInTail(log, ws, es);
    IdlePass(f, empty, tail);
    forall e | e in es ensures e.sealed || f(empty, e).None? {
      var i :| 0 <= i < |tail| && tail[i] == e;
      if !e.sealed { PassDecides(f, empty, tail, i); }
    }
    RefusedReplay(f, empty, es);
  }

  /**
   A reopen and a close are one pass over the whole log, or they restore a snapshot that
   holds something into a store that held nothing.
   */
  lemma CycleFromAny<S>(f: Applier<S>, ws: string, blank: S, w: World<S>)
    requires Ready(f, ws, blank, w) && !w.open
    ensures var v := Do(f, ws, blank, Do(f, ws, blank, w, Reopen), Crash);
            && !v.open && v.log == w.log && Ready(f, ws, blank, v)
            && (v.store == Replay(f, w.store, Tail(w.log, ws, 0)) ||
                (w.store == Store(blank, {}) && v.store.applied != {} &&
                 !Settled(f, w.store, Tail(w.log, ws, 0))))
  {
    hide ValidLog, InLog, Rebuilt, Tail, TailRows, Replay, Pending, Settled;
    StepKeepsReady(f, ws, blank, w, Reopen);
    StepKeepsReady(f, ws, blank, Do(f, ws, blank, w, Reopen), Crash);
    OpenKeepsLog(f, ws, blank, w);
    if Restores(w) { RestoredPass(f, ws, blank, w); }
  }

  lemma RestoredPass<S>(f: Applier<S>, ws: string, blank: S, w: World<S>)
    requires Ready(f, ws, blank, w) && Restores(w)
    ensures var snap := w.snap.value;
            var back := Replay(f, snap.image, Tail(w.log, ws, snap.upToSeq));
            w.store == Store(blank, {}) &&
            (back == Replay(f, w.store, Tail(w.log, ws, 0)) ||
             (back.applied != {} && !Settled(f, w.store, Tail(w.log, ws, 0))))
  {
    hide ValidLog, InLog, Rebuilt, Tail, Replay;
    var snap := w.snap.value;
    EmptyIsBlank(f, blank, iset{ws}, w.log, w.store);
    ReplayBounds(f, snap.image, Tail(w.log, ws, snap.upToSeq));
    if snap.image.applied == {} {
      EmptyIsBlank(f, blank, iset{ws}, w.log, snap.image);
      var before :| Idle(f, ws, blank, w.log, snap.upToSeq, before);
      ReplayConcat(f, w.store, before, Tail(w.log, ws, snap.upToSeq));
    } else if Settled(f, w.store, Tail(w.log, ws, 0)) {
      NothingTakes(f, ws, blank, w.log, snap.image);
    }
  }

  // ----- repeated reopens -----

  lemma CycleRun<S>(f: Applier<S>, ws: string, blank: S, w: World<S>, n: nat)
    requires n > 0
    ensures RunFrom(f, ws, blank, w, Cycles(n)) ==
            Do(f, ws, blank, Do(f, ws, blank, RunFrom(f, ws, blank, w, Cycles(n - 1)), Reopen), Crash)
  {
    hide Do;
    var run := Cycles(n);
    assert run[..|run| - 1] == Cycles(n - 1) + [Reopen];
    assert (Cycles(n - 1) + [Reopen])[..|run| - 2] == Cycles(n - 1);
  }

  /** Until the store settles every reopen adds an id, the one that restores a snapshot included. */
  lemma {:induction false} CyclesGrow<S>(f: Applier<S>, ws: string, blank: S, w: World<S>, n: nat)
    requires Ready(f, ws, blank, w) && !w.open
    ensures var v := RunFrom(f, ws, blank, w, Cycles(n));
            && !v.open && v.log == w.log && Ready(f, ws, blank, v)
            && (Settled(f, v.store, Tail(w.log, ws, 0)) || |v.store.applied| >= n)
  {
    hide Ready, Do, Tail, Replay, RunFrom, Cycles;
    var tail := Tail(w.log, ws, 0);
    if n == 0 {
      NoCycles(f, ws, blank, w);
    } else {
      CyclesGrow(f, ws, blank, w, n - 1);
      CycleRun(f, ws, blank, w, n);
      var u := RunFrom(f, ws, blank, w, Cycles(n - 1));
      CycleFromAny(f, ws, blank, u);
      var next := Replay(f, u.store, tail);
      ReplayBounds(f, u.store, tail);
      SubsetSize(u.store.applied, next.applied);
      IdleIsSettled(f, u.store, tail);
    }
  }

  lemma NoCycles<S>(f: Applier<S>, ws: string, blank: S, w: World<S>)
    ensures RunFrom(f, ws, blank, w, Cycles(0)) == w
  {
  }

  lemma AppliedInTail<S>(f: Applier<S>, ws: string, blank: S, log: Log, st: Store<S>)
    requires ValidLog(log) && Rebuilt(f, blank, iset{ws}, log, st)
    ensures st.applied <= IdsOf(Tail(log, ws, 0))
  {
    hide ValidLog, Tail, Replay, AllHeld;
    var es :| AllHeld(log, iset{ws}, es) && Replay(f, Store(blank, {}), es) == st;
    AllInTail(log, ws, es);
    ReplayBounds(f, Store(blank, {}), es);
  }

  /** As many reopens as the log has envelopes of the workspace settle the store. */
  lemma CyclesSettle<S>(f: Applier<S>, ws: string, blank: S, w: World<S>, n: nat)
    requires Ready(f, ws, blank, w) && !w.open && n >= |Tail(w.log, ws, 0)|
    ensures var v := RunFrom(f, ws, blank, w, Cycles(n));
            v.log == w.log && Ready(f, ws, blank, v) && Settled(f, v.store, Tail(w.log, ws, 0))
  {
    hide RunFrom, Cycles, Tail, Replay, ValidLog, Rebuilt, InLog, SnapIdle;
    CyclesGrow(f, ws, blank, w, n);
    var v, tail := RunFrom(f, ws, blank, w, Cycles(n)), Tail(w.log, ws, 0);
    AppliedInTail(f, ws, blank, w.log, v.store);
    IdsBound(tail);
    SubsetSize(v.store.applied, IdsOf(tail));
    ReplayBounds(f, v.store, tail);
    SubsetSize(v.store.applied, Replay(f, v.store, tail).applied);
    SubsetSize(Replay(f, v.store, tail).applied, IdsOf(tail));
    IdleIsSettled(f, v.store, tail);
  }

  // ----- convergence -----

  lemma RebuiltIsLeast<S(!new)>(
      f: Applier<S>, prereqs: Envelope -> set<string>, ws: string, blank: S, log: Log, st: Store<S>, ids: set<string>)
    requires ValidLog(log) && Rebuilt(f, blank, iset{ws}, log, st)
    requires Gated(f, prereqs) && Closed(ids, Tail(log, ws, 0), prereqs)
    ensures st.applied <= ids
  {
    hide ValidLog, Tail, Replay, AllHeld, Gated, Closed;
    var es: seq<Envelope> :| AllHeld(log, iset{ws}, es) && Replay(f, Store(blank, {}), es) == st;
    AllInTail(log, ws, es);
    PassStaysInside(f, prereqs, Store(blank, {}), es, Tail(log, ws, 0), ids);
  }

  /** A closed workspace, reopened often enough: the least applied set closed under the prerequisites. */
  lemma ReopensConverge<S(!new)>(
      f: Applier<S>, prereqs: Envelope -> set<string>, ws: string, blank: S, w: World<S>, n: nat)
    requires Gated(f, prereqs) && Ready(f, ws, blank, w) && !w.open && n >= |Tail(w.log, ws, 0)|
    ensures var v, tail := RunFrom(f, ws, blank, w, Cycles(n)), Tail(w.log, ws, 0);
            && v.log == w.log && Settled(f, v.store, tail)
            && Closed(v.store.applied, tail, prereqs)
            && forall ids :: Closed(ids, tail, prereqs) ==> v.store.applied <= ids
  {
    hide ValidLog, InLog, Rebuilt, SnapIdle, Gated, Settled, Closed, RunFrom, Cycles, Tail;
    CyclesSettle(f, ws, blank, w, n);
    var v, tail := RunFrom(f, ws, blank, w, Cycles(n)), Tail(w.log, ws, 0);
    SettledIsClosed(f, prereqs, v.store, tail);
    forall ids | Closed(ids, tail, prereqs) ensures v.store.applied <= ids {
      RebuiltIsLeast(f, prereqs, ws, blank, w.log, v.store, ids);
    }
  }

  /** The process ends after any run, and the workspace is reopened n times over the log as it is then. */
  function Reopened<S>(f: Applier<S>, ws: string, blank: S, actions: seq<Action>, n: nat): World<S> {
    RunFrom(f, ws, blank, Do(f, ws, blank, RunAll(f, ws, blank, actions), Crash), Cycles(n))
  }

  /**
   Hydration converges after crashes at any point. Take any run of appends, writes of this
   workspace that bring no new id first sealed and later as plaintext, sweeps, crashes,
   reopens and lost files, and after it as many reopens as the log has envelopes of the
   workspace: the applied set is the least one closed under the prerequisites.
   */
  lemma RunConverges<S(!new)>(
      f: Applier<S>, prereqs: Envelope -> set<string>, ws: string, blank: S, actions: seq<Action>, n: nat)
    requires Gated(f, prereqs) && ProperRun(f, ws, blank, iset{ws}, actions)
    requires n >= |Tail(RunAll(f, ws, blank, actions).log, ws, 0)|
    ensures var v, tail := Reopened(f, ws, blank, actions, n), Tail(RunAll(f, ws, blank, actions).log, ws, 0);
            && v.log == RunAll(f, ws, blank, actions).log && Settled(f, v.store, tail)
            && Closed(v.store.applied, tail, prereqs)
            && forall ids :: Closed(ids, tail, prereqs) ==> v.store.applied <= ids
  {
    hide Gated, Ready, Settled, Closed, RunFrom, RunAll, Cycles, Tail, ProperRun;
    var w := RunAll(f, ws, blank, actions);
    RunsAreReady(f, ws, blank, actions);
    StepKeepsReady(f, ws, blank, w, Crash);
    ReopensConverge(f, prereqs, ws, blank, Do(f, ws, blank, w, Crash), n);
  }

  /**
   Two servers whose runs end with logs of the same plaintext envelopes of the workspace, in
   whatever orders and after whatever crashes, end with the same applied set.
   */
  lemma RunsConverge<S(!new)>(
      f: Applier<S>, prereqs: Envelope -> set<string>, ws: string, blank: S,
      a: seq<Action>, b: seq<Action>, n: nat, m: nat)
    requires Gated(f, prereqs)
    requires ProperRun(f, ws, blank, iset{ws}, a) && ProperRun(f, ws, blank, iset{ws}, b)
    requires n >= |Tail(RunAll(f, ws, blank, a).log, ws, 0)| && m >= |Tail(RunAll(f, ws, blank, b).log, ws, 0)|
    requires SamePlaintext(Tail(RunAll(f, ws, blank, a).log, ws, 0), Tail(RunAll(f, ws, blank, b).log, ws, 0))
    ensures Reopened(f, ws, blank, a, n).store.applied == Reopened(f, ws, blank, b, m).store.applied
  {
    hide Gated, Settled, Closed, RunAll, Reopened, Tail, ProperRun;
    RunConverges(f, prereqs, ws, blank, a, n);
    RunConverges(f, prereqs, ws, blank, b, m);
    var s, t := Tail(RunAll(f, ws, blank, a).log, ws, 0), Tail(RunAll(f, ws, blank, b).log, ws, 0);
    var x, y := Reopened(f, ws, blank, a, n).store.applied, Reopened(f, ws, blank, b, m).store.applied;
    ClosedAlike(prereqs, x, s, t);
    ClosedAlike(prereqs, y, t, s);
  }

  lemma ClosedAlike(prereqs: Envelope -> set<string>, ids: set<string>, a: seq<Envelope>, b: seq<Envelope>)
    requires SamePlaintext(a, b) && Closed(ids, a, prereqs)
    ensures Closed(ids, b, prereqs)
  {
  }
}
