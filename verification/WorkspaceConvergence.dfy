/**
 What a workspace's passes try and what they leave behind: when a sweep or a reopen tries
 an envelope again, and what a restored snapshot gives, over whole runs.
 */
module WorkspaceConvergence {
  import opened DerivedStore
  import opened RelayLog
  import opened WorkspaceRuns
  import opened Wrappers

  // ----- what a pass tries -----

  /** The pass over es comes to the envelope while it is still unapplied. */
  ghost predicate TriedIn<S>(f: Applier<S>, st: Store<S>, es: seq<Envelope>, e: Envelope) {
    exists i: nat :: i < |es| && es[i] == e && Tried(Replay(f, st, es[..i]), es[i])
  }

  /** ... and the store rejects it there. */
  ghost predicate RejectedIn<S>(f: Applier<S>, st: Store<S>, es: seq<Envelope>, e: Envelope) {
    exists i: nat :: i < |es| && es[i] == e && Rejected(f, st, es, i)
  }

  lemma TailIdsDistinct(log: Log, ws: string, afterSeq: nat)
    requires ValidLog(log)
    ensures var es := Tail(log, ws, afterSeq);
            forall i, j :: 0 <= i < j < |es| ==> es[i].id != es[j].id
  {
    hide ValidLog, TailRows;
    ValidAscends(log);
    TailAscends(log.rows, ws, afterSeq);
  }

  lemma RowInTail(log: Log, ws: string, afterSeq: nat, r: Row)
    requires ValidLog(log) && r in log.rows && r.env.workspaceId == ws
    ensures r.env in Tail(log, ws, afterSeq) <==> r.num > afterSeq
    ensures r.env.id in IdsOf(Tail(log, ws, afterSeq)) <==> r.num > afterSeq
  {
    hide TailRows, ValidLog;
    var rows, es := TailRows(log.rows, ws, afterSeq), Tail(log, ws, afterSeq);
    TailMembers(log.rows, ws, afterSeq);
    if r.num > afterSeq {
      var i :| 0 <= i < |rows| && rows[i] == r;
      assert es[i] == r.env;
    }
    if r.env.id in IdsOf(es) {
      var e :| e in es && e.id == r.env.id;
      var i :| 0 <= i < |es| && es[i] == e;
      assert rows[i] in rows;
      SameIdSameRow(log, r, rows[i]);
    }
  }

  /** A pass reaches an envelope with everything before it decided and its own id still free. */
  lemma FreeAtItsTurn<S>(f: Applier<S>, st: Store<S>, es: seq<Envelope>, i: nat)
    requires i < |es| && es[i].id !in st.applied
    requires forall j :: 0 <= j < i ==> es[j].id != es[i].id
    ensures es[i].id !in Replay(f, st, es[..i]).applied
  {
    hide Replay;
    ReplayBounds(f, st, es[..i]);
  }

  /**
   A pass from a cursor tries an unapplied plaintext row of its workspace exactly when
   the row lies behind the cursor; tried, it ends applied or rejected, and not tried,
   it stays unapplied.
   */
  lemma PassTries<S>(f: Applier<S>, st: Store<S>, log: Log, ws: string, afterSeq: nat, r: Row)
    requires ValidLog(log) && r in log.rows && r.env.workspaceId == ws
    requires !r.env.sealed && r.env.id !in st.applied
    ensures var es := Tail(log, ws, afterSeq);
            && (TriedIn(f, st, es, r.env) <==> r.num > afterSeq)
            && (r.env.id in Replay(f, st, es).applied || RejectedIn(f, st, es, r.env) <==> r.num > afterSeq)
  {
    hide ValidLog, TailRows, Replay, Rejected;
    var es := Tail(log, ws, afterSeq);
    RowInTail(log, ws, afterSeq, r);
    TailIdsDistinct(log, ws, afterSeq);
    ReplayBounds(f, st, es);
    if r.num > afterSeq {
      var i :| 0 <= i < |es| && es[i] == r.env;
      FreeAtItsTurn(f, st, es, i);
      PassDecides(f, st, es, i);
    }
  }

  /**
   The exact condition for a retry. The next sweep of an open handle tries an unapplied
   plaintext envelope of its workspace, and applies or rejects it, if and only if its
   number is above the watermark; otherwise the sweep leaves it stranded.
   */
  lemma SweepTries<S>(f: Applier<S>, ws: string, blank: S, w: World<S>, r: Row)
    requires Safe(w) && w.open
    requires r in w.log.rows && r.env.workspaceId == ws && !r.env.sealed && r.env.id !in w.store.applied
    ensures var es, v := Tail(w.log, ws, w.lastSeq), Do(f, ws, blank, w, Sweep);
            && (TriedIn(f, w.store, es, r.env) <==> r.num > w.lastSeq)
            && (r.env.id in v.store.applied || RejectedIn(f, w.store, es, r.env) <==> r.num > w.lastSeq)
            && (r.num <= w.lastSeq ==> Stranded(v, r))
  {
    hide ValidLog, InLog, Tail, Replay, Pending, TriedIn, RejectedIn;
    PassTries(f, w.store, w.log, ws, w.lastSeq, r);
    if r.num <= w.lastSeq { SweepStrands(f, ws, w, r); }
  }

  /** A reopen does so if and only if the number is above the point hydration starts from. */
  lemma ReopenTries<S>(f: Applier<S>, ws: string, blank: S, w: World<S>, r: Row)
    requires Safe(w) && !w.open
    requires r in w.log.rows && r.env.workspaceId == ws && !r.env.sealed
    requires r.env.id !in HydrationStart(w).0.applied
    ensures var (start, afterSeq) := HydrationStart(w);
            var es, v := Tail(w.log, ws, afterSeq), Do(f, ws, blank, w, Reopen);
            && (TriedIn(f, start, es, r.env) <==> r.num > afterSeq)
            && (r.env.id in v.store.applied || RejectedIn(f, start, es, r.env) <==> r.num > afterSeq)
  {
    hide ValidLog, InLog, Tail, TailRows, Replay, Pending, TriedIn, RejectedIn;
    var (start, afterSeq) := HydrationStart(w);
    PassTries(f, start, w.log, ws, afterSeq, r);
  }

  /**
   What a sweep or a reopen leaves unapplied it leaves stranded: the watermark is past
   every row of the workspace, so no later sweep tries a skipped envelope again.
   */
  lemma PassStrandsTheRest<S>(f: Applier<S>, ws: string, blank: S, w: World<S>, r: Row, pass: Action)
    requires Safe(w) && pass == (if w.open then Sweep else Reopen)
    requires r in w.log.rows && r.env.workspaceId == ws
    ensures var v := Do(f, ws, blank, w, pass);
            r.env.id !in v.store.applied <==> Stranded(v, r)
  {
    hide ValidLog, InLog, TailRows, Replay, Pending;
    ValidAscends(w.log);
    LatestIsMax(w.log.rows, ws);
  }

  lemma {:induction false} IngestOne(log: Log, e: Envelope)
    ensures IngestAll(log, [e]) == Insert(log, e)
  {
    assert [e][..0] == [];
    assert IngestAll(log, []) == log;
  }

  lemma {:induction false} FreshOne(saved: set<string>, e: Envelope)
    ensures Fresh(saved, [e]) == if e.id in saved && !e.sealed then [e] else []
  {
    assert [e][..0] == [];
    assert Fresh(saved, []) == [];
  }

  lemma {:induction false} ApplyOne<S>(f: Applier<S>, st: Store<S>, e: Envelope)
    requires e.id !in st.applied && f(st, e).Some?
    ensures ApplyMany(f, st, [e]) == Some(Recorded(f(st, e).value, st, e))
  {
    assert [e][..0] == [];
    assert ApplyMany(f, st, []) == Some(st);
  }

  lemma SavedOne(log: Log, b: Envelope)
    requires !HasId(log.rows, b.id)
    ensures SavedIds(log, [b]) == {b.id}
  {
    hide HasId;
    IngestOne(log, b);
    assert Added(log, [b]) == [Row(log.lastSeq + 1, b)];
    assert Envelopes([Row(log.lastSeq + 1, b)]) == [b];
  }

  /** A write of one new plaintext envelope that the store accepts. */
  lemma OneWrite<S>(f: Applier<S>, ws: string, w: World<S>, b: Envelope)
    requires !HasId(w.log.rows, b.id) && b.workspaceId == ws && !b.sealed
    requires b.id !in w.store.applied && f(w.store, b).Some?
    ensures Applying(f, ws, w, [b]) ==
            w.(log := Insert(w.log, b), store := Recorded(f(w.store, b).value, w.store, b),
               lastSeq := Max(w.lastSeq, w.log.lastSeq + 1))
  {
    hide HasId, SavedIds, Fresh, ApplyMany, Recorded;
    IngestOne(w.log, b);
    SavedOne(w.log, b);
    FreshOne({b.id}, b);
    ApplyOne(f, w.store, b);
  }

  /**
   One write of a new envelope the store accepts strands every row of the log that is
   not applied by then, whether or not the store would accept it.
   */
  lemma WriteStrandsTheRest<S>(f: Applier<S>, ws: string, w: World<S>, b: Envelope, r: Row)
    requires Safe(w) && w.open
    requires !HasId(w.log.rows, b.id) && b.workspaceId == ws && !b.sealed && f(w.store, b).Some?
    requires r in w.log.rows && r.env.id !in w.store.applied
    ensures Applying(f, ws, w, [b]).store == Recorded(f(w.store, b).value, w.store, b)
    ensures Stranded(Applying(f, ws, w, [b]), r)
  {
    hide ValidLog, HasId, Applying;
    RowHasId(w.log, r);
    SeqBound(w.log, r);
    OneWrite(f, ws, w, b);
  }

  lemma RunOfThree<S>(f: Applier<S>, ws: string, blank: S, x: Action, y: Action, z: Action)
    ensures RunAll(f, ws, blank, [x, y, z]) ==
            Do(f, ws, blank, Do(f, ws, blank, Do(f, ws, blank, Initial(blank), x), y), z)
  {
    hide Do, Initial;
    assert [x, y, z][..2] == [x, y] && [x, y][..1] == [x] && [x][..0] == [];
    assert RunAll(f, ws, blank, [x]) == Do(f, ws, blank, Initial(blank), x);
  }

  lemma ReopenEmpty<S>(f: Applier<S>, ws: string, blank: S)
    ensures Do(f, ws, blank, Initial(blank), Reopen) == Initial(blank).(open := true)
  {
    assert Tail(EMPTY_LOG, ws, 0) == [];
    EmptyReplay(f, Store(blank, {}));
  }

  /** An open handle that has applied nothing, over a log of one envelope. */
  function OpenOver<S>(blank: S, a: Envelope): World<S> {
    Initial(blank).(log := Log([Row(1, a)], 1), open := true)
  }

  lemma OpenOverSafe<S>(blank: S, a: Envelope)
    ensures Safe(OpenOver(blank, a))
  {
  }

  lemma ReachOpenOver<S>(f: Applier<S>, ws: string, blank: S, a: Envelope)
    ensures Do(f, ws, blank, Do(f, ws, blank, Initial(blank), Reopen), Append([a])) == OpenOver(blank, a)
  {
    hide Hydrated;
    ReopenEmpty(f, ws, blank);
    IngestOne(EMPTY_LOG, a);
  }

  lemma ApplyWhenOpen<S>(f: Applier<S>, ws: string, blank: S, w: World<S>, batch: seq<Envelope>)
    requires w.open
    ensures Do(f, ws, blank, w, Apply(batch)) == Applying(f, ws, w, batch)
  {
  }

  /**
   A run that gets there: the handle is open, another writer appends an envelope, and a
   write through the handle moves the watermark past it. Any further appends, writes
   and sweeps leave it unapplied, although the store accepts everything.
   */
  lemma OvertakenEnvelope<S>(
      f: Applier<S>, ws: string, blank: S, a: Envelope, b: Envelope, more: seq<Action>)
    requires forall st, e :: f(st, e).Some?
    requires !a.sealed && !b.sealed && a.id != b.id && a.workspaceId == ws && b.workspaceId == ws
    requires forall x :: x in more ==> x.Append? || x.Apply? || x.Sweep?
    ensures var w := RunAll(f, ws, blank, [Reopen, Append([a]), Apply([b])]);
            Stranded(w, Row(1, a)) && Stranded(RunFrom(f, ws, blank, w, more), Row(1, a))
  {
    hide Safe, Stranded, Do, Applying, RunAll, RunFrom;
    RunOfThree(f, ws, blank, Reopen, Append([a]), Apply([b]));
    ReachOpenOver(f, ws, blank, a);
    var w := OpenOver(blank, a);
    ApplyWhenOpen(f, ws, blank, w, [b]);
    OpenOverSafe(blank, a);
    WriteStrandsTheRest(f, ws, w, b, Row(1, a));
    DoSafe(f, ws, blank, w, Apply([b]));
    StrandedForGood(f, ws, blank, Applying(f, ws, w, [b]), Row(1, a), more);
  }

  // ----- a skipped child, retried only by a reopen -----

  const PARENT := "parent"
  const CHILD := "child"

  /** A store that accepts everything except the child before its parent; the state counts what it applied. */
  function ParentFirst(st: Store<nat>, e: Envelope): Option<nat> {
    if e.id == CHILD && PARENT !in st.applied then None else Some(st.state + 1)
  }

  lemma OneRowTail(ws: string, e: Envelope)
    requires e.workspaceId == ws
    ensures var log := Log([Row(1, e)], 1);
            |TailRows(log.rows, ws, 0)| == 1 && Tail(log, ws, 0) == [e] && LatestSeqOf(log.rows, ws) == 1
  {
    var rows := [Row(1, e)];
    assert rows[..0] == [] && TailRows([], ws, 0) == [];
    assert TailRows(rows, ws, 0) == rows && Envelopes(rows) == [e];
  }

  lemma ReopenOverChild(ws: string, child: Envelope)
    requires child.id == CHILD && child.workspaceId == ws && !child.sealed
    ensures Do(ParentFirst, ws, 0, Do(ParentFirst, ws, 0, Initial(0), Append([child])), Reopen) ==
            OpenOver(0, child).(lastSeq := 1, pending := 1)
  {
    IngestOne(EMPTY_LOG, child);
    OneRowTail(ws, child);
    var st: Store<nat> := Store(0, {});
    RejectOne(ParentFirst, st, child);
    hide ParentFirst, Tail, TailRows, LatestSeqOf, Replay, Pending, IngestAll;
  }

  lemma {:induction false} RejectOne<S>(f: Applier<S>, st: Store<S>, e: Envelope)
    requires Tried(st, e) && f(st, e).None?
    ensures Replay(f, st, [e]) == st && Pending(f, st, [e]) == 1
  {
    assert [e][..0] == [];
    EmptyReplay(f, st);
    assert Pending(f, st, []) == 0;
  }

  lemma ChildNotRejected(st: Store<nat>, es: seq<Envelope>, child: Envelope)
    requires PARENT in st.applied
    ensures !RejectedIn(ParentFirst, st, es, child)
  {
    hide Replay;
    forall i: nat | i < |es| ensures PARENT in Replay(ParentFirst, st, es[..i]).applied {
      ReplayBounds(ParentFirst, st, es[..i]);
    }
  }

  /**
   The child arrives alone and the opening pass skips it; then its parent is written.
   The store would now accept the child, yet no appends, writes and sweeps apply it.
   The next reopen does.
   */
  lemma SkippedChild(ws: string, child: Envelope, parent: Envelope, more: seq<Action>)
    requires child.id == CHILD && child.workspaceId == ws && !child.sealed
    requires parent.id == PARENT && parent.workspaceId == ws && !parent.sealed
    requires forall x :: x in more ==> x.Append? || x.Apply? || x.Sweep?
    ensures var w := RunAll(ParentFirst, ws, 0, [Append([child]), Reopen, Apply([parent])]);
            && ParentFirst(w.store, child).Some?
            && Stranded(RunFrom(ParentFirst, ws, 0, w, more), Row(1, child))
            && CHILD in Do(ParentFirst, ws, 0, Do(ParentFirst, ws, 0, w, Crash), Reopen).store.applied
  {
    hide Safe, Stranded, Do, Applying, RunAll, RunFrom;
    var w: World<nat> := OpenOver(0, child).(lastSeq := 1, pending := 1);
    RunOfThree(ParentFirst, ws, 0, Append([child]), Reopen, Apply([parent]));
    ReopenOverChild(ws, child);
    ApplyWhenOpen(ParentFirst, ws, 0, w, [parent]);
    ChildWorldSafe(child);
    assert |PARENT| != |CHILD|;
    WriteStrandsTheRest(ParentFirst, ws, w, parent, Row(1, child));
    DoSafe(ParentFirst, ws, 0, w, Apply([parent]));
    var v := Applying(ParentFirst, ws, w, [parent]);
    StrandedForGood(ParentFirst, ws, 0, v, Row(1, child), more);
    ReopenAppliesChild(ws, v, Row(1, child));
  }

  lemma ChildWorldSafe(child: Envelope)
    ensures var w: World<nat> := OpenOver(0, child).(lastSeq := 1, pending := 1);
            Safe(w)
  {
  }

  lemma ReopenAppliesChild(ws: string, w: World<nat>, r: Row)
    requires Safe(w) && Stranded(w, r) && PARENT in w.store.applied
    requires r.env.id == CHILD && r.env.workspaceId == ws && !r.env.sealed
    ensures CHILD in Do(ParentFirst, ws, 0, Do(ParentFirst, ws, 0, w, Crash), Reopen).store.applied
  {
    hide ValidLog, Hydrated, RejectedIn, TriedIn, Tail;
    var v := Do(ParentFirst, ws, 0, w, Crash);
    DoSafe(ParentFirst, ws, 0, w, Crash);
    SeqBound(w.log, r);
    ReopenTries(ParentFirst, ws, 0, v, r);
    ChildNotRejected(v.store, Tail(v.log, ws, 0), r.env);
  }

  // ----- snapshots over runs -----

  lemma ExtendsReflexive(a: Log)
    requires ValidLog(a)
    ensures LogExtends(a, a)
  {
  }

  lemma ExtendsTransitive(a: Log, b: Log, c: Log)
    requires LogExtends(a, b) && LogExtends(b, c) && a.lastSeq <= b.lastSeq
    ensures LogExtends(a, c)
  {
    hide ValidLog;
    assert c.rows[..|a.rows|] == c.rows[..|b.rows|][..|a.rows|];
    forall i | |a.rows| <= i < |c.rows| ensures c.rows[i].num > a.lastSeq {
      if i < |b.rows| { assert c.rows[i] == c.rows[..|b.rows|][i]; }
    }
  }

  /** Every step keeps the log or ingests one batch. */
  lemma StepExtends<S>(f: Applier<S>, ws: string, blank: S, w: World<S>, a: Action)
    requires ValidLog(w.log)
    ensures LogExtends(w.log, Do(f, ws, blank, w, a).log)
    ensures w.log.lastSeq <= Do(f, ws, blank, w, a).log.lastSeq
  {
    hide ValidLog, LogExtends, InLog, Tail, Replay, Pending, IngestAll;
    ExtendsReflexive(w.log);
    if a.Append? || a.Apply? || a.ApplyCrash? {
      IngestIsExtension(w.log, a.batch);
      NothingInLog(w.log);
      IngestSafe({}, w.log, a.batch);
    }
  }

  /** Over any run, crashes and reopens included, the log only grows at its end. */
  lemma {:induction false} RunExtends<S>(
      f: Applier<S>, ws: string, blank: S, w: World<S>, actions: seq<Action>)
    requires ValidLog(w.log)
    ensures LogExtends(w.log, RunFrom(f, ws, blank, w, actions).log)
    ensures w.log.lastSeq <= RunFrom(f, ws, blank, w, actions).log.lastSeq
  {
    hide ValidLog, Do;
    if actions == [] {
      ExtendsReflexive(w.log);
    } else {
      var init, last := actions[..|actions| - 1], actions[|actions| - 1];
      RunExtends(f, ws, blank, w, init);
      var v := RunFrom(f, ws, blank, w, init);
      StepExtends(f, ws, blank, v, last);
      ExtendsTransitive(w.log, v.log, Do(f, ws, blank, v, last).log);
    }
  }

  /** Only a completed reopen writes a snapshot, and none replaces another. */
  lemma StepKeepsSnap<S>(f: Applier<S>, ws: string, blank: S, w: World<S>, a: Action)
    requires w.snap.Some? || !a.Reopen?
    ensures Do(f, ws, blank, w, a).snap == w.snap
  {
    hide ValidLog, Tail, TailRows, Replay, Pending, IngestAll, ApplyMany;
  }

  lemma {:induction false} RunKeepsSnap<S>(
      f: Applier<S>, ws: string, blank: S, w: World<S>, actions: seq<Action>)
    requires w.snap.Some? || Reopen !in actions
    ensures RunFrom(f, ws, blank, w, actions).snap == w.snap
  {
    hide Do;
    if actions != [] {
      var init, last := actions[..|actions| - 1], actions[|actions| - 1];
      assert actions == init + [last];
      RunKeepsSnap(f, ws, blank, w, init);
      StepKeepsSnap(f, ws, blank, RunFrom(f, ws, blank, w, init), last);
    }
  }

  /**
   Open a workspace for the first time over any log, let any run follow, lose the derived
   file, and reopen: restoring the snapshot of the first opening and replaying the tail
   gives the store that replaying the whole log from nothing gives. When the first
   opening wrote no snapshot, the run must hold no other reopen, which could write one
   of a store that has a history of its own.
   */
  lemma RunsRestoreToReplay<S>(
      f: Applier<S>, ws: string, blank: S, log: Log, actions: seq<Action>)
    requires ValidLog(log)
    requires var early: World<S> := World(log, None, Store(blank, {}), false, 0, 0);
             Do(f, ws, blank, early, Reopen).snap.Some? || Reopen !in actions
    ensures var early: World<S> := World(log, None, Store(blank, {}), false, 0, 0);
            var late := RunFrom(f, ws, blank, Do(f, ws, blank, early, Reopen), actions);
            var lost := Do(f, ws, blank, late, DropFile);
            Do(f, ws, blank, lost, Reopen).store == Replay(f, Store(blank, {}), Tail(late.log, ws, 0))
  {
    hide ValidLog, LogExtends, Hydrated, RunFrom, Replay, Tail, TailRows;
    var early: World<S> := World(log, None, Store(blank, {}), false, 0, 0);
    var first := Do(f, ws, blank, early, Reopen);
    var late := RunFrom(f, ws, blank, first, actions);
    OpenKeepsLog(f, ws, blank, early);
    RunExtends(f, ws, blank, first, actions);
    RunKeepsSnap(f, ws, blank, first, actions);
    SnapshotEqualsReplay(f, ws, blank, early, Do(f, ws, blank, late, DropFile));
  }

  lemma OpenKeepsLog<S>(f: Applier<S>, ws: string, blank: S, w: World<S>)
    ensures Do(f, ws, blank, w, Reopen).log == w.log
  {
  }
}
