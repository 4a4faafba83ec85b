/**
 One workspace as a state machine over the steps of its write path, external appends,
 sweeps, crashes, reopens and the deletion of its derived file.
 */
module WorkspaceRuns {
  import opened DerivedStore
  import opened RelayLog
  import opened Wrappers

  const SNAPSHOT_REBUILD_MIN_ENVELOPES := 1000

  /** A stored image of the derived store and the sequence number it is said to cover. */
  datatype Snap<S> = Snap(image: Store<S>, upToSeq: nat)

  /** The relay log and snapshot, the derived file, and the open handle's fields. */
  datatype World<S> = World(
    log: Log, snap: Option<Snap<S>>, store: Store<S>, open: bool, lastSeq: nat, pending: nat)

  datatype Action =
    | Append(batch: seq<Envelope>)      // an external writer extends the log
    | Apply(batch: seq<Envelope>)       // ingest, then apply the newly saved envelopes
    | ApplyCrash(batch: seq<Envelope>)  // the process dies between the two
    | Sweep
    | SweepCrash(done: nat)             // ... after the given number of envelopes
    | Reopen
    | ReopenCrash(done: nat)
    | Crash
    | DropFile                          // the derived file is deleted, the log stays

  function Tail(log: Log, ws: string, afterSeq: nat): seq<Envelope> {
    Envelopes(TailRows(log.rows, ws, afterSeq))
  }

  // ----- the steps -----

  /** Newly saved, not sealed: what the write path hands to the derived store. */
  function Fresh(saved: set<string>, batch: seq<Envelope>): seq<Envelope> {
    if batch == [] then []
    else
      var init, last := Fresh(saved, batch[..|batch| - 1]), batch[|batch| - 1];
      if last.id in saved && !last.sealed then init + [last] else init
  }

  function SavedIds(log: Log, batch: seq<Envelope>): set<string> {
    IdsOf(Envelopes(Added(log, batch)))
  }

  function Sweeping<S>(f: Applier<S>, ws: string, w: World<S>, afterSeq: nat): World<S> {
    var es := Tail(w.log, ws, afterSeq);
    w.(store := Replay(f, w.store, es),
       pending := Pending(f, w.store, es),
       lastSeq := Max(w.lastSeq, LatestSeqOf(w.log.rows, ws)))
  }

  predicate Restores<S>(w: World<S>) {
    w.store.applied == {} && w.snap.Some?
  }

  /** The store and cursor hydration starts from: the snapshot when the store is empty, else the file from 0. */
  function HydrationStart<S>(w: World<S>): (Store<S>, nat) {
    if Restores(w) then (w.snap.value.image, w.snap.value.upToSeq) else (w.store, 0)
  }

  function Hydrated<S>(f: Applier<S>, ws: string, w: World<S>): World<S> {
    var (start, afterSeq) := HydrationStart(w);
    var v := Sweeping(f, ws, w.(store := start, open := true, lastSeq := 0, pending := 0), afterSeq);
    if v.snap.Some? || |TailRows(v.log.rows, ws, 0)| < SNAPSHOT_REBUILD_MIN_ENVELOPES then v
    else v.(snap := Some(Snap(v.store, LatestSeqOf(v.log.rows, ws))))
  }

  function Applying<S>(f: Applier<S>, ws: string, w: World<S>, batch: seq<Envelope>): World<S> {
    var v := w.(log := IngestAll(w.log, batch));
    var newly := Fresh(SavedIds(w.log, batch), batch);
    if newly == [] then v
    else
      match ApplyMany(f, w.store, newly)
      case None => v // the batch rolls back and the error reaches the caller
      case Some(st) => v.(store := st, lastSeq := Max(w.lastSeq, LatestSeqOf(v.log.rows, ws)))
  }

  function Closing<S>(w: World<S>): World<S> {
    w.(open := false, lastSeq := 0, pending := 0)
  }

  function Do<S>(f: Applier<S>, ws: string, blank: S, w: World<S>, a: Action): World<S> {
    match a
    case Append(batch) => w.(log := IngestAll(w.log, batch))
    case Apply(batch) => if w.open then Applying(f, ws, w, batch) else w
    case ApplyCrash(batch) => if w.open then Closing(w.(log := IngestAll(w.log, batch))) else w
    case Sweep => if w.open then Sweeping(f, ws, w, w.lastSeq) else w
    case SweepCrash(done) =>
      if w.open then Closing(w.(store := Replay(f, w.store, Prefix(Tail(w.log, ws, w.lastSeq), done)))) else w
    case Reopen => if w.open then w else Hydrated(f, ws, w)
    case ReopenCrash(done) =>
      if w.open then w
      else
        var (start, afterSeq) := HydrationStart(w);
        Closing(w.(store := Replay(f, start, Prefix(Tail(w.log, ws, afterSeq), done))))
    case Crash => Closing(w)
    case DropFile => Closing(w.(store := Store(blank, {})))
  }

  function Initial<S>(blank: S): World<S> {
    World(EMPTY_LOG, None, Store(blank, {}), false, 0, 0)
  }

  function RunAll<S>(f: Applier<S>, ws: string, blank: S, actions: seq<Action>): World<S> {
    if actions == [] then Initial(blank)
    else Do(f, ws, blank, RunAll(f, ws, blank, actions[..|actions| - 1]), actions[|actions| - 1])
  }

  // ----- safety over every run -----

  ghost predicate InLog(ids: set<string>, log: Log) {
    forall id :: id in ids ==> HasId(log.rows, id)
  }

  /** Nothing derived runs ahead of the log: not the store, not the snapshot, not the watermark. */
  ghost predicate Safe<S>(w: World<S>) {
    && ValidLog(w.log)
    && InLog(w.store.applied, w.log)
    && w.lastSeq <= w.log.lastSeq
    && (w.snap.Some? ==> InLog(w.snap.value.image.applied, w.log) && w.snap.value.upToSeq <= w.log.lastSeq)
  }

  lemma TailInLog(log: Log, ws: string, afterSeq: nat, done: nat)
    ensures InLog(IdsOf(Prefix(Tail(log, ws, afterSeq), done)), log)
  {
    var rows := TailRows(log.rows, ws, afterSeq);
    var es := Prefix(Envelopes(rows), done);
    TailMembers(log.rows, ws, afterSeq);
    forall id | id in IdsOf(es) ensures HasId(log.rows, id) {
      var e :| e in es && e.id == id;
      var i :| 0 <= i < |es| && es[i] == e;
      assert rows[i] in rows && rows[i].env == e;
    }
  }

  lemma LatestInBounds(log: Log, ws: string)
    requires ValidLog(log)
    ensures LatestSeqOf(log.rows, ws) <= log.lastSeq
  {
    ValidAscends(log);
    LatestIsMax(log.rows, ws);
  }

  lemma ReplaySafe<S>(f: Applier<S>, st: Store<S>, log: Log, ws: string, afterSeq: nat, done: nat)
    requires InLog(st.applied, log)
    ensures InLog(Replay(f, st, Prefix(Tail(log, ws, afterSeq), done)).applied, log)
  {
    ReplayBounds(f, st, Prefix(Tail(log, ws, afterSeq), done));
    TailInLog(log, ws, afterSeq, done);
  }

  lemma IngestSafe(ids: set<string>, log: Log, batch: seq<Envelope>)
    requires ValidLog(log) && InLog(ids, log)
    ensures ValidLog(IngestAll(log, batch)) && InLog(ids, IngestAll(log, batch))
    ensures log.lastSeq <= IngestAll(log, batch).lastSeq
  {
    IngestValid(log, batch);
    IngestExtends(log, batch);
    forall id | id in ids ensures HasId(IngestAll(log, batch).rows, id) { IngestIds(log, batch, id); }
  }

  lemma {:induction false} FreshMembers(saved: set<string>, batch: seq<Envelope>)
    ensures forall e :: e in Fresh(saved, batch) <==> e in batch && e.id in saved && !e.sealed
  {
    if batch != [] {
      FreshMembers(saved, batch[..|batch| - 1]);
      assert batch == batch[..|batch| - 1] + [batch[|batch| - 1]];
    }
  }

  lemma SweepingSafe<S>(f: Applier<S>, ws: string, w: World<S>, afterSeq: nat)
    requires Safe(w)
    ensures Safe(Sweeping(f, ws, w, afterSeq))
  {
    hide ValidLog, InLog;
    var es := Tail(w.log, ws, afterSeq);
    ReplaySafe(f, w.store, w.log, ws, afterSeq, |es|);
    LatestInBounds(w.log, ws);
  }

  lemma ApplyingSafe<S>(f: Applier<S>, ws: string, w: World<S>, batch: seq<Envelope>)
    requires Safe(w)
    ensures Safe(Applying(f, ws, w, batch))
  {
    hide ValidLog;
    var next := IngestAll(w.log, batch);
    var saved := SavedIds(w.log, batch);
    var newly := Fresh(saved, batch);
    IngestSafe(w.store.applied, w.log, batch);
    if w.snap.Some? { IngestSafe(w.snap.value.image.applied, w.log, batch); }
    ApplyManyBounds(f, w.store, newly);
    FreshMembers(saved, batch);
    LatestInBounds(next, ws);
    forall id | id in IdsOf(batch) ensures HasId(next.rows, id) {
      var e :| e in batch && e.id == id;
      var i :| 0 <= i < |batch| && batch[i] == e;
      IngestIds(w.log, batch, id);
    }
  }

  lemma DoSafe<S>(f: Applier<S>, ws: string, blank: S, w: World<S>, a: Action)
    requires Safe(w)
    ensures Safe(Do(f, ws, blank, w, a))
  {
    hide ValidLog, InLog, Sweeping, Applying, Replay;
    match a
    case Append(batch) => AppendSafe(w, batch);
    case Apply(batch) => ApplyingSafe(f, ws, w, batch);
    case ApplyCrash(batch) => AppendSafe(w, batch);
    case Sweep => SweepingSafe(f, ws, w, w.lastSeq);
    case SweepCrash(done) => ReplaySafe(f, w.store, w.log, ws, w.lastSeq, done);
    case Reopen => HydratedSafe(f, ws, w);
    case ReopenCrash(done) =>
      var (start, afterSeq) := HydrationStart(w);
      ReplaySafe(f, start, w.log, ws, afterSeq, done);
    case Crash =>
    case DropFile => NothingInLog(w.log);
  }

  lemma NothingInLog(log: Log)
    ensures InLog({}, log)
  {
  }

  lemma AppendSafe<S>(w: World<S>, batch: seq<Envelope>)
    requires Safe(w)
    ensures Safe(w.(log := IngestAll(w.log, batch)))
  {
    hide ValidLog, InLog;
    IngestSafe(w.store.applied, w.log, batch);
    if w.snap.Some? { IngestSafe(w.snap.value.image.applied, w.log, batch); }
  }

  lemma HydratedSafe<S>(f: Applier<S>, ws: string, w: World<S>)
    requires Safe(w)
    ensures Safe(Hydrated(f, ws, w))
  {
    hide ValidLog, InLog, Sweeping;
    var (start, afterSeq) := HydrationStart(w);
    SweepingSafe(f, ws, w.(store := start, open := true, lastSeq := 0, pending := 0), afterSeq);
    LatestInBounds(w.log, ws);
    SweepingKeeps(f, ws, w.(store := start, open := true, lastSeq := 0, pending := 0), afterSeq);
  }

  lemma SweepingKeeps<S>(f: Applier<S>, ws: string, w: World<S>, afterSeq: nat)
    ensures var v := Sweeping(f, ws, w, afterSeq); v.log == w.log && v.snap == w.snap && v.open == w.open
  {
  }

  /** Over every run the derived store never holds an envelope id the log lacks. */
  lemma {:induction false} RunsAreSafe<S>(f: Applier<S>, ws: string, blank: S, actions: seq<Action>)
    ensures Safe(RunAll(f, ws, blank, actions))
  {
    hide Do, Safe;
    if actions == [] {
      InitialSafe(blank);
    } else {
      RunsAreSafe(f, ws, blank, actions[..|actions| - 1]);
      DoSafe(f, ws, blank, RunAll(f, ws, blank, actions[..|actions| - 1]), actions[|actions| - 1]);
    }
  }

  lemma InitialSafe<S>(blank: S)
    ensures Safe(Initial(blank))
  {
  }

  // ----- what a reopen decides -----

  /**
   Reopening tries every plaintext envelope of the workspace after the point hydration
   starts from: each ends applied or was rejected in that very pass, and the pending
   count is the number rejected. A store that is not restored from a snapshot starts
   from 0, so there nothing of the workspace is left out.
   */
  lemma ReopenDecides<S>(f: Applier<S>, ws: string, blank: S, w: World<S>, i: nat)
    requires !w.open
    requires var es := Tail(w.log, ws, HydrationStart(w).1); i < |es| && !es[i].sealed
    ensures var (start, afterSeq) := HydrationStart(w);
            var es := Tail(w.log, ws, afterSeq);
            var v := Do(f, ws, blank, w, Reopen);
            && v.open && v.log == w.log
            && v.store == Replay(f, start, es) && v.pending == Pending(f, start, es)
            && (es[i].id in v.store.applied || Rejected(f, start, es, i))
    ensures !Restores(w) ==> HydrationStart(w) == (w.store, 0)
  {
    hide Replay, Pending, Rejected;
    var (start, afterSeq) := HydrationStart(w);
    PassDecides(f, start, Tail(w.log, ws, afterSeq), i);
  }

  /** The pending count is zero exactly when the pass rejected nothing. */
  lemma {:induction false} PendingCounts<S>(f: Applier<S>, st: Store<S>, es: seq<Envelope>)
    ensures Pending(f, st, es) == 0 <==> forall i :: 0 <= i < |es| ==> !Rejected(f, st, es, i)
    ensures Pending(f, st, es) <= |es|
  {
    if es != [] {
      var init := es[..|es| - 1];
      PendingCounts(f, st, init);
      assert forall i :: 0 <= i < |init| ==> init[..i] == es[..i] && init[i] == es[i];
      assert forall i :: 0 <= i < |init| ==> (Rejected(f, st, init, i) <==> Rejected(f, st, es, i));
      assert Rejected(f, st, es, |init|) <==> Pending(f, st, es) == Pending(f, st, init) + 1;
    }
  }

  // ----- snapshot plus tail is a full replay -----

  /** The later log keeps the earlier rows in place and numbers the new ones past its counter. */
  ghost predicate LogExtends(a: Log, b: Log) {
    && ValidLog(a) && ValidLog(b)
    && |a.rows| <= |b.rows| && b.rows[..|a.rows|] == a.rows
    && forall i :: |a.rows| <= i < |b.rows| ==> b.rows[i].num > a.lastSeq
  }

  lemma IngestIsExtension(log: Log, batch: seq<Envelope>)
    requires ValidLog(log)
    ensures LogExtends(log, IngestAll(log, batch))
  {
    IngestValid(log, batch);
    IngestExtends(log, batch);
  }

  /** The rows a snapshot's cursor leaves over are exactly those written after it. */
  lemma TailFromSnapshot(a: Log, b: Log, ws: string)
    requires LogExtends(a, b)
    ensures Tail(a, ws, 0) + Tail(b, ws, LatestSeqOf(a.rows, ws)) == Tail(b, ws, 0)
  {
    hide ValidLog, TailRows, AscendingRows;
    var tip, added := LatestSeqOf(a.rows, ws), b.rows[|a.rows|..];
    assert b.rows == a.rows + added;
    ValidAscends(a);
    LatestIsMax(a.rows, ws);
    LatestInBounds(a, ws);
    TailMembers(a.rows, ws, tip);
    NoMembers(TailRows(a.rows, ws, tip));
    TailConcat(a.rows, added, ws, tip);
    TailConcat(a.rows, added, ws, 0);
    NewRowsInTail(added, ws, tip);
    EnvelopesConcat(TailRows(a.rows, ws, 0), TailRows(added, ws, 0));
  }

  /**
   A snapshot written by a hydration begun from an empty store without one, restored
   later into an empty store and followed by the tail, gives the same store as
   replaying the whole later log from empty.
   */
  lemma SnapshotEqualsReplay<S>(f: Applier<S>, ws: string, blank: S, early: World<S>, late: World<S>)
    requires early.store == Store(blank, {}) && early.snap == None && !early.open
    requires late.store == Store(blank, {}) && !late.open && LogExtends(early.log, late.log)
    requires late.snap == Do(f, ws, blank, early, Reopen).snap
    ensures Do(f, ws, blank, late, Reopen).store == Replay(f, Store(blank, {}), Tail(late.log, ws, 0))
    ensures Do(f, ws, blank, late, Reopen).store == Do(f, ws, blank, late.(snap := None), Reopen).store
  {
    hide LogExtends, TailRows, Replay, Pending;
    var empty: Store<S> := Store(blank, {});
    var tip := LatestSeqOf(early.log.rows, ws);
    TailFromSnapshot(early.log, late.log, ws);
    ReplayConcat(f, empty, Tail(early.log, ws, 0), Tail(late.log, ws, tip));
  }

  // ----- what the watermark does not promise -----

  function RunFrom<S>(f: Applier<S>, ws: string, blank: S, w: World<S>, actions: seq<Action>): World<S> {
    if actions == [] then w
    else Do(f, ws, blank, RunFrom(f, ws, blank, w, actions[..|actions| - 1]), actions[|actions| - 1])
  }

  /** A write that applies anything moves the watermark past every envelope of the workspace. */
  lemma ApplyJumps<S>(f: Applier<S>, ws: string, w: World<S>, batch: seq<Envelope>, r: Row)
    requires Safe(w)
    requires Fresh(SavedIds(w.log, batch), batch) != []
    requires ApplyMany(f, w.store, Fresh(SavedIds(w.log, batch), batch)).Some?
    requires r in IngestAll(w.log, batch).rows && r.env.workspaceId == ws
    ensures r.num <= Applying(f, ws, w, batch).lastSeq
  {
    hide ValidLog, InLog, TailRows, IngestAll, ApplyMany, Fresh, SavedIds, LatestSeqOf;
    var next := IngestAll(w.log, batch);
    IngestValid(w.log, batch);
    ValidAscends(next);
    LatestIsMax(next.rows, ws);
  }

  /** An unapplied envelope at or below the watermark stays stranded while the handle is open. */
  ghost predicate Stranded<S>(w: World<S>, r: Row) {
    w.open && r in w.log.rows && r.num <= w.lastSeq && r.env.id !in w.store.applied
  }

  lemma SameIdSameRow(log: Log, r: Row, q: Row)
    requires ValidLog(log) && r in log.rows && q in log.rows && r.env.id == q.env.id
    ensures r == q
  {
  }

  lemma SweepStrands<S>(f: Applier<S>, ws: string, w: World<S>, r: Row)
    requires Safe(w) && Stranded(w, r)
    ensures Stranded(Sweeping(f, ws, w, w.lastSeq), r)
  {
    hide ValidLog, Replay, Pending;
    var rows, es := TailRows(w.log.rows, ws, w.lastSeq), Tail(w.log, ws, w.lastSeq);
    ReplayBounds(f, w.store, es);
    TailMembers(w.log.rows, ws, w.lastSeq);
    if r.env.id in IdsOf(es) {
      var e :| e in es && e.id == r.env.id;
      var i :| 0 <= i < |es| && es[i] == e;
      assert rows[i] in rows;
      SameIdSameRow(w.log, r, rows[i]);
    }
  }

  lemma ApplyStrands<S>(f: Applier<S>, ws: string, w: World<S>, batch: seq<Envelope>, r: Row)
    requires Safe(w) && Stranded(w, r)
    ensures Stranded(Applying(f, ws, w, batch), r)
  {
    hide ValidLog, InLog, TailRows, IngestAll, ApplyMany, Fresh, LatestSeqOf, HasId;
    var next := IngestAll(w.log, batch);
    var saved := SavedIds(w.log, batch);
    var newly := Fresh(saved, batch);
    IngestExtends(w.log, batch);
    ExtendsKeepsRow(w.log, next, r);
    ApplyManyBounds(f, w.store, newly);
    FreshMembers(saved, batch);
    if r.env.id in saved {
      var added := Added(w.log, batch);
      var e :| e in Envelopes(added) && e.id == r.env.id;
      var i :| 0 <= i < |added| && added[i].env == e;
      AddedFromBatch(w.log, batch, |w.log.rows| + i);
      RowHasId(w.log, r);
    }
  }

  lemma ExtendsKeepsRow(a: Log, b: Log, r: Row)
    requires |a.rows| <= |b.rows| && b.rows[..|a.rows|] == a.rows && r in a.rows
    ensures r in b.rows
  {
    var i :| 0 <= i < |a.rows| && a.rows[i] == r;
    assert b.rows[i] == b.rows[..|a.rows|][i];
  }

  lemma RowHasId(log: Log, r: Row)
    requires r in log.rows
    ensures HasId(log.rows, r.env.id)
  {
  }

  /**
   Whatever appends, writes and sweeps follow, a stranded envelope is never applied by
   the open handle; only the replay of a reopen tries it again.
   */
  lemma {:induction false} StrandedForGood<S>(
      f: Applier<S>, ws: string, blank: S, w: World<S>, r: Row, actions: seq<Action>)
    requires Safe(w) && Stranded(w, r)
    requires forall a :: a in actions ==> a.Append? || a.Apply? || a.Sweep?
    ensures Safe(RunFrom(f, ws, blank, w, actions)) && Stranded(RunFrom(f, ws, blank, w, actions), r)
  {
    hide Safe, Stranded, Sweeping, Applying;
    if actions != [] {
      var init, last := actions[..|actions| - 1], actions[|actions| - 1];
      assert actions == init + [last];
      StrandedForGood(f, ws, blank, w, r, init);
      var v := RunFrom(f, ws, blank, w, init);
      DoSafe(f, ws, blank, v, last);
      StrandedIsOpen(v, r);
      match last {
        case Append(batch) => AppendStrands(v, batch, r);
        case Apply(batch) => ApplyStrands(f, ws, v, batch, r);
        case Sweep => SweepStrands(f, ws, v, r);
      }
    }
  }

  lemma StrandedIsOpen<S>(w: World<S>, r: Row)
    requires Stranded(w, r)
    ensures w.open
  {
  }

  lemma AppendStrands<S>(w: World<S>, batch: seq<Envelope>, r: Row)
    requires Stranded(w, r)
    ensures Stranded(w.(log := IngestAll(w.log, batch)), r)
  {
    IngestExtends(w.log, batch);
    ExtendsKeepsRow(w.log, IngestAll(w.log, batch), r);
  }

  // ----- repeated reopens -----

  function Cycles(n: nat): seq<Action> {
    if n == 0 then [] else Cycles(n - 1) + [Reopen, Crash]
  }

  /** Between reopens: a snapshot, if one was written, adds nothing to a store that is still empty. */
  ghost predicate Resting<S>(f: Applier<S>, ws: string, blank: S, log: Log, w: World<S>) {
    && !w.open && w.log == log
    && (w.store.applied == {} ==> w.store == Store(blank, {}))
    && (w.snap.Some? ==>
          && w.snap.value.upToSeq == LatestSeqOf(log.rows, ws)
          && (w.store.applied == {} ==> w.snap.value.image == w.store && Settled(f, w.store, Tail(log, ws, 0))))
  }

  lemma CycleIsPass<S>(f: Applier<S>, ws: string, blank: S, log: Log, w: World<S>)
    requires ValidLog(log) && Resting(f, ws, blank, log, w)
    ensures var v := Do(f, ws, blank, Do(f, ws, blank, w, Reopen), Crash);
            Resting(f, ws, blank, log, v) && v.store == Replay(f, w.store, Tail(log, ws, 0))
  {
    hide ValidLog, TailRows, Pending, Replay;
    var es := Tail(log, ws, 0);
    var (start, afterSeq) := HydrationStart(w);
    ValidAscends(log);
    if Restores(w) {
      LatestIsMax(log.rows, ws);
      TailMembers(log.rows, ws, afterSeq);
      NoMembers(TailRows(log.rows, ws, afterSeq));
      assert Tail(log, ws, afterSeq) == [];
      EmptyReplay(f, start);
    }
    ReplayBounds(f, w.store, es);
    if Replay(f, w.store, es).applied == {} {
      IdleIsSettled(f, w.store, es);
    }
  }

  lemma EmptyReplay<S>(f: Applier<S>, st: Store<S>)
    ensures Replay(f, st, []) == st
  {
  }

  /** Reopening n times over an unchanging log is n replay passes over it, snapshots notwithstanding. */
  lemma {:induction false} ReopensArePasses<S>(f: Applier<S>, ws: string, blank: S, log: Log, n: nat)
    requires ValidLog(log)
    ensures var w: World<S> := World(log, None, Store(blank, {}), false, 0, 0);
            var v := RunFrom(f, ws, blank, w, Cycles(n));
            Resting(f, ws, blank, log, v) && v.store == Passes(f, Store(blank, {}), Tail(log, ws, 0), n)
  {
    hide Do, ValidLog, Replay;
    if n > 0 {
      var w: World<S> := World(log, None, Store(blank, {}), false, 0, 0);
      var run := Cycles(n);
      ReopensArePasses(f, ws, blank, log, n - 1);
      assert run[..|run| - 1] == Cycles(n - 1) + [Reopen];
      assert (Cycles(n - 1) + [Reopen])[..|run| - 2] == Cycles(n - 1);
      CycleIsPass(f, ws, blank, log, RunFrom(f, ws, blank, w, Cycles(n - 1)));
    }
  }
}
