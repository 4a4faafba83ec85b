/**
 The per-workspace manager: paged replay, hydration, the write path and the sweep, each
 proved to take the step of the workspace state machine.
 */
module WorkspaceManager {
  import opened DerivedStore
  import opened RelayLog
  import opened RelayStorage
  import opened WorkspaceRuns
  import opened Wrappers

  const PAGE_LIMIT: nat := 10_000

  datatype StoreError = BatchRejected

  class WorkspaceHandle<S> {
    var store: Store<S>
    var hydrated: bool
    var pending: nat
    var lastSeq: nat

    /** A handle over the derived file's current content. */
    constructor (file: Store<S>)
      ensures store == file && !hydrated && pending == 0 && lastSeq == 0
    {
      store, hydrated, pending, lastSeq := file, false, 0, 0;
    }
  }

  class Manager<S(!new)> {
    const relay: Storage<Store<S>>
    const apply: Applier<S>

    constructor (relay: Storage<Store<S>>, apply: Applier<S>)
      ensures this.relay == relay && this.apply == apply
    {
      this.relay, this.apply := relay, apply;
    }

    /** The snapshot served for a workspace, with its bytes. */
    function SnapOf(ws: string): Option<Snap<S>>
      reads relay
    {
      match relay.LatestSnapshot(ws)
      case None => None
      case Some(row) =>
        match relay.ReadSnapshotData(row.id)
        case None => None
        case Some(bytes) => Some(Snap(bytes, row.upToSeq))
    }

    ghost function WorldOf(handle: WorkspaceHandle<S>, ws: string): World<S>
      reads relay, handle
    {
      World(relay.log, SnapOf(ws), handle.store, handle.hydrated, handle.lastSeq, handle.pending)
    }

    /** One page of a replay: skip what is applied or sealed, count what the store rejects. */
    method ApplyPage(handle: WorkspaceHandle<S>, envelopes: seq<Envelope>) returns (rejected: nat)
      modifies handle`store
      ensures handle.store == Replay(apply, old(handle.store), envelopes)
      ensures rejected == Pending(apply, old(handle.store), envelopes)
    {
      rejected := 0;
      ghost var start := handle.store;
      assert envelopes[..0] == [];
      for i := 0 to |envelopes|
        invariant handle.store == Replay(apply, start, envelopes[..i])
        invariant rejected == Pending(apply, start, envelopes[..i])
      {
        var envelope := envelopes[i];
        assert envelopes[..i + 1][..i] == envelopes[..i];
        if Tried(handle.store, envelope) {
          match apply(handle.store, envelope) {
            case None => rejected := rejected + 1;
            case Some(s) => handle.store := Recorded(s, handle.store, envelope);
          }
        }
      }
      assert envelopes[..|envelopes|] == envelopes;
    }

    /** Pages through the log after afterSeq, trying every envelope the store has not applied. */
    method ReplaySince(handle: WorkspaceHandle<S>, ws: string, afterSeq: nat)
      requires relay.Valid()
      modifies handle
      ensures WorldOf(handle, ws) == Sweeping(apply, ws, old(WorldOf(handle, ws)), afterSeq)
    {
      hide ValidLog, TailRows, LatestSeqOf, IngestAll, SnapOf, Replay, Pending, CatchUpPage, Tail;
      var cursor, pending := afterSeq, 0;
      ghost var start, whole := handle.store, Tail(relay.log, ws, afterSeq);
      ValidAscends(relay.log);
      while true
        invariant Replay(apply, handle.store, Tail(relay.log, ws, cursor)) == Replay(apply, start, whole)
        invariant pending + Pending(apply, handle.store, Tail(relay.log, ws, cursor)) == Pending(apply, start, whole)
        invariant handle.hydrated == old(handle.hydrated) && handle.lastSeq == old(handle.lastSeq)
        decreases |Tail(relay.log, ws, cursor)|
      {
        var page := relay.CatchUp(ws, cursor, PAGE_LIMIT);
        PageReplay(apply, handle.store, relay.log, ws, cursor);
        var rejected := ApplyPage(handle, page.envelopes);
        pending := pending + rejected;
        if !page.hasMore || page.nextAfterSeq.None? { break; }
        cursor := page.nextAfterSeq.value;
      }
      handle.lastSeq := Max(handle.lastSeq, relay.LatestSeq(ws));
      handle.pending := pending;
    }

    /**
     A page is the front of the tail: its cursor leaves a shorter tail whose replay finishes
     the whole, and without more pages the page is the tail.
     */
    lemma PageReplay(f: Applier<S>, st: Store<S>, log: Log, ws: string, cursor: nat)
      requires AscendingRows(log.rows)
      ensures var page, tail := CatchUpPage(log, ws, cursor, PAGE_LIMIT), Tail(log, ws, cursor);
              if page.hasMore && page.nextAfterSeq.Some? then
                var rest, mid := Tail(log, ws, page.nextAfterSeq.value), Replay(f, st, page.envelopes);
                && |rest| < |tail|
                && Replay(f, st, tail) == Replay(f, mid, rest)
                && Pending(f, st, tail) == Pending(f, st, page.envelopes) + Pending(f, mid, rest)
              else page.envelopes == tail
    {
      hide TailRows, Replay, Pending;
      var rows := TailRows(log.rows, ws, cursor);
      var front := Prefix(rows, PAGE_LIMIT);
      if front != [] {
        TailAfter(log.rows, ws, cursor, |front|);
        var rest := rows[|front|..];
        EnvelopesConcat(front, rest);
        assert rows == front + rest;
        ReplayConcat(f, st, Envelopes(front), Envelopes(rest));
        PendingConcat(f, st, Envelopes(front), Envelopes(rest));
      }
    }

    /** Opens a handle: restore the snapshot into an empty store, replay, and write a first snapshot of a long log. */
    method Hydrate(handle: WorkspaceHandle<S>, ws: string, snapshotId: string)
      requires relay.Valid() && !HasSnapshot(relay.snapshots, snapshotId)
      requires !handle.hydrated && handle.lastSeq == 0 && handle.pending == 0
      modifies handle, relay
      ensures relay.Valid() && relay.log == old(relay.log)
      ensures WorldOf(handle, ws) == Hydrated(apply, ws, old(WorldOf(handle, ws)))
    {
      hide ValidLog, Sweeping;
      ghost var w := WorldOf(handle, ws);
      var afterSeq := 0;
      var snapshot := relay.LatestSnapshot(ws);
      SnapshotBacked(ws);
      if handle.store.applied == {} && snapshot.Some? {
        var bytes := relay.ReadSnapshotData(snapshot.value.id);
        if bytes.Some? {
          handle.store := bytes.value;
          afterSeq := snapshot.value.upToSeq;
        }
      }
      ghost var v := WorldOf(handle, ws);
      ReplaySince(handle, ws, afterSeq);
      handle.hydrated := true;
      SweepingOpens(apply, ws, v, afterSeq);
      EnsureSnapshotAfterReplay(handle, ws, snapshotId);
    }

    lemma SnapshotBacked(ws: string)
      requires relay.Valid()
      ensures relay.LatestSnapshot(ws).Some? ==>
                relay.ReadSnapshotData(relay.LatestSnapshot(ws).value.id).Some?
      ensures relay.LatestSnapshot(ws).None? <==> SnapOf(ws).None?
    {
      LatestIsGreatest(relay.snapshots, ws);
    }

    /** Writes the first snapshot of a workspace whose log is long and has none. */
    method EnsureSnapshotAfterReplay(handle: WorkspaceHandle<S>, ws: string, snapshotId: string)
      requires relay.Valid() && !HasSnapshot(relay.snapshots, snapshotId)
      modifies relay
      ensures relay.Valid() && relay.log == old(relay.log)
      ensures var w := old(WorldOf(handle, ws));
              WorldOf(handle, ws) ==
              if w.snap.Some? || |TailRows(w.log.rows, ws, 0)| < SNAPSHOT_REBUILD_MIN_ENVELOPES then w
              else w.(snap := Some(Snap(w.store, LatestSeqOf(w.log.rows, ws))))
    {
      hide ValidLog, TailRows, LatestSeqOf;
      SnapshotBacked(ws);
      if relay.LatestSnapshot(ws).Some? { return; }
      if relay.EnvelopeCount(ws) < SNAPSHOT_REBUILD_MIN_ENVELOPES { return; }
      relay.SaveSnapshot(ws, snapshotId, relay.LatestSeq(ws), handle.store);
    }

    /**
     Persists the batch first, then applies what was newly saved; a rejected batch leaves
     store and watermark alone.
     */
    method ApplyNow(handle: WorkspaceHandle<S>, ws: string, envelopes: seq<Envelope>)
      returns (r: Result<seq<string>, StoreError>)
      requires relay.Valid()
      modifies handle, relay
      ensures relay.Valid()
      ensures WorldOf(handle, ws) == Applying(apply, ws, old(WorldOf(handle, ws)), envelopes)
      ensures r.Failure? <==>
              var w := old(WorldOf(handle, ws));
              ApplyMany(apply, w.store, Fresh(SavedIds(w.log, envelopes), envelopes)).None?
      ensures r.Success? ==> forall id :: id in r.value <==> id in SavedIds(old(relay.log), envelopes)
    {
      hide ValidLog, IngestAll, ApplyMany, LatestSeqOf, Fresh, Latest;
      ghost var before := relay.log;
      var savedIds, seqs := relay.Ingest(envelopes);
      SavedAsSet(before, envelopes, savedIds);
      var saved := set id | id in savedIds;
      assert saved == SavedIds(before, envelopes);
      var newly := Fresh(saved, envelopes);
      EmptyBatch(apply, handle.store);
      if newly == [] { return Success(savedIds); }
      match ApplyMany(apply, handle.store, newly) {
        case None => return Failure(BatchRejected);
        case Some(st) =>
          handle.store := st;
          handle.lastSeq := Max(handle.lastSeq, relay.LatestSeq(ws));
          return Success(savedIds);
      }
    }

    lemma EmptyBatch(f: Applier<S>, st: Store<S>)
      ensures ApplyMany(f, st, []) == Some(st)
    {
    }

    lemma SavedAsSet(before: Log, envelopes: seq<Envelope>, savedIds: seq<string>)
      requires |savedIds| == |IngestAll(before, envelopes).rows| - |before.rows|
      requires forall i :: 0 <= i < |savedIds| ==>
                 savedIds[i] == IngestAll(before, envelopes).rows[|before.rows| + i].env.id
      ensures forall id :: id in savedIds <==> id in SavedIds(before, envelopes)
    {
      hide IngestAll;
      var added := Added(before, envelopes);
      forall id ensures id in savedIds <==> id in SavedIds(before, envelopes) {
        if id in savedIds {
          var i :| 0 <= i < |savedIds| && savedIds[i] == id;
          assert Envelopes(added)[i].id == id;
        }
        if id in SavedIds(before, envelopes) {
          var e :| e in Envelopes(added) && e.id == id;
          var i :| 0 <= i < |added| && Envelopes(added)[i] == e;
          assert savedIds[i] == id;
        }
      }
    }

    /** The self-heal sweep: replay from the watermark. */
    method SweepNow(handle: WorkspaceHandle<S>, ws: string) returns (lastSeq: nat, pending: nat)
      requires relay.Valid()
      modifies handle
      ensures WorldOf(handle, ws) == Sweeping(apply, ws, old(WorldOf(handle, ws)), old(handle.lastSeq))
      ensures lastSeq == handle.lastSeq && pending == handle.pending
    {
      ReplaySince(handle, ws, handle.lastSeq);
      lastSeq, pending := handle.lastSeq, handle.pending;
    }
  }

  lemma SweepingOpens<S>(f: Applier<S>, ws: string, w: World<S>, afterSeq: nat)
    ensures Sweeping(f, ws, w.(open := true), afterSeq) == Sweeping(f, ws, w, afterSeq).(open := true)
  {
  }
}
