/**
 What one sweep, one reopen and one write do, told envelope by envelope: which the store is
 asked to apply, what it makes of them, and what is left in the handle afterwards.
 */
module WorkspaceEffects {
  import opened DerivedStore
  import opened RelayLog
  import opened RelayStorage
  import opened Text
  import opened WorkspaceRebuild
  import opened WorkspaceRuns
  import opened Wrappers

  // ----- rows and pages -----

  /** The workspace's rows after a sequence number, by their numbers. */
  ghost predicate RowsAfter(log: Log, ws: string, afterSeq: nat, rows: seq<Row>) {
    && (forall i, j :: 0 <= i < j < |rows| ==> rows[i].num < rows[j].num)
    && (forall r :: r in rows <==> r in log.rows && r.env.workspaceId == ws && r.num > afterSeq)
  }

  lemma TailIsRowsAfter(log: Log, ws: string, afterSeq: nat)
    requires ValidLog(log)
    ensures RowsAfter(log, ws, afterSeq, TailRows(log.rows, ws, afterSeq))
  {
    hide ValidLog, TailRows;
    ValidAscends(log);
    TailAscends(log.rows, ws, afterSeq);
    TailMembers(log.rows, ws, afterSeq);
  }

  lemma {:induction false} DistinctSize(rows: seq<Row>)
    requires forall i, j :: 0 <= i < j < |rows| ==> rows[i].num < rows[j].num
    ensures |(set r | r in rows)| == |rows|
  {
    if rows == [] {
      assert (set r | r in rows) == {};
    } else {
      var init, last := rows[..|rows| - 1], rows[|rows| - 1];
      DistinctSize(init);
      assert rows == init + [last];
      assert (set r | r in rows) == (set r | r in init) + {last};
      assert last !in init;
    }
  }

  /** There is one such list, as long as there are such rows. */
  lemma RowsAfterCount(log: Log, ws: string, afterSeq: nat, rows: seq<Row>)
    requires RowsAfter(log, ws, afterSeq, rows)
    ensures |rows| == |(set r | r in log.rows && r.env.workspaceId == ws && r.num > afterSeq)|
  {
    DistinctSize(rows);
    assert (set r | r in rows) == (set r | r in log.rows && r.env.workspaceId == ws && r.num > afterSeq);
  }

  /**
   A page: the first rows after the cursor up to the limit, the number of the last one, how many
   rows there are after the cursor, and whether the page left some of them out.
   */
  lemma PageMeans(log: Log, ws: string, afterSeq: nat, limit: nat) returns (rows: seq<Row>)
    requires ValidLog(log)
    ensures RowsAfter(log, ws, afterSeq, rows)
    ensures var page := CatchUpPage(log, ws, afterSeq, limit);
            var n := if |rows| <= limit then |rows| else limit;
            && |page.envelopes| == n && (forall i :: 0 <= i < n ==> page.envelopes[i] == rows[i].env)
            && page.nextAfterSeq == (if n == 0 then None else Some(rows[n - 1].num))
            && page.totalRemaining == |(set r | r in log.rows && r.env.workspaceId == ws && r.num > afterSeq)|
            && (page.hasMore <==> limit < page.totalRemaining)
  {
    hide ValidLog, TailRows;
    rows := TailRows(log.rows, ws, afterSeq);
    TailIsRowsAfter(log, ws, afterSeq);
    RowsAfterCount(log, ws, afterSeq, rows);
  }

  /** The snapshot served: of the workspace's, one that covers most, and of those the greatest id. */
  lemma ServedIsNewest(snapshots: seq<SnapshotRow>, ws: string)
    ensures match Latest(snapshots, ws)
            case None => forall s :: s in snapshots ==> s.workspaceId != ws
            case Some(best) =>
              && best in snapshots && best.workspaceId == ws
              && forall s :: s in snapshots && s.workspaceId == ws ==>
                   s.upToSeq < best.upToSeq || (s.upToSeq == best.upToSeq && !StringLess(best.id, s.id))
  {
    hide StringLess, Latest;
    LatestIsGreatest(snapshots, ws);
  }

  // ----- passes, envelope by envelope -----

  predicate PassedOver<S>(st: Store<S>, e: Envelope) {
    e.id in st.applied || e.sealed
  }

  predicate Refuses<S>(f: Applier<S>, st: Store<S>, e: Envelope) {
    !PassedOver(st, e) && f(st, e).None?
  }

  /** The store after an envelope that it knows, cannot read, rejects, or applies. */
  predicate Follows<S(==)>(f: Applier<S>, st: Store<S>, e: Envelope, next: Store<S>) {
    if PassedOver(st, e) || f(st, e).None? then next == st
    else next == Store(f(st, e).value, st.applied + {e.id})
  }

  /** The stores between the envelopes of a pass, one after the other. */
  ghost predicate Trace<S>(f: Applier<S>, es: seq<Envelope>, stores: seq<Store<S>>) {
    && |stores| == |es| + 1
    && forall i :: 0 <= i < |es| ==> Follows(f, stores[i], es[i], stores[i + 1])
  }

  /** The turns at which the store rejects. */
  ghost function Rejections<S>(f: Applier<S>, es: seq<Envelope>, stores: seq<Store<S>>): set<nat>
    requires |stores| == |es| + 1
  {
    set i: nat | i < |es| && Refuses(f, stores[i], es[i])
  }

  lemma TurnFollows<S>(f: Applier<S>, st: Store<S>, es: seq<Envelope>)
    requires es != []
    ensures var n := |es| - 1;
            var before := Replay(f, st, es[..n]);
            && Follows(f, before, es[n], Replay(f, st, es))
            && Pending(f, st, es) == Pending(f, st, es[..n]) + if Refuses(f, before, es[n]) then 1 else 0
  {
  }

  lemma TraceGrows<S>(f: Applier<S>, es: seq<Envelope>, stores: seq<Store<S>>, e: Envelope, next: Store<S>)
    requires Trace(f, es, stores) && Follows(f, stores[|es|], e, next)
    ensures Trace(f, es + [e], stores + [next])
    ensures Rejections(f, es + [e], stores + [next]) ==
            Rejections(f, es, stores) + if Refuses(f, stores[|es|], e) then {|es|} else {}
  {
    hide Follows, Refuses;
    var all := stores + [next];
    assert forall i :: 0 <= i <= |es| ==> all[i] == stores[i];
  }

  lemma {:induction false} PassTraced<S>(f: Applier<S>, st: Store<S>, es: seq<Envelope>) returns (stores: seq<Store<S>>)
    ensures Trace(f, es, stores) && stores[0] == st && stores[|es|] == Replay(f, st, es)
    ensures |Rejections(f, es, stores)| == Pending(f, st, es)
  {
    hide Follows, Refuses, Replay, Pending;
    if es == [] {
      stores := [st];
      EmptyPass(f, st);
      assert Rejections(f, es, stores) == {};
    } else {
      var n := |es| - 1;
      var before := PassTraced(f, st, es[..n]);
      TurnFollows(f, st, es);
      TraceGrows(f, es[..n], before, es[n], Replay(f, st, es));
      assert es[..n] + [es[n]] == es;
      stores := before + [Replay(f, st, es)];
    }
  }

  lemma EmptyPass<S>(f: Applier<S>, st: Store<S>)
    ensures Replay(f, st, []) == st && Pending(f, st, []) == 0
  {
  }

  // ----- a sweep -----

  /** The watermark: past every row of the workspace, and no further than the last of them or where it was. */
  ghost predicate Watermark(log: Log, ws: string, was: nat, mark: nat) {
    && mark >= was && (forall r :: r in log.rows && r.env.workspaceId == ws ==> r.num <= mark)
    && (mark == was || exists r :: r in log.rows && r.env.workspaceId == ws && r.num == mark)
  }

  lemma WatermarkIs(log: Log, ws: string, was: nat)
    requires ValidLog(log)
    ensures Watermark(log, ws, was, Max(was, LatestSeqOf(log.rows, ws)))
  {
    hide ValidLog, LatestSeqOf;
    ValidAscends(log);
    LatestIsMax(log.rows, ws);
  }

  /**
   A sweep of an open handle: the workspace's rows above the watermark, each in its turn; the
   pending count is the number the store rejected; log and snapshot stay.
   */
  lemma SweepEffect<S>(f: Applier<S>, ws: string, blank: S, w: World<S>) returns (rows: seq<Row>, stores: seq<Store<S>>)
    requires ValidLog(w.log) && w.open
    ensures RowsAfter(w.log, ws, w.lastSeq, rows) && Trace(f, Envelopes(rows), stores) && stores[0] == w.store
    ensures var v := Do(f, ws, blank, w, Sweep);
            && v.store == stores[|rows|] && v.pending == |Rejections(f, Envelopes(rows), stores)|
            && Watermark(w.log, ws, w.lastSeq, v.lastSeq)
            && v.log == w.log && v.snap == w.snap && v.open
  {
    hide ValidLog, TailRows, LatestSeqOf, Replay, Pending, Trace, Watermark, RowsAfter;
    rows := TailRows(w.log.rows, ws, w.lastSeq);
    TailIsRowsAfter(w.log, ws, w.lastSeq);
    WatermarkIs(w.log, ws, w.lastSeq);
    stores := PassTraced(f, w.store, Envelopes(rows));
  }

  // ----- a reopen -----

  /**
   A reopen: from the snapshot, when the store has applied nothing and there is one, and else from
   the file and the whole log. A workspace of a thousand rows or more without a snapshot gets one.
   */
  lemma ReopenEffect<S>(f: Applier<S>, ws: string, blank: S, w: World<S>)
      returns (rows: seq<Row>, stores: seq<Store<S>>)
    requires ValidLog(w.log) && !w.open
    ensures Trace(f, Envelopes(rows), stores)
    ensures if w.store.applied == {} && w.snap.Some?
            then stores[0] == w.snap.value.image && RowsAfter(w.log, ws, w.snap.value.upToSeq, rows)
            else stores[0] == w.store && RowsAfter(w.log, ws, 0, rows)
    ensures var v := Do(f, ws, blank, w, Reopen);
            && v.open && v.log == w.log
            && v.store == stores[|rows|] && v.pending == |Rejections(f, Envelopes(rows), stores)|
            && Watermark(w.log, ws, 0, v.lastSeq)
            && v.snap == if w.snap.None? && |(set r | r in w.log.rows && r.env.workspaceId == ws && r.num > 0)| >= 1000
                         then Some(Snap(v.store, v.lastSeq)) else w.snap
  {
    hide ValidLog, TailRows, LatestSeqOf, Replay, Pending, Trace, Watermark, RowsAfter;
    var (start, afterSeq) := HydrationStart(w);
    rows := TailRows(w.log.rows, ws, afterSeq);
    TailIsRowsAfter(w.log, ws, afterSeq);
    TailIsRowsAfter(w.log, ws, 0);
    RowsAfterCount(w.log, ws, 0, TailRows(w.log.rows, ws, 0));
    WatermarkIs(w.log, ws, 0);
    stores := PassTraced(f, start, Envelopes(rows));
  }

  // ----- a write -----

  /** The turns of a batch that reach the store: plaintext, under an id the log did not have. */
  ghost predicate Reach(log: Log, batch: seq<Envelope>, turns: seq<nat>) {
    && (forall i, j :: 0 <= i < j < |turns| ==> turns[i] < turns[j])
    && (forall t: nat :: t in turns <==> t < |batch| && !HasId(log.rows, batch[t].id) && !batch[t].sealed)
  }

  ghost predicate Handed(batch: seq<Envelope>, turns: seq<nat>, es: seq<Envelope>) {
    |es| == |turns| && forall i :: 0 <= i < |es| ==> turns[i] < |batch| && es[i] == batch[turns[i]]
  }

  lemma SavedAreNew(log: Log, batch: seq<Envelope>, e: Envelope)
    requires e in batch
    ensures e.id in SavedIds(log, batch) <==> !HasId(log.rows, e.id)
  {
    hide HasId, SavedIds;
    if !HasId(log.rows, e.id) { NewIdIsSaved(log, batch, e); }
    if e.id in SavedIds(log, batch) { SavedIsNew(log, batch, e.id); }
  }

  /** One envelope more reaches the store or does not. */
  lemma ReachGrows(log: Log, batch: seq<Envelope>, turns: seq<nat>, e: Envelope)
    requires Reach(log, batch, turns)
    ensures Reach(log, batch + [e], if !HasId(log.rows, e.id) && !e.sealed then turns + [|batch|] else turns)
  {
    hide HasId;
    var next := if !HasId(log.rows, e.id) && !e.sealed then turns + [|batch|] else turns;
    var all := batch + [e];
    forall i | 0 <= i < |turns| ensures turns[i] < |batch| { assert turns[i] in turns; }
    forall t: nat ensures t in next <==> t < |all| && !HasId(log.rows, all[t].id) && !all[t].sealed {
      if t < |batch| { assert all[t] == batch[t]; }
    }
  }

  lemma HandedGrows(batch: seq<Envelope>, turns: seq<nat>, es: seq<Envelope>, e: Envelope)
    requires Handed(batch, turns, es)
    ensures Handed(batch + [e], turns, es) && Handed(batch + [e], turns + [|batch|], es + [e])
  {
  }

  lemma {:induction false} FreshTurns(log: Log, saved: set<string>, batch: seq<Envelope>) returns (turns: seq<nat>)
    requires forall e :: e in batch ==> (e.id in saved <==> !HasId(log.rows, e.id))
    ensures Reach(log, batch, turns) && Handed(batch, turns, Fresh(saved, batch))
  {
    hide HasId, Reach, Handed;
    if batch == [] {
      turns := [];
      NothingReaches(log);
    } else {
      var init, last := batch[..|batch| - 1], batch[|batch| - 1];
      assert last in batch && batch == init + [last];
      turns := FreshTurns(log, saved, init);
      ReachGrows(log, init, turns, last);
      HandedGrows(init, turns, Fresh(saved, init), last);
      if last.id in saved && !last.sealed { turns := turns + [|init|]; }
    }
  }

  lemma NothingReaches(log: Log)
    ensures Reach(log, [], []) && Handed([], [], [])
  {
  }

  /** A batch goes through exactly when the pass over it rejects nothing, and then does what the pass does. */
  lemma {:induction false} BatchIsPass<S>(f: Applier<S>, st: Store<S>, es: seq<Envelope>)
    requires forall e :: e in es ==> !e.sealed
    ensures ApplyMany(f, st, es) == if Pending(f, st, es) == 0 then Some(Replay(f, st, es)) else None
  {
    if es != [] {
      var init, last := es[..|es| - 1], es[|es| - 1];
      assert last in es && forall e :: e in init ==> e in es;
      BatchIsPass(f, st, init);
    }
  }

  /**
   A write of an open handle: the batch is in the log whatever comes of it. The store takes all the
   new plaintext envelopes, one after the other, and the watermark moves; or, if it would reject
   one of them at its turn, it takes none and the watermark stays.
   */
  lemma WriteEffect<S>(f: Applier<S>, ws: string, blank: S, w: World<S>, batch: seq<Envelope>)
      returns (turns: seq<nat>, es: seq<Envelope>, stores: seq<Store<S>>)
    requires ValidLog(w.log) && w.open
    ensures Reach(w.log, batch, turns) && Handed(batch, turns, es)
    ensures Trace(f, es, stores) && stores[0] == w.store
    ensures var v := Do(f, ws, blank, w, Apply(batch));
            && v.log == IngestAll(w.log, batch) && v.snap == w.snap && v.open && v.pending == w.pending
            && if es == [] || Rejections(f, es, stores) != {} then v.store == w.store && v.lastSeq == w.lastSeq
               else v.store == stores[|es|] && Watermark(v.log, ws, w.lastSeq, v.lastSeq)
  {
    hide ValidLog, LatestSeqOf, Replay, Pending, ApplyMany, Trace, Watermark, Reach, Handed, HasId, IngestAll, Fresh,
         SavedIds;
    var saved := SavedIds(w.log, batch);
    forall e | e in batch ensures e.id in saved <==> !HasId(w.log.rows, e.id) { SavedAreNew(w.log, batch, e); }
    turns := FreshTurns(w.log, saved, batch);
    es := Fresh(saved, batch);
    FreshMembers(saved, batch);
    IngestValid(w.log, batch);
    WatermarkIs(IngestAll(w.log, batch), ws, w.lastSeq);
    BatchIsPass(f, w.store, es);
    stores := PassTraced(f, w.store, es);
    TraceLength(f, es, stores);
    if |Rejections(f, es, stores)| == 0 { assert Rejections(f, es, stores) == {}; }
  }

  lemma TraceLength<S>(f: Applier<S>, es: seq<Envelope>, stores: seq<Store<S>>)
    requires Trace(f, es, stores)
    ensures |stores| == |es| + 1
  {
  }
}
