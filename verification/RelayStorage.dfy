/**
 The relay database as the object its callers hold: the envelope table, the snapshot
 rows and the snapshot files.
 */
module RelayStorage {
  import opened RelayLog
  import opened Text
  import opened Wrappers

  datatype SnapshotRow = SnapshotRow(id: string, workspaceId: string, upToSeq: nat)

  predicate HasSnapshot(snapshots: seq<SnapshotRow>, id: string) {
    exists i :: 0 <= i < |snapshots| && snapshots[i].id == id
  }

  /** ORDER BY up_to_seq, id: the row served is the greatest. */
  predicate Precedes(a: SnapshotRow, b: SnapshotRow) {
    a.upToSeq < b.upToSeq || (a.upToSeq == b.upToSeq && StringLess(a.id, b.id))
  }

  function Latest(snapshots: seq<SnapshotRow>, ws: string): Option<SnapshotRow> {
    if snapshots == [] then None
    else
      var best, last := Latest(snapshots[..|snapshots| - 1], ws), snapshots[|snapshots| - 1];
      if last.workspaceId != ws || (best.Some? && !Precedes(best.value, last)) then best else Some(last)
  }

  /** The rows a save leaves of those already there: everything of the other workspaces. */
  function OtherWorkspaces(snapshots: seq<SnapshotRow>, ws: string): seq<SnapshotRow> {
    if snapshots == [] then []
    else
      var init, last := OtherWorkspaces(snapshots[..|snapshots| - 1], ws), snapshots[|snapshots| - 1];
      if last.workspaceId == ws then init else init + [last]
  }

  lemma PrecedesTransitive(a: SnapshotRow, b: SnapshotRow, c: SnapshotRow)
    requires Precedes(a, b) && Precedes(b, c)
    ensures Precedes(a, c)
  {
    if StringLess(a.id, b.id) && StringLess(b.id, c.id) { StringOrderTransitive(a.id, b.id, c.id); }
  }

  /** The row served belongs to the workspace and no row of the workspace comes after it. */
  lemma {:induction false} LatestIsGreatest(snapshots: seq<SnapshotRow>, ws: string)
    ensures match Latest(snapshots, ws)
            case None => forall s :: s in snapshots ==> s.workspaceId != ws
            case Some(best) => best in snapshots && best.workspaceId == ws &&
                               forall s :: s in snapshots && s.workspaceId == ws ==> !Precedes(best, s)
  {
    hide StringLess, Precedes;
    if snapshots != [] {
      var init, last := snapshots[..|snapshots| - 1], snapshots[|snapshots| - 1];
      assert snapshots == init + [last];
      LatestIsGreatest(init, ws);
      var best := Latest(init, ws);
      PrecedesIrreflexive(last);
      if best.Some? && Precedes(best.value, last) {
        forall s | s in init && s.workspaceId == ws ensures !Precedes(last, s) {
          if Precedes(last, s) { PrecedesTransitive(best.value, last, s); }
        }
      }
    }
  }

  lemma PrecedesIrreflexive(s: SnapshotRow)
    ensures !Precedes(s, s)
  {
    StringOrderTotal(s.id, s.id);
  }

  /** After a save the saved row is the only one of its workspace, so it is the one served. */
  lemma SavedIsServed(snapshots: seq<SnapshotRow>, row: SnapshotRow)
    ensures var kept := OtherWorkspaces(snapshots, row.workspaceId) + [row];
            Latest(kept, row.workspaceId) == Some(row)
    ensures forall ws :: ws != row.workspaceId ==>
              Latest(OtherWorkspaces(snapshots, row.workspaceId) + [row], ws) == Latest(snapshots, ws)
  {
    var others := OtherWorkspaces(snapshots, row.workspaceId);
    assert (others + [row])[..|others + [row]| - 1] == others;
    OthersUntouched(snapshots, row.workspaceId);
  }

  lemma {:induction false} OthersUntouched(snapshots: seq<SnapshotRow>, ws: string)
    ensures Latest(OtherWorkspaces(snapshots, ws), ws) == None
    ensures forall other :: other != ws ==> Latest(OtherWorkspaces(snapshots, ws), other) == Latest(snapshots, other)
  {
    hide Precedes;
    if snapshots != [] {
      var init, last := snapshots[..|snapshots| - 1], snapshots[|snapshots| - 1];
      OthersUntouched(init, ws);
      var kept := OtherWorkspaces(init, ws);
      assert (kept + [last])[..|kept + [last]| - 1] == kept;
    }
  }

  ghost predicate DistinctIds(snapshots: seq<SnapshotRow>) {
    forall i, j :: 0 <= i < j < |snapshots| ==> snapshots[i].id != snapshots[j].id
  }

  lemma {:induction false} OthersMembers(snapshots: seq<SnapshotRow>, ws: string)
    ensures forall s :: s in OtherWorkspaces(snapshots, ws) <==> s in snapshots && s.workspaceId != ws
    ensures DistinctIds(snapshots) ==> DistinctIds(OtherWorkspaces(snapshots, ws))
  {
    if snapshots != [] {
      var init := snapshots[..|snapshots| - 1];
      OthersMembers(init, ws);
      assert snapshots == init + [snapshots[|snapshots| - 1]];
      assert forall s :: s in init ==> exists i :: 0 <= i < |init| && snapshots[i] == s;
    }
  }

  class Storage<B> {
    var log: Log
    var snapshots: seq<SnapshotRow>
    var files: map<string, B>

    ghost predicate Valid()
      reads this
    {
      && ValidLog(log)
      && (forall i :: 0 <= i < |snapshots| ==> snapshots[i].id in files)
      && DistinctIds(snapshots)
    }

    constructor ()
      ensures Valid() && log == EMPTY_LOG && snapshots == [] && files == map[]
    {
      log, snapshots, files := EMPTY_LOG, [], map[];
    }

    /** Saves the envelopes whose ids are new; reports exactly those, each with the seq its row got. */
    method Ingest(envelopes: seq<Envelope>) returns (savedIds: seq<string>, seqs: map<string, nat>)
      requires Valid()
      modifies this`log
      ensures Valid() && log == IngestAll(old(log), envelopes)
      ensures |savedIds| == |log.rows| - |old(log).rows|
      ensures forall i :: 0 <= i < |savedIds| ==> savedIds[i] == log.rows[|old(log).rows| + i].env.id
      ensures forall id :: id in seqs <==> id in savedIds
      ensures forall i :: 0 <= i < |savedIds| ==> seqs[savedIds[i]] == log.rows[|old(log).rows| + i].num
    {
      savedIds, seqs := [], map[];
      assert envelopes[..0] == [];
      for n := 0 to |envelopes|
        invariant log == IngestAll(old(log), envelopes[..n])
        invariant |old(log).rows| + |savedIds| == |log.rows|
        invariant forall i :: 0 <= i < |savedIds| ==> savedIds[i] == log.rows[|old(log).rows| + i].env.id
        invariant forall id :: id in seqs <==> id in savedIds
        invariant forall i :: 0 <= i < |savedIds| ==> seqs[savedIds[i]] == log.rows[|old(log).rows| + i].num
      {
        var env := envelopes[n];
        assert envelopes[..n + 1][..n] == envelopes[..n];
        if !HasId(log.rows, env.id) {
          log := Insert(log, env);
          savedIds := savedIds + [env.id];
          seqs := seqs[env.id := log.lastSeq];
        }
      }
      assert envelopes[..|envelopes|] == envelopes;
      IngestValid(old(log), envelopes);
    }

    function CatchUp(ws: string, afterSeq: nat, limit: nat): Page
      reads this
    {
      CatchUpPage(log, ws, afterSeq, limit)
    }

    function LatestSeq(ws: string): nat
      reads this
    {
      LatestSeqOf(log.rows, ws)
    }

    function EnvelopeCount(ws: string): nat
      reads this
    {
      |TailRows(log.rows, ws, 0)|
    }

    function LatestSnapshot(ws: string): Option<SnapshotRow>
      reads this
    {
      Latest(snapshots, ws)
    }

    function ReadSnapshotData(id: string): Option<B>
      reads this
    {
      if id in files then Some(files[id]) else None
    }

    /** Saves a snapshot and drops every older one of the workspace, rows and files together. */
    method SaveSnapshot(ws: string, id: string, upToSeq: nat, bytes: B)
      requires Valid() && !HasSnapshot(snapshots, id)
      modifies this`snapshots, this`files
      ensures Valid()
      ensures snapshots == OtherWorkspaces(old(snapshots), ws) + [SnapshotRow(id, ws, upToSeq)]
      ensures forall k :: k in files <==>
                k == id || (k in old(files) &&
                            forall s :: s in old(snapshots) && s.workspaceId == ws ==> s.id != k)
      ensures id in files && files[id] == bytes
      ensures forall k :: k in files && k != id ==> k in old(files) && files[k] == old(files)[k]
      ensures LatestSnapshot(ws) == Some(SnapshotRow(id, ws, upToSeq)) && ReadSnapshotData(id) == Some(bytes)
    {
      hide Latest, Precedes, ValidLog, OtherWorkspaces;
      var row, prior := SnapshotRow(id, ws, upToSeq), snapshots;
      OthersMembers(prior, ws);
      SavedIsServed(prior, row);
      files := files[id := bytes];
      snapshots := OtherWorkspaces(prior, ws) + [row];
      for n := 0 to |prior|
        invariant id in files && files[id] == bytes
        invariant forall k :: k in files <==>
                    k == id ||
                    (k in old(files) && forall m :: 0 <= m < n && prior[m].workspaceId == ws ==> prior[m].id != k)
        invariant forall k :: k in files && k != id ==> files[k] == old(files)[k]
        invariant snapshots == OtherWorkspaces(prior, ws) + [row] && log == old(log)
      {
        if prior[n].workspaceId == ws {
          files := files - {prior[n].id};
        }
      }
    }
  }
}
