/**
 The relay's envelope log: idempotent ingest with server-assigned sequence numbers,
 paged catch-up, and the snapshot table with its retention rule.
 */
module RelayLog {
  import opened Wrappers

  /** `sealed` marks an end-to-end-encrypted payload; `body` stands for the remaining columns. */
  datatype Envelope = Envelope(id: string, workspaceId: string, sealed: bool, body: string)

  /** `num` is the server-assigned seq. */
  datatype Row = Row(num: nat, env: Envelope)

  /** The envelope table and its AUTOINCREMENT counter. */
  datatype Log = Log(rows: seq<Row>, lastSeq: nat)

  datatype Page = Page(envelopes: seq<Envelope>, nextAfterSeq: Option<nat>, hasMore: bool, totalRemaining: nat)

  const EMPTY_LOG := Log([], 0)

  predicate HasId(rows: seq<Row>, id: string) {
    exists i :: 0 <= i < |rows| && rows[i].env.id == id
  }

  /** Sequence numbers ascend strictly from 1 and never pass the counter; ids are unique. */
  ghost predicate ValidLog(log: Log) {
    && (forall i :: 0 <= i < |log.rows| ==> 1 <= log.rows[i].num <= log.lastSeq)
    && (forall i, j :: 0 <= i < j < |log.rows| ==> log.rows[i].num < log.rows[j].num)
    && (forall i, j :: 0 <= i < j < |log.rows| ==> log.rows[i].env.id != log.rows[j].env.id)
  }

  /** INSERT OR IGNORE of one envelope. */
  function Insert(log: Log, env: Envelope): Log {
    if HasId(log.rows, env.id) then log
    else Log(log.rows + [Row(log.lastSeq + 1, env)], log.lastSeq + 1)
  }

  function IngestAll(log: Log, batch: seq<Envelope>): Log {
    if batch == [] then log else Insert(IngestAll(log, batch[..|batch| - 1]), batch[|batch| - 1])
  }

  /** The rows the batch added, in order. */
  function Added(log: Log, batch: seq<Envelope>): seq<Row> {
    IngestExtends(log, batch);
    IngestAll(log, batch).rows[|log.rows|..]
  }

  function Envelopes(rows: seq<Row>): seq<Envelope> {
    seq(|rows|, i requires 0 <= i < |rows| => rows[i].env)
  }

  /** Rows of a workspace after a sequence number: WHERE workspace_id = ? AND seq > ? ORDER BY seq. */
  function TailRows(rows: seq<Row>, ws: string, afterSeq: nat): seq<Row> {
    if rows == [] then []
    else
      var init, last := TailRows(rows[..|rows| - 1], ws, afterSeq), rows[|rows| - 1];
      if last.env.workspaceId == ws && last.num > afterSeq then init + [last] else init
  }

  function Prefix<T>(xs: seq<T>, n: nat): seq<T> {
    if |xs| <= n then xs else xs[..n]
  }

  function CatchUpPage(log: Log, ws: string, afterSeq: nat, limit: nat): Page {
    var tail := TailRows(log.rows, ws, afterSeq);
    var rows := Prefix(tail, limit);
    Page(Envelopes(rows), if rows == [] then None else Some(rows[|rows| - 1].num), |tail| > |rows|, |tail|)
  }

  /** MAX(seq) of the workspace, 0 when it has no rows. */
  function LatestSeqOf(rows: seq<Row>, ws: string): nat {
    if rows == [] then 0
    else if rows[|rows| - 1].env.workspaceId == ws then rows[|rows| - 1].num
    else LatestSeqOf(rows[..|rows| - 1], ws)
  }

  // ----- ingest -----

  lemma {:induction false} IngestExtends(log: Log, batch: seq<Envelope>)
    ensures var next := IngestAll(log, batch);
            |log.rows| <= |next.rows| && next.rows[..|log.rows|] == log.rows && log.lastSeq <= next.lastSeq
  {
    if batch != [] {
      IngestExtends(log, batch[..|batch| - 1]);
    }
  }

  lemma {:induction false} IngestValid(log: Log, batch: seq<Envelope>)
    requires ValidLog(log)
    ensures ValidLog(IngestAll(log, batch))
    ensures forall i :: |log.rows| <= i < |IngestAll(log, batch).rows| ==>
              IngestAll(log, batch).rows[i].num > log.lastSeq
  {
    if batch != [] {
      IngestValid(log, batch[..|batch| - 1]);
      IngestExtends(log, batch[..|batch| - 1]);
    }
  }

  /** The ids of the log afterwards are the ids before and the ids of the batch. */
  lemma {:induction false} IngestIds(log: Log, batch: seq<Envelope>, id: string)
    ensures HasId(IngestAll(log, batch).rows, id) <==>
            HasId(log.rows, id) || exists i :: 0 <= i < |batch| && batch[i].id == id
  {
    if batch != [] {
      var init, last := batch[..|batch| - 1], batch[|batch| - 1];
      var mid := IngestAll(log, init);
      IngestIds(log, init, id);
      assert forall i :: 0 <= i < |init| ==> init[i] == batch[i];
      if !HasId(mid.rows, last.id) {
        var rows := mid.rows + [Row(mid.lastSeq + 1, last)];
        if HasId(mid.rows, id) {
          var i :| 0 <= i < |mid.rows| && mid.rows[i].env.id == id;
          assert rows[i].env.id == id;
        }
        if last.id == id { assert rows[|mid.rows|].env.id == id; }
        if HasId(rows, id) {
          var i :| 0 <= i < |rows| && rows[i].env.id == id;
          if i < |mid.rows| { assert mid.rows[i].env.id == id; }
        }
      }
    }
  }

  /** Every row added came from the batch under an id the log did not have; every other envelope was a duplicate. */
  lemma {:induction false} AddedFromBatch(log: Log, batch: seq<Envelope>, k: int)
    requires |log.rows| <= k < |IngestAll(log, batch).rows|
    ensures IngestAll(log, batch).rows[k].env in batch
    ensures !HasId(log.rows, IngestAll(log, batch).rows[k].env.id)
  {
    var init, last := batch[..|batch| - 1], batch[|batch| - 1];
    var mid := IngestAll(log, init);
    assert batch == init + [last];
    if k < |mid.rows| {
      AddedFromBatch(log, init, k);
    } else {
      IngestExtends(log, init);
      assert forall i :: 0 <= i < |log.rows| ==> mid.rows[i] == mid.rows[..|log.rows|][i] == log.rows[i];
    }
  }

  /** A batch whose ids are all present changes nothing. */
  lemma {:induction false} IngestKnown(log: Log, batch: seq<Envelope>)
    requires forall i :: 0 <= i < |batch| ==> HasId(log.rows, batch[i].id)
    ensures IngestAll(log, batch) == log
  {
    if batch != [] {
      var init := batch[..|batch| - 1];
      forall i | 0 <= i < |init| ensures HasId(log.rows, init[i].id) { assert init[i] == batch[i]; }
      IngestKnown(log, init);
    }
  }

  // ----- catch-up -----

  lemma {:induction false} TailConcat(a: seq<Row>, b: seq<Row>, ws: string, afterSeq: nat)
    ensures TailRows(a + b, ws, afterSeq) == TailRows(a, ws, afterSeq) + TailRows(b, ws, afterSeq)
  {
    if b == [] {
      assert a + b == a;
    } else {
      assert (a + b)[..|a + b| - 1] == a + b[..|b| - 1];
      TailConcat(a, b[..|b| - 1], ws, afterSeq);
    }
  }

  lemma {:induction false} TailMembers(rows: seq<Row>, ws: string, afterSeq: nat)
    ensures forall r :: r in TailRows(rows, ws, afterSeq) <==> r in rows && r.env.workspaceId == ws && r.num > afterSeq
    ensures |TailRows(rows, ws, afterSeq)| <= |rows|
  {
    if rows != [] {
      TailMembers(rows[..|rows| - 1], ws, afterSeq);
      assert rows == rows[..|rows| - 1] + [rows[|rows| - 1]];
    }
  }

  ghost predicate AscendingRows(rows: seq<Row>) {
    forall i, j :: 0 <= i < j < |rows| ==> rows[i].num < rows[j].num && rows[i].env.id != rows[j].env.id
  }

  lemma {:induction false} TailAscends(rows: seq<Row>, ws: string, afterSeq: nat)
    requires AscendingRows(rows)
    ensures AscendingRows(TailRows(rows, ws, afterSeq))
  {
    if rows != [] {
      var init, last := rows[..|rows| - 1], rows[|rows| - 1];
      TailAscends(init, ws, afterSeq);
      TailMembers(init, ws, afterSeq);
      forall r | r in TailRows(init, ws, afterSeq) ensures r.num < last.num && r.env.id != last.env.id {
        var i :| 0 <= i < |init| && init[i] == r;
        assert rows[i] == r;
      }
    }
  }

  lemma {:induction false} LatestIsMax(rows: seq<Row>, ws: string)
    requires AscendingRows(rows)
    ensures forall r :: r in rows && r.env.workspaceId == ws ==> r.num <= LatestSeqOf(rows, ws)
    ensures LatestSeqOf(rows, ws) == 0 ||
              exists r :: r in rows && r.env.workspaceId == ws && r.num == LatestSeqOf(rows, ws)
  {
    if rows != [] {
      var init, last := rows[..|rows| - 1], rows[|rows| - 1];
      LatestIsMax(init, ws);
      assert rows == init + [last];
      forall r | r in init ensures r.num < last.num {
        var i :| 0 <= i < |init| && init[i] == r;
        assert rows[i] == r;
      }
    }
  }

  /** Moving the cursor to the last row of a page leaves exactly the rows after the page. */
  lemma {:induction false} TailAfter(rows: seq<Row>, ws: string, afterSeq: nat, n: nat)
    requires AscendingRows(rows)
    requires 0 < n <= |TailRows(rows, ws, afterSeq)|
    ensures var tail := TailRows(rows, ws, afterSeq);
            TailRows(rows, ws, tail[n - 1].num) == tail[n..]
  {
    var init, last := rows[..|rows| - 1], rows[|rows| - 1];
    var tail, rest := TailRows(rows, ws, afterSeq), TailRows(init, ws, afterSeq);
    TailAscends(rows, ws, afterSeq);
    TailMembers(rows, ws, afterSeq);
    if last.env.workspaceId == ws && last.num > afterSeq && n == |tail| {
      assert tail[n - 1] == last;
      forall r | r in rows ensures r.num <= last.num {
        var i :| 0 <= i < |rows| && rows[i] == r;
      }
      TailMembers(rows, ws, last.num);
      NoMembers(TailRows(rows, ws, last.num));
    } else {
      TailAfter(init, ws, afterSeq, n);
      assert tail[n - 1] == rest[n - 1];
      if last.env.workspaceId == ws && last.num > afterSeq {
        assert tail[|tail| - 1] == last;
        assert tail[n..] == rest[n..] + [last];
      } else {
        assert tail[n - 1] in tail;
      }
    }
  }

  lemma Witness<T>(xs: seq<T>)
    requires xs != []
    ensures exists x :: x in xs
  {
    assert xs[0] in xs;
  }

  lemma NoMembers<T>(xs: seq<T>)
    requires forall x :: x !in xs
    ensures xs == []
  {
    if xs != [] { Witness(xs); }
  }

  // ----- a client following the pages -----

  /** What a catching-up client keeps: its cursor and the envelopes received so far. */
  datatype Client = Client(cursor: nat, held: seq<Envelope>)

  datatype Event = Ingest(batch: seq<Envelope>) | Poll(limit: nat)

  function AfterPage(c: Client, page: Page): Client {
    Client(if page.nextAfterSeq.Some? then page.nextAfterSeq.value else c.cursor, c.held + page.envelopes)
  }

  function Observe(log: Log, ws: string, c: Client, e: Event): (Log, Client) {
    match e
    case Ingest(batch) => (IngestAll(log, batch), c)
    case Poll(limit) => (log, AfterPage(c, CatchUpPage(log, ws, c.cursor, limit)))
  }

  function Run(log: Log, ws: string, c: Client, events: seq<Event>): (Log, Client) {
    if events == [] then (log, c)
    else
      var (l, d) := Run(log, ws, c, events[..|events| - 1]);
      Observe(l, ws, d, events[|events| - 1])
  }

  /** Held and still-to-come envelopes together are the workspace's envelopes, split at the cursor. */
  ghost predicate InStep(log: Log, ws: string, c: Client) {
    && c.cursor <= log.lastSeq
    && c.held + Envelopes(TailRows(log.rows, ws, c.cursor)) == Envelopes(TailRows(log.rows, ws, 0))
  }

  lemma EnvelopesConcat(a: seq<Row>, b: seq<Row>)
    ensures Envelopes(a + b) == Envelopes(a) + Envelopes(b)
  {
  }

  lemma ValidAscends(log: Log)
    requires ValidLog(log)
    ensures AscendingRows(log.rows)
  {
  }

  lemma PollKeepsStep(log: Log, ws: string, c: Client, limit: nat)
    requires ValidLog(log) && InStep(log, ws, c)
    ensures InStep(log, ws, AfterPage(c, CatchUpPage(log, ws, c.cursor, limit)))
  {
    hide ValidLog, TailRows, AscendingRows, Envelopes;
    var tail := TailRows(log.rows, ws, c.cursor);
    var rows := Prefix(tail, limit);
    ValidAscends(log);
    if rows == [] {
      assert c.held + Envelopes(rows) == c.held by { NoEnvelopes(); }
    } else {
      var rest := tail[|rows|..];
      TailAfter(log.rows, ws, c.cursor, |rows|);
      assert tail == rows + rest;
      EnvelopesConcat(rows, rest);
      assert c.held + Envelopes(rows) + Envelopes(rest) == c.held + (Envelopes(rows) + Envelopes(rest));
      LastWithin(log, ws, c.cursor, |rows|);
    }
  }

  lemma NoEnvelopes()
    ensures Envelopes([]) == []
  {
  }

  lemma LastWithin(log: Log, ws: string, afterSeq: nat, n: nat)
    requires ValidLog(log) && 0 < n <= |TailRows(log.rows, ws, afterSeq)|
    ensures TailRows(log.rows, ws, afterSeq)[n - 1].num <= log.lastSeq
  {
    hide ValidLog, TailRows;
    TailMembers(log.rows, ws, afterSeq);
    SeqBound(log, TailRows(log.rows, ws, afterSeq)[n - 1]);
  }

  lemma SeqBound(log: Log, r: Row)
    requires ValidLog(log) && r in log.rows
    ensures 1 <= r.num <= log.lastSeq
  {
  }

  lemma IngestKeepsStep(log: Log, ws: string, c: Client, batch: seq<Envelope>)
    requires ValidLog(log) && InStep(log, ws, c)
    ensures InStep(IngestAll(log, batch), ws, c)
  {
    hide AscendingRows, TailRows, IngestAll, ValidLog, Envelopes;
    var next := IngestAll(log, batch);
    IngestExtends(log, batch);
    IngestValid(log, batch);
    var added := next.rows[|log.rows|..];
    assert next.rows == log.rows + added;
    TailConcat(log.rows, added, ws, c.cursor);
    TailConcat(log.rows, added, ws, 0);
    NewRowsInTail(added, ws, c.cursor);
    EnvelopesConcat(TailRows(log.rows, ws, c.cursor), TailRows(added, ws, c.cursor));
    EnvelopesConcat(TailRows(log.rows, ws, 0), TailRows(added, ws, 0));
  }

  lemma {:induction false} NewRowsInTail(added: seq<Row>, ws: string, cursor: nat)
    requires forall i :: 0 <= i < |added| ==> added[i].num > cursor
    ensures TailRows(added, ws, cursor) == TailRows(added, ws, 0)
  {
    if added != [] { NewRowsInTail(added[..|added| - 1], ws, cursor); }
  }

  /**
   Over every run of ingests into any workspaces and polls with any page limits, the
   client holds exactly its workspace's envelopes up to its cursor, ascending and once each.
   */
  lemma {:induction false} ClientExact(ws: string, events: seq<Event>)
    ensures var (log, c) := Run(EMPTY_LOG, ws, Client(0, []), events);
            ValidLog(log) && InStep(log, ws, c)
  {
    if events != [] {
      var init := events[..|events| - 1];
      ClientExact(ws, init);
      var (log, c) := Run(EMPTY_LOG, ws, Client(0, []), init);
      match events[|events| - 1]
      case Ingest(batch) => IngestValid(log, batch); IngestKeepsStep(log, ws, c, batch);
      case Poll(limit) => PollKeepsStep(log, ws, c, limit);
    }
  }

  lemma LastIsMax(rows: seq<Row>)
    requires AscendingRows(rows) && rows != []
    ensures forall r :: r in rows[..|rows| - 1] ==> r.num < rows[|rows| - 1].num
  {
  }

  lemma AscendingInit(rows: seq<Row>)
    requires AscendingRows(rows) && rows != []
    ensures AscendingRows(rows[..|rows| - 1])
  {
  }

  lemma {:induction false} TailSplit(rows: seq<Row>, ws: string, cursor: nat)
    requires AscendingRows(rows)
    ensures var n := |TailRows(rows, ws, 0)| - |TailRows(rows, ws, cursor)|;
            && 0 <= n
            && TailRows(rows, ws, 0)[n..] == TailRows(rows, ws, cursor)
            && forall i :: 0 <= i < n ==> TailRows(rows, ws, 0)[i].num <= cursor
  {
    if rows != [] {
      var init, last := rows[..|rows| - 1], rows[|rows| - 1];
      LastIsMax(rows);
      AscendingInit(rows);
      hide AscendingRows;
      TailSplit(init, ws, cursor);
      var all, rest := TailRows(init, ws, 0), TailRows(init, ws, cursor);
      TailMembers(init, ws, cursor);
      assert rest != [] ==> rest[0] in rest;
    }
  }

  /** The rows behind the held envelopes: a prefix of the workspace's rows, cut at the cursor. */
  lemma HeldRows(log: Log, ws: string, c: Client) returns (all: seq<Row>)
    requires ValidLog(log) && InStep(log, ws, c)
    ensures all == TailRows(log.rows, ws, 0) && AscendingRows(all)
    ensures |c.held| <= |all| && c.held == Envelopes(all)[..|c.held|]
    ensures forall i :: 0 <= i < |c.held| ==> all[i].num <= c.cursor
    ensures forall i :: |c.held| <= i < |all| ==> all[i].num > c.cursor
  {
    all := TailRows(log.rows, ws, 0);
    var rest := TailRows(log.rows, ws, c.cursor);
    ValidAscends(log);
    hide ValidLog, TailRows;
    TailSplit(log.rows, ws, c.cursor);
    TailAscends(log.rows, ws, 0);
    TailMembers(log.rows, ws, c.cursor);
    assert |c.held| == |all| - |rest|;
    forall i | |c.held| <= i < |all| ensures all[i].num > c.cursor {
      assert all[i] == rest[i - |c.held|];
      assert all[i] in rest;
    }
  }

  /** The held prefix of the workspace's rows: the envelopes whose row is within the cursor. */
  lemma HeldWithin(all: seq<Row>, held: seq<Envelope>, cursor: nat, e: Envelope)
    requires |held| <= |all| && held == Envelopes(all)[..|held|]
    requires forall i :: 0 <= i < |held| ==> all[i].num <= cursor
    requires forall i :: |held| <= i < |all| ==> all[i].num > cursor
    ensures e in held <==> exists r :: r in all && r.env == e && r.num <= cursor
  {
    if e in held {
      var i :| 0 <= i < |held| && held[i] == e;
      assert all[i] in all && all[i].env == e;
    }
    if r :| r in all && r.env == e && r.num <= cursor {
      var i :| 0 <= i < |all| && all[i] == r;
      assert held[i] == e;
    }
  }

  lemma HeldDistinct(all: seq<Row>, held: seq<Envelope>)
    requires AscendingRows(all) && |held| <= |all| && held == Envelopes(all)[..|held|]
    ensures forall i, j :: 0 <= i < j < |held| ==> held[i].id != held[j].id
  {
  }

  /** What InStep says of each envelope: held, in order and once, exactly when its seq is within the cursor. */
  lemma HeldMeans(log: Log, ws: string, c: Client)
    requires ValidLog(log) && InStep(log, ws, c)
    ensures forall e :: e in c.held <==>
              exists r :: r in log.rows && r.env == e && e.workspaceId == ws && r.num <= c.cursor
    ensures forall i, j :: 0 <= i < j < |c.held| ==> c.held[i].id != c.held[j].id
    ensures |c.held| <= |TailRows(log.rows, ws, 0)| && c.held == Envelopes(TailRows(log.rows, ws, 0))[..|c.held|]
  {
    hide InStep, TailRows, ValidLog, AscendingRows;
    var all := HeldRows(log, ws, c);
    TailMembers(log.rows, ws, 0);
    HeldDistinct(all, c.held);
    forall r | r in log.rows ensures r.num >= 1 { SeqBound(log, r); }
    forall e ensures e in c.held <==>
               exists r :: r in log.rows && r.env == e && e.workspaceId == ws && r.num <= c.cursor {
      HeldWithin(all, c.held, c.cursor, e);
    }
  }

  /**
   A poll with room for at least one row advances past the pending rows; without more pages
   the client holds everything.
   */
  lemma PollProgress(log: Log, ws: string, c: Client, limit: nat)
    requires ValidLog(log) && InStep(log, ws, c) && limit >= 1
    ensures var page := CatchUpPage(log, ws, c.cursor, limit);
            var d := AfterPage(c, page);
            && (page.totalRemaining > 0 <==> d.cursor > c.cursor)
            && |TailRows(log.rows, ws, d.cursor)| ==
               (if page.totalRemaining <= limit then 0 else page.totalRemaining - limit)
            && (!page.hasMore <==> d.held == Envelopes(TailRows(log.rows, ws, 0)))
  {
    var page := CatchUpPage(log, ws, c.cursor, limit);
    var tail := TailRows(log.rows, ws, c.cursor);
    ValidAscends(log);
    PollKeepsStep(log, ws, c, limit);
    TailMembers(log.rows, ws, c.cursor);
    if tail != [] {
      var n := |Prefix(tail, limit)|;
      TailAfter(log.rows, ws, c.cursor, n);
      assert tail[n - 1] in tail;
    }
    var d := AfterPage(c, page);
    assert |d.held| + |TailRows(log.rows, ws, d.cursor)| == |TailRows(log.rows, ws, 0)|;
  }

  lemma {:induction false} RunKeepsIds(ws: string, log: Log, c: Client, events: seq<Event>, id: string)
    requires HasId(log.rows, id)
    ensures HasId(Run(log, ws, c, events).0.rows, id)
  {
    if events != [] {
      RunKeepsIds(ws, log, c, events[..|events| - 1], id);
      match events[|events| - 1]
      case Ingest(batch) => IngestIds(Run(log, ws, c, events[..|events| - 1]).0, batch, id);
      case Poll(_) =>
    }
  }

  /** Ingesting any batch again, however much happened since, changes nothing. */
  lemma ReingestChangesNothing(ws: string, log: Log, c: Client, batch: seq<Envelope>, events: seq<Event>)
    ensures var later := Run(IngestAll(log, batch), ws, c, events).0;
            IngestAll(later, batch) == later
  {
    var later := Run(IngestAll(log, batch), ws, c, events).0;
    forall i | 0 <= i < |batch| ensures HasId(later.rows, batch[i].id) {
      IngestIds(log, batch, batch[i].id);
      RunKeepsIds(ws, IngestAll(log, batch), c, events, batch[i].id);
    }
    IngestKnown(later, batch);
  }
}
