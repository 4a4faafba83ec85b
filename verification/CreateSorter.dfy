/**
 The heap-driven topological sort of the create rows, proved to produce the emission
 order and to permute the rows.
 */
module CreateSorter {
  import opened CreateOrder
  import opened Text
  import opened Wrappers

  // ----- the tables built from the rows -----

  function DuplicatesOf(duplicates: map<string, seq<Row>>, id: string): seq<Row> {
    if id in duplicates then duplicates[id] else []
  }

  /** The two tables hold, between them, every create row of a node. */
  ghost predicate Filed(rows: seq<Row>, first: map<string, Row>, duplicates: map<string, seq<Row>>, id: string) {
    if id in first then [first[id]] + DuplicatesOf(duplicates, id) == RowsOf(rows, id)
    else id !in duplicates && RowsOf(rows, id) == []
  }

  function WithFirst(first: map<string, Row>, row: Row): map<string, Row> {
    if row.kind.NodeCreate? && row.nodeId !in first then first[row.nodeId := row] else first
  }

  function WithDuplicate(first: map<string, Row>, duplicates: map<string, seq<Row>>, row: Row): map<string, seq<Row>> {
    if row.kind.NodeCreate? && row.nodeId in first
    then duplicates[row.nodeId := DuplicatesOf(duplicates, row.nodeId) + [row]]
    else duplicates
  }

  lemma FiledTurn(rows: seq<Row>, row: Row, first: map<string, Row>, duplicates: map<string, seq<Row>>)
    requires forall id :: Filed(rows, first, duplicates, id)
    ensures forall id :: Filed(rows + [row], WithFirst(first, row), WithDuplicate(first, duplicates, row), id)
  {
    assert (rows + [row])[..|rows|] == rows;
    var next, f, d := rows + [row], WithFirst(first, row), WithDuplicate(first, duplicates, row);
    forall id ensures Filed(next, f, d, id) {
      assert Filed(rows, first, duplicates, id);
    }
  }

  method FirstAndDuplicates(rows: seq<Row>)
    returns (first: map<string, Row>, order: seq<string>, duplicates: map<string, seq<Row>>)
    ensures first == FirstRows(rows) && order == IdOrder(rows)
    ensures forall id :: Filed(rows, first, duplicates, id)
  {
    hide RowsOf, Filed;
    first, order, duplicates := map[], [], map[];
    NoRows();
    for n := 0 to |rows|
      invariant first == FirstRows(rows[..n]) && order == IdOrder(rows[..n])
      invariant forall id :: Filed(rows[..n], first, duplicates, id)
    {
      var row := rows[n];
      assert rows[..n + 1][..n] == rows[..n] && rows[..n + 1] == rows[..n] + [row];
      SameIds(rows[..n]);
      FiledTurn(rows[..n], row, first, duplicates);
      ghost var f, d := first, duplicates;
      if row.kind.NodeCreate? {
        if row.nodeId !in first {
          first := first[row.nodeId := row];
          order := order + [row.nodeId];
        } else {
          duplicates := duplicates[row.nodeId := DuplicatesOf(duplicates, row.nodeId) + [row]];
        }
      }
      assert first == WithFirst(f, row) && duplicates == WithDuplicate(f, d, row);
    }
    assert rows[..|rows|] == rows;
  }

  lemma NoRows()
    ensures forall id :: Filed([], map[], map[], id)
  {
  }

  lemma SameIds(rows: seq<Row>)
    ensures forall id :: id in IdOrder(rows) <==> id in FirstRows(rows)
  {
    IdOrderExact(rows);
  }

  function ChildrenOf(children: map<string, seq<string>>, id: string): seq<string> {
    if id in children then children[id] else []
  }

  /** The list of p's children among the nodes seen so far. */
  ghost predicate LinksFor(first: map<string, Row>, seen: seq<string>, children: map<string, seq<string>>, p: string) {
    && NoDuplicates(ChildrenOf(children, p))
    && forall c :: c in ChildrenOf(children, p) <==> c in seen && c in first && Parent(first, c) == Some(p)
  }

  /** A count of 1 for every node seen that has a parent, and no other count. */
  ghost predicate CountsFor(first: map<string, Row>, seen: seq<string>, indegree: map<string, int>) {
    && (forall c :: c in indegree <==> c in seen && c in first && Parent(first, c).Some?)
    && forall c :: c in indegree ==> indegree[c] == 1
  }

  function LinkChild(children: map<string, seq<string>>, p: Option<string>, id: string): map<string, seq<string>> {
    if p.None? then children else children[p.value := ChildrenOf(children, p.value) + [id]]
  }

  lemma LinkTurn(first: map<string, Row>, seen: seq<string>, children: map<string, seq<string>>, id: string)
    requires forall p :: LinksFor(first, seen, children, p)
    requires id in first && id !in seen
    ensures forall p :: LinksFor(first, seen + [id], LinkChild(children, Parent(first, id), id), p)
  {
    hide LinksFor;
    var next, after := seen + [id], LinkChild(children, Parent(first, id), id);
    forall p ensures LinksFor(first, next, after, p) {
      LinkTurnOf(first, seen, children, id, p);
    }
  }

  lemma LinkTurnOf(
      first: map<string, Row>, seen: seq<string>, children: map<string, seq<string>>, id: string, p: string)
    requires LinksFor(first, seen, children, p)
    requires id in first && id !in seen
    ensures LinksFor(first, seen + [id], LinkChild(children, Parent(first, id), id), p)
  {
    hide Parent;
  }

  /** Links each node to its parent: the children in order, and an indegree of 1 for every child. */
  method ParentLinks(first: map<string, Row>, order: seq<string>)
    returns (children: map<string, seq<string>>, indegree: map<string, int>)
    requires NoDuplicates(order) && forall id :: id in order <==> id in first
    ensures forall p :: LinksFor(first, order, children, p)
    ensures CountsFor(first, order, indegree)
  {
    hide LinksFor, CountsFor;
    children, indegree := map[], map[];
    NoLinks(first);
    for n := 0 to |order|
      invariant forall p :: LinksFor(first, order[..n], children, p)
      invariant CountsFor(first, order[..n], indegree)
    {
      var id := order[n];
      assert id !in order[..n];
      ghost var linked := children;
      LinkTurn(first, order[..n], children, id);
      CountTurn(first, order[..n], indegree, id);
      var parent := first[id].parentId;
      if parent.Some? && parent.value in first {
        children := children[parent.value := ChildrenOf(children, parent.value) + [id]];
        indegree := indegree[id := 1];
      }
      assert children == LinkChild(linked, Parent(first, id), id);
      assert order[..n + 1] == order[..n] + [id];
    }
    assert order[..|order|] == order;
  }

  lemma NoLinks(first: map<string, Row>)
    ensures forall p :: LinksFor(first, [], map[], p)
    ensures CountsFor(first, [], map[])
  {
  }

  lemma CountTurn(first: map<string, Row>, seen: seq<string>, indegree: map<string, int>, id: string)
    requires CountsFor(first, seen, indegree) && id in first
    ensures CountsFor(first, seen + [id], if Parent(first, id).None? then indegree else indegree[id := 1])
  {
    hide Parent;
  }

  // ----- the heap loop -----

  /** heappop: the entry with the lowest number. */
  method PopLowest(available: set<string>, first: map<string, Row>) returns (id: string)
    requires available != {} && available <= first.Keys
    ensures id in available && forall other :: other in available ==> first[id].num <= first[other].num
  {
    id :| id in available;
    var rest := available - {id};
    while rest != {}
      invariant id in available && rest <= available
      invariant forall other :: other in available && other !in rest ==> first[id].num <= first[other].num
      decreases rest
    {
      var other :| other in rest;
      if first[other].num < first[id].num { id := other; }
      rest := rest - {other};
    }
  }

  /** The counts of the nodes with a parent: 1 until the parent is emitted, then 0. */
  ghost predicate Counted(first: map<string, Row>, indegree: map<string, int>, emitted: seq<string>) {
    && (forall c :: c in indegree <==> c in first && Parent(first, c).Some?)
    && (forall c :: c in indegree ==> indegree[c] == if Parent(first, c).value in emitted then 0 else 1)
  }

  /** Emitting a node frees its children: each child's count drops to 0 and the child becomes available. */
  method FreeChildren(first: map<string, Row>, children: seq<string>, before: map<string, int>, waiting: set<string>,
                      ghost emitted: seq<string>, ghost id: string)
    returns (indegree: map<string, int>, available: set<string>)
    requires id !in emitted && NoDuplicates(children)
    requires forall c :: c in children <==> c in first && Parent(first, c) == Some(id)
    requires Counted(first, before, emitted)
    ensures Counted(first, indegree, emitted + [id])
    ensures forall c :: c in available <==> c in waiting || c in children
  {
    indegree, available := before, waiting;
    for n := 0 to |children|
      invariant indegree.Keys == before.Keys
      invariant forall c :: c in indegree ==> indegree[c] == if c in children[..n] then 0 else before[c]
      invariant forall c :: c in available <==> c in waiting || c in children[..n]
    {
      var child := children[n];
      assert children[..n + 1] == children[..n] + [child];
      assert child !in children[..n];
      assert child in children;
      indegree := indegree[child := indegree[child] - 1];
      if indegree[child] == 0 { available := available + {child}; }
    }
    assert children[..|children|] == children;
  }

  /** What is available after one more node: the rest of what was, and the node's children. */
  lemma NextAvailable(first: map<string, Row>, ids: seq<string>, id: string)
    requires Greedy(first, ids) && Available(first, ids, id)
    ensures forall other :: Available(first, ids + [id], other) <==>
              (Available(first, ids, other) && other != id) || (other in first && Parent(first, other) == Some(id))
  {
    forall other | other in first && other in ids ensures Parent(first, other) != Some(id) {
      var i :| 0 <= i < |ids| && ids[i] == other;
      assert Available(first, ids[..i], ids[i]);
    }
  }

  lemma GreedyExtends(first: map<string, Row>, ids: seq<string>, id: string)
    requires Greedy(first, ids) && NoDuplicates(ids) && Available(first, ids, id)
    requires forall other :: Available(first, ids, other) ==> first[id].num <= first[other].num
    ensures Greedy(first, ids + [id]) && NoDuplicates(ids + [id])
  {
    var next := ids + [id];
    forall i | 0 <= i < |next|
      ensures Available(first, next[..i], next[i])
      ensures forall other :: Available(first, next[..i], other) ==> first[next[i]].num <= first[other].num
    {
      if i < |ids| { assert next[..i] == ids[..i]; } else { assert next[..i] == ids; }
    }
  }

  /** The greedy part of the order: pop the lowest available node until none is left. */
  method EmitAvailable(first: map<string, Row>, order: seq<string>) returns (ids: seq<string>)
    requires NoDuplicates(order) && forall id :: id in order <==> id in first
    ensures Greedy(first, ids) && NoDuplicates(ids) && forall id :: id in ids ==> id in first
    ensures forall id :: !Available(first, ids, id)
  {
    hide Greedy, Available, Counted, LinksFor, CountsFor, NoDuplicates, Parent;
    var children, indegree := ParentLinks(first, order);
    var available := set id | id in order && id !in indegree;
    ids := [];
    NoneEmitted(first, order, indegree);
    while available != {}
      invariant Greedy(first, ids) && NoDuplicates(ids)
      invariant forall id :: id in ids ==> id in first
      invariant forall id :: id in available <==> Available(first, ids, id)
      invariant Counted(first, indegree, ids)
      decreases first.Keys - (set id | id in ids)
    {
      AvailableNew(first, ids);
      var id := PopLowest(available, first);
      NextAvailable(first, ids, id);
      GreedyExtends(first, ids, id);
      LinkMeans(first, order, children, id);
      indegree, available := FreeChildren(first, ChildrenOf(children, id), indegree, available - {id}, ids, id);
      assert id in first.Keys - (set x | x in ids);
      assert (set x | x in ids + [id]) == (set x | x in ids) + {id};
      ids := ids + [id];
    }
  }

  lemma AvailableNew(first: map<string, Row>, ids: seq<string>)
    ensures forall id :: Available(first, ids, id) ==> id in first && id !in ids
  {
  }

  lemma LinkMeans(first: map<string, Row>, order: seq<string>, children: map<string, seq<string>>, p: string)
    requires LinksFor(first, order, children, p) && forall id :: id in order <==> id in first
    ensures NoDuplicates(ChildrenOf(children, p))
    ensures forall c :: c in ChildrenOf(children, p) <==> c in first && Parent(first, c) == Some(p)
  {
  }

  lemma NoneEmitted(first: map<string, Row>, order: seq<string>, indegree: map<string, int>)
    requires CountsFor(first, order, indegree) && forall id :: id in order <==> id in first
    ensures Greedy(first, []) && NoDuplicates<string>([]) && Counted(first, indegree, [])
    ensures forall id :: id in order && id !in indegree <==> Available(first, [], id)
  {
  }

  // ----- the fallback -----

  function InsertByNum(first: map<string, Row>, id: string, ids: seq<string>): (r: seq<string>)
    requires id in first && forall k :: k in ids ==> k in first
    ensures forall k :: k in r <==> k == id || k in ids
  {
    if ids == [] || first[id].num <= first[ids[0]].num then [id] + ids
    else
      assert ids == [ids[0]] + ids[1..];
      [ids[0]] + InsertByNum(first, id, ids[1..])
  }

  /** sorted(ids, key=seq): stable, since a row is put in front of its equals. */
  function SortByNum(first: map<string, Row>, ids: seq<string>): (r: seq<string>)
    requires forall k :: k in ids ==> k in first
    ensures forall k :: k in r <==> k in ids
  {
    if ids == [] then []
    else
      assert ids == [ids[0]] + ids[1..];
      InsertByNum(first, ids[0], SortByNum(first, ids[1..]))
  }

  lemma {:induction false} InsertAscends(first: map<string, Row>, id: string, ids: seq<string>)
    requires id in first && AscendingNums(first, ids) && NoDuplicates(ids) && id !in ids
    ensures AscendingNums(first, InsertByNum(first, id, ids)) && NoDuplicates(InsertByNum(first, id, ids))
  {
    if ids != [] && first[id].num > first[ids[0]].num {
      var rest := InsertByNum(first, id, ids[1..]);
      InsertAscends(first, id, ids[1..]);
      forall j | 0 <= j < |rest| ensures first[ids[0]].num <= first[rest[j]].num && rest[j] != ids[0] {
        assert rest[j] in rest;
        if rest[j] != id { var k :| 0 <= k < |ids[1..]| && ids[1..][k] == rest[j]; assert ids[k + 1] == rest[j]; }
      }
    }
  }

  lemma {:induction false} SortAscends(first: map<string, Row>, ids: seq<string>)
    requires NoDuplicates(ids) && forall k :: k in ids ==> k in first
    ensures AscendingNums(first, SortByNum(first, ids)) && NoDuplicates(SortByNum(first, ids))
  {
    if ids != [] {
      SortAscends(first, ids[1..]);
      assert forall k :: 0 <= k < |ids[1..]| ==> ids[1..][k] == ids[k + 1];
      InsertAscends(first, ids[0], SortByNum(first, ids[1..]));
    }
  }

  function NotIn(order: seq<string>, emitted: seq<string>): seq<string> {
    if order == [] then []
    else
      var init, last := NotIn(order[..|order| - 1], emitted), order[|order| - 1];
      if last in emitted then init else init + [last]
  }

  lemma {:induction false} NotInExact(order: seq<string>, emitted: seq<string>)
    ensures forall k :: k in NotIn(order, emitted) <==> k in order && k !in emitted
    ensures NoDuplicates(order) ==> NoDuplicates(NotIn(order, emitted))
  {
    if order != [] { NotInExact(order[..|order| - 1], emitted); }
  }

  /** The greedy part and the sorted leftovers together are the emission order. */
  lemma FallbackCompletes(first: map<string, Row>, order: seq<string>, emitted: seq<string>)
    requires NoDuplicates(order) && forall id :: id in order <==> id in first
    requires Greedy(first, emitted) && NoDuplicates(emitted) && forall id :: id in emitted ==> id in first
    requires forall id :: !Available(first, emitted, id)
    ensures forall k :: k in NotIn(order, emitted) ==> k in first
    ensures EmissionOrder(first, emitted + SortByNum(first, NotIn(order, emitted)), |emitted|)
  {
    hide Greedy, Available, Rooted;
    var left := NotIn(order, emitted);
    NotInExact(order, emitted);
    var tail := SortByNum(first, left);
    SortAscends(first, left);
    var ids := emitted + tail;
    assert ids[..|emitted|] == emitted && ids[|emitted|..] == tail;
    forall id | id in first ensures id in emitted <==> Rooted(first, id) {
      if id in emitted { EmittedRooted(first, emitted, id); }
      if Rooted(first, id) { RootedIsEmitted(first, emitted, id); }
    }
    forall i, j | 0 <= i < j < |ids| ensures ids[i] != ids[j] {
      if i < |emitted| <= j { assert ids[j] in tail; }
    }
  }

  lemma RootedIsEmitted(first: map<string, Row>, emitted: seq<string>, id: string)
    requires id in first && Rooted(first, id) && forall other :: !Available(first, emitted, other)
    ensures id in emitted
  {
    var n: nat :| EndsWithin(first, id, n);
    RootedEmitted(first, emitted, id, n);
  }

  // ----- the whole sort -----

  /** Each node's first row with its duplicates right behind it. */
  method WithDuplicates(ghost rows: seq<Row>, first: map<string, Row>, duplicates: map<string, seq<Row>>,
                        ordered: seq<string>)
    returns (nodes: seq<Row>)
    requires forall id :: Filed(rows, first, duplicates, id)
    requires forall id :: id in ordered ==> id in first
    ensures nodes == Expand(rows, ordered)
  {
    hide RowsOf;
    nodes := [];
    for n := 0 to |ordered|
      invariant nodes == Expand(rows, ordered[..n])
    {
      assert ordered[..n + 1][..n] == ordered[..n];
      assert ordered[n] in ordered;
      assert Filed(rows, first, duplicates, ordered[n]);
      nodes := nodes + ([first[ordered[n]]] + DuplicatesOf(duplicates, ordered[n]));
    }
    assert ordered[..|ordered|] == ordered;
  }

  lemma Permutes(rows: seq<Row>, ordered: seq<string>, n: nat)
    requires EmissionOrder(FirstRows(rows), ordered, n)
    ensures multiset(ClassRows(rows) + Expand(rows, ordered)) == multiset(rows)
  {
    hide FirstRows, RowsOf, Greedy, Rooted;
    FirstRowsExact(rows);
    ExpandPermutes(rows, ordered);
    KindsPartition(rows);
  }

  /**
   All create rows reordered: the class rows as they came, then the rows of the nodes in
   emission order, each node's duplicates right behind its first. The number of nodes that
   fell back to log order is reported.
   */
  method SortedCreateRows(rows: seq<Row>) returns (result: seq<Row>, ordered: seq<string>, cycleFallback: nat)
    ensures cycleFallback <= |ordered|
    ensures EmissionOrder(FirstRows(rows), ordered, |ordered| - cycleFallback)
    ensures result == ClassRows(rows) + Expand(rows, ordered)
    ensures multiset(result) == multiset(rows)
  {
    hide EmissionOrder, Greedy, Available, FirstRows, IdOrder, Filed, RowsOf;
    var first, order, duplicates := FirstAndDuplicates(rows);
    IdOrderExact(rows);
    var emitted := EmitAvailable(first, order);
    FallbackCompletes(first, order, emitted);
    var leftover := SortByNum(first, NotIn(order, emitted));
    cycleFallback := |leftover|;
    ordered := emitted + leftover;
    OrderHolds(first, ordered, |emitted|);
    var nodes := WithDuplicates(rows, first, duplicates, ordered);
    result := ClassRows(rows) + nodes;
    Permutes(rows, ordered, |emitted|);
  }

  lemma OrderHolds(first: map<string, Row>, ids: seq<string>, n: nat)
    requires EmissionOrder(first, ids, n)
    ensures n <= |ids| && NoDuplicates(ids) && forall id :: id in ids <==> id in first
  {
  }

  // ----- what an applier of the rows relies on -----

  lemma {:induction false} ExpandSplits(rows: seq<Row>, a: seq<string>, b: seq<string>)
    ensures Expand(rows, a + b) == Expand(rows, a) + Expand(rows, b)
  {
    if b == [] {
      assert a + b == a;
    } else {
      assert (a + b)[..|a + b| - 1] == a + b[..|b| - 1];
      ExpandSplits(rows, a, b[..|b| - 1]);
    }
  }

  lemma {:induction false} ExpandMembers(rows: seq<Row>, ids: seq<string>)
    ensures forall r :: r in Expand(rows, ids) ==> r.nodeId in ids
    ensures forall id :: id in ids && id in FirstRows(rows) ==> FirstRows(rows)[id] in Expand(rows, ids)
  {
    hide FirstRows;
    if ids != [] {
      var init, last := ids[..|ids| - 1], ids[|ids| - 1];
      ExpandMembers(rows, init);
      RowsOfMembers(rows, last);
      FirstRowsExact(rows);
      assert ids == init + [last];
      var own := RowsOf(rows, last);
      if last in FirstRows(rows) { assert own[0] in own; }
    }
  }

  lemma {:induction false} RowsOfMembers(rows: seq<Row>, id: string)
    ensures forall r :: r in RowsOf(rows, id) ==> r.nodeId == id
  {
    if rows != [] { RowsOfMembers(rows[..|rows| - 1], id); }
  }

  /** The parent of a node of the greedy part stands before it. */
  lemma ParentEmitted(first: map<string, Row>, ordered: seq<string>, n: nat, i: nat)
    requires EmissionOrder(first, ordered, n) && i < |ordered| && ordered[i] in first
    requires Rooted(first, ordered[i]) && Parent(first, ordered[i]).Some?
    ensures Parent(first, ordered[i]).value in ordered[..i]
  {
    hide Rooted;
    assert ordered[i] in ordered[..n];
    assert i < n;
    assert Available(first, ordered[..n][..i], ordered[..n][i]);
    assert ordered[..n][..i] == ordered[..i];
  }

  /**
   In the node rows a node's rows begin at its first create, nothing of the node comes
   before that point, and there its parent's first create has already been emitted,
   unless the parent chain runs into a cycle.
   */
  lemma ParentComesFirst(rows: seq<Row>, ordered: seq<string>, n: nat, id: string) returns (before: seq<Row>)
    requires EmissionOrder(FirstRows(rows), ordered, n) && id in FirstRows(rows)
    ensures before + RowsOf(rows, id) <= Expand(rows, ordered)
    ensures RowsOf(rows, id) != [] && RowsOf(rows, id)[0] == FirstRows(rows)[id]
    ensures forall r :: r in before ==> r.nodeId != id
    ensures Parent(FirstRows(rows), id).Some? && !RunsIntoCycle(FirstRows(rows), id) ==>
              FirstRows(rows)[Parent(FirstRows(rows), id).value] in before
  {
    hide FirstRows, RunsIntoCycle, Rooted, EmissionOrder, RowsOf, Greedy, Available;
    var first := FirstRows(rows);
    OrderHolds(first, ordered, n);
    var i :| 0 <= i < |ordered| && ordered[i] == id;
    var front, back := ordered[..i], ordered[i + 1..];
    assert ordered == front + [id] + back;
    ExpandSplits(rows, front + [id], back);
    assert (front + [id])[..|front|] == front;
    before := Expand(rows, front);
    ExpandMembers(rows, front);
    FirstRowsExact(rows);
    RootedOrCycle(first, id);
    if Parent(first, id).Some? && Rooted(first, id) { ParentEmitted(first, ordered, n, i); }
  }
}
