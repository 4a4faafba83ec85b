/**
 The order in which a migrated workspace's create rows are emitted: classes first,
 then node creates parents before children, duplicates right behind their first.
 */
module CreateOrder {
  import opened Text
  import opened Wrappers

  datatype Kind = ClassCreate | NodeCreate

  datatype Row = Row(num: int, kind: Kind, nodeId: string, parentId: Option<string>)

  /** `num` is the log's primary key, so no two rows share it. */
  ghost predicate DistinctNums(rows: seq<Row>) {
    forall i, j :: 0 <= i < j < |rows| ==> rows[i].num != rows[j].num
  }

  // ----- what is to be ordered -----

  function ClassRows(rows: seq<Row>): seq<Row> {
    if rows == [] then []
    else
      var init, last := ClassRows(rows[..|rows| - 1]), rows[|rows| - 1];
      if last.kind.ClassCreate? then init + [last] else init
  }

  /** All create rows of one node, in log order: the first and its duplicates. */
  function RowsOf(rows: seq<Row>, id: string): seq<Row> {
    if rows == [] then []
    else
      var init, last := RowsOf(rows[..|rows| - 1], id), rows[|rows| - 1];
      if last.kind.NodeCreate? && last.nodeId == id then init + [last] else init
  }

  /** Each node's first create row. */
  function FirstRows(rows: seq<Row>): map<string, Row> {
    if rows == [] then map[]
    else
      var init, last := FirstRows(rows[..|rows| - 1]), rows[|rows| - 1];
      if last.kind.NodeCreate? && last.nodeId !in init then init[last.nodeId := last] else init
  }

  /** The node ids in the order of their first rows. */
  function IdOrder(rows: seq<Row>): seq<string> {
    if rows == [] then []
    else
      var init, last := IdOrder(rows[..|rows| - 1]), rows[|rows| - 1];
      if last.kind.NodeCreate? && last.nodeId !in init then init + [last.nodeId] else init
  }

  /** The node's parent when the log creates it too. */
  function Parent(first: map<string, Row>, id: string): Option<string>
    requires id in first
  {
    var p := first[id].parentId;
    if p.Some? && p.value in first then p else None
  }

  // ----- chains -----

  ghost predicate EndsWithin(first: map<string, Row>, id: string, n: nat)
    requires id in first
    decreases n
  {
    Parent(first, id).None? || (n > 0 && EndsWithin(first, Parent(first, id).value, n - 1))
  }

  /** The parent chain of the node comes to an end. */
  ghost predicate Rooted(first: map<string, Row>, id: string)
    requires id in first
  {
    exists n: nat :: EndsWithin(first, id, n)
  }

  /** The n-th ancestor, itself for 0; None past the end of the chain. */
  function Ancestor(first: map<string, Row>, id: string, n: nat): (r: Option<string>)
    requires id in first
    ensures r.Some? ==> r.value in first
  {
    if n == 0 then Some(id)
    else
      match Ancestor(first, id, n - 1)
      case None => None
      case Some(a) => Parent(first, a)
  }

  /** The parent chain comes back to a node it already passed. */
  ghost predicate RunsIntoCycle(first: map<string, Row>, id: string)
    requires id in first
  {
    exists i: nat, j: nat :: i < j && Ancestor(first, id, i).Some? && Ancestor(first, id, i) == Ancestor(first, id, j)
  }

  lemma RootedStep(first: map<string, Row>, id: string)
    requires id in first
    ensures Rooted(first, id) <==> Parent(first, id).None? || Rooted(first, Parent(first, id).value)
  {
    if Rooted(first, id) {
      var n: nat :| EndsWithin(first, id, n);
      if Parent(first, id).Some? { assert EndsWithin(first, Parent(first, id).value, n - 1); }
    }
    if Parent(first, id).Some? && Rooted(first, Parent(first, id).value) {
      var n: nat :| EndsWithin(first, Parent(first, id).value, n);
      assert EndsWithin(first, id, n + 1);
    }
    if Parent(first, id).None? { assert EndsWithin(first, id, 0); }
  }

  lemma {:induction false} RootedAncestors(first: map<string, Row>, id: string, n: nat)
    requires id in first && Ancestor(first, id, n).Some?
    ensures Rooted(first, Ancestor(first, id, n).value) <==> Rooted(first, id)
  {
    hide Rooted;
    if n > 0 {
      RootedAncestors(first, id, n - 1);
      RootedStep(first, Ancestor(first, id, n - 1).value);
    }
  }

  lemma {:induction false} ChainGoesOn(first: map<string, Row>, id: string, n: nat)
    requires id in first && !Rooted(first, id)
    ensures Ancestor(first, id, n).Some?
  {
    hide Rooted;
    if n > 0 {
      ChainGoesOn(first, id, n - 1);
      RootedAncestors(first, id, n - 1);
      RootedStep(first, Ancestor(first, id, n - 1).value);
    }
  }

  lemma {:induction false} AncestorAdds(first: map<string, Row>, id: string, m: nat, n: nat)
    requires id in first && Ancestor(first, id, m).Some?
    ensures Ancestor(first, id, m + n) == Ancestor(first, Ancestor(first, id, m).value, n)
  {
    if n > 0 { AncestorAdds(first, id, m, n - 1); }
  }

  lemma {:induction false} EndsNoLater(first: map<string, Row>, id: string, n: nat)
    requires id in first && EndsWithin(first, id, n)
    ensures Ancestor(first, id, n + 1).None?
    decreases n
  {
    if Parent(first, id).None? {
      assert Ancestor(first, id, 1).None?;
      ChainStaysOver(first, id, 1, n);
    } else {
      var p := Parent(first, id).value;
      EndsNoLater(first, p, n - 1);
      assert Ancestor(first, id, 1) == Some(p);
      AncestorAdds(first, id, 1, n);
    }
  }

  lemma {:induction false} ChainStaysOver(first: map<string, Row>, id: string, m: nat, n: nat)
    requires id in first && Ancestor(first, id, m).None?
    ensures Ancestor(first, id, m + n).None?
  {
    if n > 0 { ChainStaysOver(first, id, m, n - 1); }
  }

  /** A chain that repeats a node never ends. */
  lemma {:induction false} CycleNeverEnds(first: map<string, Row>, id: string, i: nat, j: nat, m: nat)
    requires id in first && i < j
    requires Ancestor(first, id, i).Some? && Ancestor(first, id, i) == Ancestor(first, id, j)
    ensures Ancestor(first, id, m).Some?
    decreases m
  {
    hide Ancestor;
    if m <= j {
      if Ancestor(first, id, m).None? { ChainStaysOver(first, id, m, j - m); }
    } else {
      CycleNeverEnds(first, id, i, j, i + m - j);
      AncestorAdds(first, id, j, m - j);
      AncestorAdds(first, id, i, m - j);
    }
  }

  /** The first n nodes of the chain. */
  ghost function Passed(first: map<string, Row>, id: string, n: nat): set<Option<string>>
    requires id in first
  {
    if n == 0 then {} else Passed(first, id, n - 1) + {Ancestor(first, id, n - 1)}
  }

  ghost predicate IsAncestor(first: map<string, Row>, id: string, i: nat, a: Option<string>)
    requires id in first
  {
    Ancestor(first, id, i) == a
  }

  lemma {:induction false} PassedMembers(first: map<string, Row>, id: string, n: nat)
    requires id in first
    ensures forall a :: a in Passed(first, id, n) ==> exists i: nat :: i < n && IsAncestor(first, id, i, a)
  {
    if n > 0 {
      PassedMembers(first, id, n - 1);
      forall a | a in Passed(first, id, n) ensures exists i: nat :: i < n && IsAncestor(first, id, i, a) {
        if a in Passed(first, id, n - 1) {
          var i: nat :| i < n - 1 && IsAncestor(first, id, i, a);
          assert i < n && IsAncestor(first, id, i, a);
        } else {
          assert IsAncestor(first, id, n - 1, a);
        }
      }
    }
  }

  /** A chain without a repetition passes as many nodes as it has steps. */
  lemma {:induction false} PassedSize(first: map<string, Row>, id: string, n: nat)
    requires id in first
    requires forall i: nat, j: nat :: i < j < n ==> Ancestor(first, id, i) != Ancestor(first, id, j)
    ensures |Passed(first, id, n)| == n
  {
    hide Ancestor;
    if n > 0 {
      PassedSize(first, id, n - 1);
      PassedMembers(first, id, n - 1);
    }
  }

  lemma NotBoth(first: map<string, Row>, id: string)
    requires id in first && Rooted(first, id)
    ensures !RunsIntoCycle(first, id)
  {
    hide Ancestor;
    var n: nat :| EndsWithin(first, id, n);
    EndsNoLater(first, id, n);
    if i: nat, j: nat :| i < j && Ancestor(first, id, i).Some? && Ancestor(first, id, i) == Ancestor(first, id, j) {
      CycleNeverEnds(first, id, i, j, n + 1);
    }
  }

  lemma OneOfThem(first: map<string, Row>, id: string)
    requires id in first && !Rooted(first, id)
    ensures RunsIntoCycle(first, id)
  {
    hide Ancestor, Rooted;
    var n := |first| + 1;
    forall i: nat | i < n ensures Ancestor(first, id, i).Some? { ChainGoesOn(first, id, i); }
    if !RunsIntoCycle(first, id) {
      PassedSize(first, id, n);
      PassedMembers(first, id, n);
      Wrapped(first.Keys);
      SubsetSize(Passed(first, id, n), set k | k in first.Keys :: Some(k));
    }
  }

  /** A parent chain either ends or runs into a cycle. */
  lemma RootedOrCycle(first: map<string, Row>, id: string)
    requires id in first
    ensures Rooted(first, id) <==> !RunsIntoCycle(first, id)
  {
    if Rooted(first, id) { NotBoth(first, id); } else { OneOfThem(first, id); }
  }

  lemma {:induction false} Wrapped(keys: set<string>)
    ensures |(set k | k in keys :: Some(k))| == |keys|
    decreases keys
  {
    if keys != {} {
      var k :| k in keys;
      Wrapped(keys - {k});
      assert (set x | x in keys :: Some(x)) == (set x | x in keys - {k} :: Some(x)) + {Some(k)};
    }
  }

  // ----- the order -----

  /** Not emitted yet, and its parent, if the log creates it, already is. */
  predicate Available(first: map<string, Row>, emitted: seq<string>, id: string) {
    id in first && id !in emitted && (Parent(first, id).None? || Parent(first, id).value in emitted)
  }

  /** Every step emits an available node, and of the available ones the one created earliest. */
  ghost predicate Greedy(first: map<string, Row>, ids: seq<string>) {
    forall i :: 0 <= i < |ids| ==>
      Available(first, ids[..i], ids[i]) &&
      forall other :: Available(first, ids[..i], other) ==> first[ids[i]].num <= first[other].num
  }

  ghost predicate AscendingNums(first: map<string, Row>, ids: seq<string>) {
    && (forall i :: 0 <= i < |ids| ==> ids[i] in first)
    && forall i, j :: 0 <= i < j < |ids| ==> first[ids[i]].num <= first[ids[j]].num
  }

  /**
   The emission order of the nodes: a greedy part holding exactly the nodes whose parent
   chain ends, then the nodes whose chain runs into a cycle, in log order.
   */
  ghost predicate EmissionOrder(first: map<string, Row>, ids: seq<string>, n: nat) {
    && n <= |ids|
    && NoDuplicates(ids)
    && (forall id :: id in ids <==> id in first)
    && Greedy(first, ids[..n])
    && (forall id :: id in first ==> (id in ids[..n] <==> Rooted(first, id)))
    && AscendingNums(first, ids[n..])
  }

  /** Emitted nodes are rooted: each one's parent was emitted before it. */
  lemma {:induction false} EmittedRooted(first: map<string, Row>, ids: seq<string>, id: string)
    requires Greedy(first, ids) && id in ids && id in first
    ensures Rooted(first, id)
    decreases |ids|
  {
    hide Rooted;
    var init, last := ids[..|ids| - 1], ids[|ids| - 1];
    assert Available(first, init, last);
    GreedyPrefix(first, ids);
    if id in init {
      EmittedRooted(first, init, id);
    } else {
      assert ids == init + [last];
      RootedStep(first, id);
      if Parent(first, id).Some? { EmittedRooted(first, init, Parent(first, id).value); }
    }
  }

  lemma GreedyPrefix(first: map<string, Row>, ids: seq<string>)
    requires Greedy(first, ids) && ids != []
    ensures Greedy(first, ids[..|ids| - 1])
  {
    var init := ids[..|ids| - 1];
    forall i | 0 <= i < |init| ensures init[..i] == ids[..i] && init[i] == ids[i] {}
  }

  /** When nothing is available any more every rooted node has been emitted. */
  lemma {:induction false} RootedEmitted(first: map<string, Row>, ids: seq<string>, id: string, n: nat)
    requires id in first && EndsWithin(first, id, n)
    requires forall other :: !Available(first, ids, other)
    ensures id in ids
    decreases n
  {
    if Parent(first, id).Some? { RootedEmitted(first, ids, Parent(first, id).value, n - 1); }
    assert !Available(first, ids, id);
  }

  /** The order is determined: two emission orders of the same rows are the same. */
  lemma {:induction false} GreedyUnique(first: map<string, Row>, a: seq<string>, b: seq<string>, k: nat)
    requires Greedy(first, a) && Greedy(first, b)
    requires forall x, y :: x in first && y in first && first[x].num == first[y].num ==> x == y
    requires k <= |a| && k <= |b|
    ensures a[..k] == b[..k]
  {
    if k > 0 {
      GreedyUnique(first, a, b, k - 1);
      assert Available(first, a[..k - 1], a[k - 1]) && Available(first, b[..k - 1], b[k - 1]);
      assert a[..k] == a[..k - 1] + [a[k - 1]] && b[..k] == b[..k - 1] + [b[k - 1]];
    }
  }

  // ----- assembling the rows -----

  /** Each node's rows, the nodes in the given order. */
  function Expand(rows: seq<Row>, ids: seq<string>): seq<Row> {
    if ids == [] then [] else Expand(rows, ids[..|ids| - 1]) + RowsOf(rows, ids[|ids| - 1])
  }

  function NodeRows(rows: seq<Row>): seq<Row> {
    if rows == [] then []
    else
      var init, last := NodeRows(rows[..|rows| - 1]), rows[|rows| - 1];
      if last.kind.NodeCreate? then init + [last] else init
  }

  lemma {:induction false} ExpandNothing(ids: seq<string>)
    ensures Expand([], ids) == []
  {
    if ids != [] { ExpandNothing(ids[..|ids| - 1]); }
  }

  /** A row more adds itself once, in the place of its node. */
  lemma RowsOfMore(rows: seq<Row>, r: Row, id: string)
    ensures RowsOf(rows + [r], id) == RowsOf(rows, id) + if r.kind.NodeCreate? && r.nodeId == id then [r] else []
  {
    assert (rows + [r])[..|rows|] == rows;
  }

  lemma {:induction false} ExpandRow(rows: seq<Row>, r: Row, ids: seq<string>)
    requires NoDuplicates(ids)
    ensures multiset(Expand(rows + [r], ids)) ==
            multiset(Expand(rows, ids)) + if r.kind.NodeCreate? && r.nodeId in ids then multiset{r} else multiset{}
  {
    hide RowsOf;
    if ids != [] {
      var init, last := ids[..|ids| - 1], ids[|ids| - 1];
      ExpandRow(rows, r, init);
      RowsOfMore(rows, r, last);
      assert ids == init + [last];
      assert last !in init;
    }
  }

  lemma {:induction false} ExpandPermutes(rows: seq<Row>, ids: seq<string>)
    requires NoDuplicates(ids)
    requires forall r :: r in rows && r.kind.NodeCreate? ==> r.nodeId in ids
    ensures multiset(Expand(rows, ids)) == multiset(NodeRows(rows))
  {
    if rows == [] {
      ExpandNothing(ids);
    } else {
      var init, last := rows[..|rows| - 1], rows[|rows| - 1];
      assert rows == init + [last];
      assert forall r :: r in init ==> r in rows;
      ExpandPermutes(init, ids);
      ExpandRow(init, last, ids);
    }
  }

  lemma {:induction false} KindsPartition(rows: seq<Row>)
    ensures multiset(ClassRows(rows)) + multiset(NodeRows(rows)) == multiset(rows)
  {
    if rows != [] {
      KindsPartition(rows[..|rows| - 1]);
      assert rows == rows[..|rows| - 1] + [rows[|rows| - 1]];
    }
  }

  lemma {:induction false} FirstRowsExact(rows: seq<Row>)
    ensures forall id :: id in FirstRows(rows) <==> exists r :: r in rows && r.kind.NodeCreate? && r.nodeId == id
    ensures forall id :: id in FirstRows(rows) ==> FirstRows(rows)[id] in rows && FirstRows(rows)[id].nodeId == id
    ensures forall id :: id in FirstRows(rows) ==> RowsOf(rows, id) != [] && RowsOf(rows, id)[0] == FirstRows(rows)[id]
    ensures forall id :: id !in FirstRows(rows) ==> RowsOf(rows, id) == []
  {
    if rows != [] {
      var init, last := rows[..|rows| - 1], rows[|rows| - 1];
      FirstRowsExact(init);
      assert rows == init + [last];
    }
  }

  lemma {:induction false} IdOrderExact(rows: seq<Row>)
    ensures NoDuplicates(IdOrder(rows))
    ensures forall id :: id in IdOrder(rows) <==> id in FirstRows(rows)
  {
    if rows != [] { IdOrderExact(rows[..|rows| - 1]); }
  }

  ghost predicate NumsDistinct(first: map<string, Row>) {
    forall x, y :: x in first && y in first && first[x].num == first[y].num ==> x == y
  }

  lemma FirstNumsDistinct(rows: seq<Row>)
    requires DistinctNums(rows)
    ensures NumsDistinct(FirstRows(rows))
  {
    hide FirstRows;
    FirstRowsExact(rows);
    var first := FirstRows(rows);
    forall x, y | x in first && y in first && first[x].num == first[y].num ensures x == y {
      var i :| 0 <= i < |rows| && rows[i] == first[x];
      var j :| 0 <= j < |rows| && rows[j] == first[y];
    }
  }

  // ----- the order is determined -----

  /** Two lists without repetitions of the same ids are equally long. */
  lemma {:induction false} SameLength(a: seq<string>, b: seq<string>)
    requires NoDuplicates(a) && NoDuplicates(b) && forall id :: id in a <==> id in b
    ensures |a| == |b|
  {
    ListSize(a);
    ListSize(b);
    assert (set id | id in a) == (set id | id in b);
  }

  lemma {:induction false} ListSize(a: seq<string>)
    requires NoDuplicates(a)
    ensures |(set id | id in a)| == |a|
  {
    if a != [] {
      var init, last := a[..|a| - 1], a[|a| - 1];
      ListSize(init);
      assert a == init + [last];
      assert (set id | id in a) == (set id | id in init) + {last};
    }
  }

  /** Ascending numbers leave one order for a set of ids. */
  lemma {:induction false} AscendingUnique(first: map<string, Row>, a: seq<string>, b: seq<string>)
    requires NumsDistinct(first) && AscendingNums(first, a) && AscendingNums(first, b)
    requires NoDuplicates(a) && NoDuplicates(b) && forall id :: id in a <==> id in b
    ensures a == b
  {
    SameLength(a, b);
    if a != [] {
      assert a[0] in b && b[0] in a;
      assert a[0] == b[0];
      assert a == [a[0]] + a[1..] && b == [b[0]] + b[1..];
      RestOfAscending(first, a);
      RestOfAscending(first, b);
      AscendingUnique(first, a[1..], b[1..]);
    }
  }

  lemma RestOfAscending(first: map<string, Row>, a: seq<string>)
    requires AscendingNums(first, a) && NoDuplicates(a) && a != []
    ensures AscendingNums(first, a[1..]) && NoDuplicates(a[1..])
    ensures forall id :: id in a[1..] <==> id in a && id != a[0]
  {
    assert forall k :: 0 <= k < |a[1..]| ==> a[1..][k] == a[k + 1];
    assert a == [a[0]] + a[1..];
  }

  lemma PartsWithoutRepetition(ids: seq<string>, n: nat)
    requires NoDuplicates(ids) && n <= |ids|
    ensures NoDuplicates(ids[..n]) && NoDuplicates(ids[n..])
    ensures forall id :: id in ids[n..] <==> id in ids && id !in ids[..n]
  {
    assert forall k :: 0 <= k < |ids[n..]| ==> ids[n..][k] == ids[n + k];
    forall id ensures id in ids[n..] <==> id in ids && id !in ids[..n] {
      if id in ids && id !in ids[..n] {
        var i :| 0 <= i < |ids| && ids[i] == id;
        assert ids[n..][i - n] == id;
      }
    }
  }

  /** The log's numbers being distinct, the rows have one emission order. */
  lemma EmissionOrderUnique(rows: seq<Row>, a: seq<string>, m: nat, b: seq<string>, n: nat)
    requires DistinctNums(rows)
    requires EmissionOrder(FirstRows(rows), a, m) && EmissionOrder(FirstRows(rows), b, n)
    ensures a == b && m == n
  {
    hide FirstRows, Greedy, Rooted, AscendingNums, NoDuplicates;
    var first := FirstRows(rows);
    FirstNumsDistinct(rows);
    PartsWithoutRepetition(a, m);
    PartsWithoutRepetition(b, n);
    SameLength(a[..m], b[..n]);
    GreedyUnique(first, a[..m], b[..n], m);
    assert a[..m][..m] == a[..m] && b[..n][..m] == b[..n];
    forall id ensures id in a[m..] <==> id in b[n..] {
      assert id in a <==> id in b;
      assert id in a[..m] <==> id in b[..n];
    }
    AscendingUnique(first, a[m..], b[n..]);
    assert a == a[..m] + a[m..] && b == b[..n] + b[n..];
  }
}
