/**
 The order of the create rows told on the log's rows alone: which row is a node's first, whose
 parent comes where, and which rows keep the order of the log.
 */
module CreateReading {
  import opened CreateOrder
  import opened CreateSorter
  import opened Text
  import opened Wrappers

  // ----- rows in the order of the log -----

  /** The positions are those of the rows with the property, ascending, and the list holds those rows. */
  ghost predicate Picks(rows: seq<Row>, p: Row -> bool, at: seq<nat>, list: seq<Row>) {
    && |list| == |at|
    && (forall i, j :: 0 <= i < j < |at| ==> at[i] < at[j])
    && (forall t: nat :: t in at <==> t < |rows| && p(rows[t]))
    && forall i :: 0 <= i < |at| ==> at[i] < |rows| && list[i] == rows[at[i]]
  }

  lemma PicksGrow(rows: seq<Row>, p: Row -> bool, at: seq<nat>, list: seq<Row>, r: Row)
    requires Picks(rows, p, at, list)
    ensures if p(r) then Picks(rows + [r], p, at + [|rows|], list + [r]) else Picks(rows + [r], p, at, list)
  {
    var next := if p(r) then at + [|rows|] else at;
    var all := rows + [r];
    forall t: nat ensures t in next <==> t < |all| && p(all[t]) {
      if t < |rows| { assert all[t] == rows[t]; }
    }
    forall i | 0 <= i < |at| ensures at[i] < |rows| && all[at[i]] == rows[at[i]] {}
  }

  lemma NothingPicked(p: Row -> bool)
    ensures Picks([], p, [], [])
  {
  }

  function OfClass(): Row -> bool { (r: Row) => r.kind.ClassCreate? }

  function OfNode(id: string): Row -> bool { (r: Row) => r.kind.NodeCreate? && r.nodeId == id }

  lemma {:induction false} ClassRowsPicked(rows: seq<Row>) returns (at: seq<nat>)
    ensures Picks(rows, OfClass(), at, ClassRows(rows))
  {
    hide Picks;
    if rows == [] {
      at := [];
      NothingPicked(OfClass());
    } else {
      var init, last := rows[..|rows| - 1], rows[|rows| - 1];
      assert rows == init + [last];
      at := ClassRowsPicked(init);
      PicksGrow(init, OfClass(), at, ClassRows(init), last);
      if last.kind.ClassCreate? { at := at + [|init|]; }
    }
  }

  lemma {:induction false} RowsOfPicked(rows: seq<Row>, id: string) returns (at: seq<nat>)
    ensures Picks(rows, OfNode(id), at, RowsOf(rows, id))
  {
    hide Picks;
    if rows == [] {
      at := [];
      NothingPicked(OfNode(id));
    } else {
      var init, last := rows[..|rows| - 1], rows[|rows| - 1];
      assert rows == init + [last];
      at := RowsOfPicked(init, id);
      PicksGrow(init, OfNode(id), at, RowsOf(init, id), last);
      if last.kind.NodeCreate? && last.nodeId == id { at := at + [|init|]; }
    }
  }

  // ----- first rows and parents -----

  /** Row k creates the node and no row before it does. */
  ghost predicate FirstCreate(rows: seq<Row>, id: string, k: nat) {
    && k < |rows| && rows[k].kind.NodeCreate? && rows[k].nodeId == id
    && forall j :: 0 <= j < k ==> !(rows[j].kind.NodeCreate? && rows[j].nodeId == id)
  }

  /** The log creates the node. */
  ghost predicate Creates(rows: seq<Row>, id: string) {
    exists k :: 0 <= k < |rows| && rows[k].kind.NodeCreate? && rows[k].nodeId == id
  }

  lemma {:induction false} FirstCreateIs(rows: seq<Row>, id: string)
    ensures Creates(rows, id) <==> id in FirstRows(rows)
    ensures forall k: nat :: FirstCreate(rows, id, k) ==> id in FirstRows(rows) && FirstRows(rows)[id] == rows[k]
    ensures id in FirstRows(rows) ==> exists k: nat :: FirstCreate(rows, id, k)
  {
    if rows != [] {
      var n := |rows| - 1;
      var init, last := rows[..n], rows[n];
      FirstCreateIs(init, id);
      assert forall k :: 0 <= k < n ==> init[k] == rows[k];
      assert forall k: nat :: k < n ==> (FirstCreate(init, id, k) <==> FirstCreate(rows, id, k));
      if id in FirstRows(init) {
        var k: nat :| FirstCreate(init, id, k);
        assert FirstCreate(rows, id, k);
      } else if last.kind.NodeCreate? && last.nodeId == id {
        assert FirstCreate(rows, id, n);
      }
    }
  }

  /** The node's first create names b as its parent, and the log creates b. */
  ghost predicate Links(rows: seq<Row>, a: string, b: string) {
    Creates(rows, b) && exists k: nat :: FirstCreate(rows, a, k) && rows[k].parentId == Some(b)
  }

  lemma LinksAre(rows: seq<Row>, a: string, b: string)
    ensures Links(rows, a, b) <==> a in FirstRows(rows) && Parent(FirstRows(rows), a) == Some(b)
  {
    hide FirstRows, FirstCreate, Creates;
    FirstCreateIs(rows, a);
    FirstCreateIs(rows, b);
  }

  /** A walk from parent to parent, beginning at the node. */
  ghost predicate Trail(rows: seq<Row>, id: string, trail: seq<string>) {
    trail != [] && trail[0] == id && forall i :: 0 <= i < |trail| - 1 ==> Links(rows, trail[i], trail[i + 1])
  }

  /** Some walk up from the node comes to the same node twice. */
  ghost predicate Circles(rows: seq<Row>, id: string) {
    exists trail, i, j :: Trail(rows, id, trail) && 0 <= i < j < |trail| && trail[i] == trail[j]
  }

  lemma {:induction false} TrailIsChain(rows: seq<Row>, id: string, trail: seq<string>, n: nat)
    requires id in FirstRows(rows) && Trail(rows, id, trail) && n < |trail|
    ensures Ancestor(FirstRows(rows), id, n) == Some(trail[n])
  {
    hide FirstRows, Links, Parent;
    if n > 0 {
      TrailIsChain(rows, id, trail, n - 1);
      assert Links(rows, trail[n - 1], trail[n - 1 + 1]);
      LinksAre(rows, trail[n - 1], trail[n]);
    }
  }

  lemma {:induction false} ChainIsTrail(rows: seq<Row>, id: string, n: nat) returns (trail: seq<string>)
    requires id in FirstRows(rows) && Ancestor(FirstRows(rows), id, n).Some?
    ensures Trail(rows, id, trail) && |trail| == n + 1
  {
    hide FirstRows, Links, Parent;
    if n == 0 {
      trail := [id];
    } else {
      trail := ChainIsTrail(rows, id, n - 1);
      TrailIsChain(rows, id, trail, n - 1);
      var next := Ancestor(FirstRows(rows), id, n).value;
      LinksAre(rows, trail[n - 1], next);
      trail := trail + [next];
    }
  }

  lemma CirclesIs(rows: seq<Row>, id: string)
    requires id in FirstRows(rows)
    ensures Circles(rows, id) <==> RunsIntoCycle(FirstRows(rows), id)
  {
    hide FirstRows, Trail, Ancestor;
    var first := FirstRows(rows);
    if trail, i, j :| Trail(rows, id, trail) && 0 <= i < j < |trail| && trail[i] == trail[j] {
      TrailIsChain(rows, id, trail, i);
      TrailIsChain(rows, id, trail, j);
    }
    if i: nat, j: nat :| i < j && Ancestor(first, id, i).Some? && Ancestor(first, id, i) == Ancestor(first, id, j) {
      var trail := ChainIsTrail(rows, id, j);
      TrailIsChain(rows, id, trail, i);
      TrailIsChain(rows, id, trail, j);
    }
  }

  // ----- what the result keeps -----

  /**
   In the sorted rows a node whose first create names a parent the log creates comes after that
   parent's first create, unless the walk up from the node circles; nothing of the node comes
   before its first create, and its other creates follow at once.
   */
  lemma ChildAfterParent(rows: seq<Row>, ordered: seq<string>, n: nat, c: nat)
      returns (before: seq<Row>, own: seq<Row>, after: seq<Row>, at: seq<nat>)
    requires EmissionOrder(FirstRows(rows), ordered, n) && c < |rows| && FirstCreate(rows, rows[c].nodeId, c)
    ensures Expand(rows, ordered) == before + own + after
    ensures Picks(rows, OfNode(rows[c].nodeId), at, own) && own != [] && own[0] == rows[c]
    ensures forall r :: r in before ==> r.nodeId != rows[c].nodeId
    ensures !Circles(rows, rows[c].nodeId) ==>
              forall p, k: nat :: k < |rows| && rows[c].parentId == Some(p) && FirstCreate(rows, p, k) ==>
                rows[k] in before
  {
    hide FirstRows, RowsOf, EmissionOrder, Circles, RunsIntoCycle, Picks, Expand, FirstCreate, OfNode, Parent;
    var id := rows[c].nodeId;
    FirstCreateIs(rows, id);
    CirclesIs(rows, id);
    before := ParentComesFirst(rows, ordered, n, id);
    own := RowsOf(rows, id);
    after := Expand(rows, ordered)[|before + own|..];
    at := RowsOfPicked(rows, id);
    if !Circles(rows, id) {
      forall p, k: nat | k < |rows| && rows[c].parentId == Some(p) && FirstCreate(rows, p, k)
        ensures rows[k] in before
      {
        FirstCreateIs(rows, p);
        LinksOf(rows, c, p);
      }
    }
  }

  lemma LinksOf(rows: seq<Row>, c: nat, p: string)
    requires c < |rows| && FirstCreate(rows, rows[c].nodeId, c) && rows[c].parentId == Some(p) && p in FirstRows(rows)
    ensures rows[c].nodeId in FirstRows(rows) && Parent(FirstRows(rows), rows[c].nodeId) == Some(p)
  {
    hide FirstRows, FirstCreate, Creates;
    FirstCreateIs(rows, p);
    LinksAre(rows, rows[c].nodeId, p);
  }
}
