/**
 The ids of a template's blocks: derived from the keys on the way to the block, except
 that an unnamed block at the root leaves no trace in the ids of its children.
 */
module WorkflowBlockIds {
  import opened Text
  import opened WorkflowPlan
  import opened Workflows
  import opened Wrappers

  // ----- names -----

  /** Neither of the two separators occurs. */
  ghost predicate Free(s: string) {
    forall i :: 0 <= i < |s| ==> s[i] != '/' && s[i] != ':'
  }

  /** Nothing, or something that begins with a separator. */
  ghost predicate Tail(x: string) {
    x == "" || x[0] == '/' || x[0] == ':'
  }

  /** Two separator-free heads are told apart by what follows them. */
  lemma HeadsEqual(a: string, x: string, b: string, y: string)
    requires Free(a) && Free(b) && Tail(x) && Tail(y) && a + x == b + y
    ensures a == b && x == y
  {
    HeadNoLonger(a, x, b, y);
    HeadNoLonger(b, y, a, x);
    assert a == (a + x)[..|a|] && b == (b + y)[..|b|];
    assert x == (a + x)[|a|..] && y == (b + y)[|b|..];
  }

  lemma HeadNoLonger(a: string, x: string, b: string, y: string)
    requires Free(b) && Tail(x) && a + x == b + y
    ensures |b| <= |a|
  {
    assert forall k :: 0 <= k < |b| ==> (b + y)[k] == b[k];
    assert x != "" ==> (a + x)[|a|] == x[0];
  }

  lemma Cancel(p: string, x: string, y: string)
    requires p + x == p + y
    ensures x == y
  {
    assert x == (p + x)[|p|..] && y == (p + y)[|p|..];
  }

  /** An id determines its kind and its key. */
  lemma EntityIdInjective(wf: string, k1: string, key1: string, k2: string, key2: string)
    requires Free(k1) && Free(k2) && EntityId(wf, k1, key1) == EntityId(wf, k2, key2)
    ensures k1 == k2 && key1 == key2
  {
    Cancel("notees:workflow:" + wf + ":", k1 + ":" + key1, k2 + ":" + key2);
    assert k1 + ":" + key1 == k1 + (":" + key1) && k2 + ":" + key2 == k2 + (":" + key2);
    HeadsEqual(k1, ":" + key1, k2, ":" + key2);
    Cancel(":", key1, key2);
  }

  /** The id's key is the stem, or goes on after it with a separator. */
  ghost predicate Begins(wf: string, kind: string, stem: string, id: Id) {
    exists x :: Tail(x) && Stemmed(wf, kind, stem, x, id)
  }

  ghost predicate Stemmed(wf: string, kind: string, stem: string, x: string, id: Id) {
    id == EntityId(wf, kind, stem + x)
  }

  lemma StemsApart(wf: string, kind: string, base: string, k1: string, k2: string, id: Id)
    requires Free(kind) && Free(k1) && Free(k2)
    requires Begins(wf, kind, base + k1, id) && Begins(wf, kind, base + k2, id)
    ensures k1 == k2
  {
    hide EntityId;
    var x :| Tail(x) && Stemmed(wf, kind, base + k1, x, id);
    var y :| Tail(y) && Stemmed(wf, kind, base + k2, y, id);
    EntityIdInjective(wf, kind, base + k1 + x, kind, base + k2 + y);
    assert base + k1 + x == base + (k1 + x) && base + k2 + y == base + (k2 + y);
    Cancel(base, k1 + x, k2 + y);
    HeadsEqual(k1, x, k2, y);
  }

  lemma BeginsShorter(wf: string, kind: string, stem: string, more: string, id: Id)
    requires Tail(more) && more != "" && Begins(wf, kind, stem + more, id)
    ensures Begins(wf, kind, stem, id)
  {
    hide EntityId;
    var x :| Tail(x) && Stemmed(wf, kind, stem + more, x, id);
    assert stem + more + x == stem + (more + x);
    assert Tail(more + x) && Stemmed(wf, kind, stem, more + x, id);
  }

  lemma BeginsItself(wf: string, kind: string, stem: string)
    ensures Begins(wf, kind, stem, EntityId(wf, kind, stem))
  {
    assert stem + "" == stem;
    assert Tail("") && Stemmed(wf, kind, stem, "", EntityId(wf, kind, stem));
  }

  /** An id that goes on after the stem is not the stem's own. */
  lemma NotItself(wf: string, kind: string, stem: string, more: string, id: Id)
    requires Free(kind) && more != "" && Begins(wf, kind, stem + more, id)
    ensures id != EntityId(wf, kind, stem)
  {
    hide EntityId;
    var x :| Tail(x) && Stemmed(wf, kind, stem + more, x, id);
    if id == EntityId(wf, kind, stem) { EntityIdInjective(wf, kind, stem + more + x, kind, stem); }
  }

  lemma Kinds()
    ensures Free("tag") && Free("class") && Free("schema") && Free("template")
  {
  }

  // ----- lists without repetitions -----

  lemma DistinctJoins<T>(a: seq<T>, b: seq<T>)
    requires NoDuplicates(a) && NoDuplicates(b) && forall x :: x in a ==> x !in b
    ensures NoDuplicates(a + b)
  {
    var c := a + b;
    forall i, j | 0 <= i < j < |c| ensures c[i] != c[j] {
      assert i < |a| ==> c[i] in a;
      assert j >= |a| ==> c[j] in b;
    }
  }

  // ----- keys -----

  ghost predicate DistinctBlockKeys(blocks: seq<BlockSpec>) {
    forall i, j :: 0 <= i < j < |blocks| ==> blocks[i].key != blocks[j].key
  }

  /** Block keys: free of separators and unique among siblings, at every depth. An empty key is a key like others. */
  ghost predicate BlocksKeyed(blocks: seq<BlockSpec>) {
    && DistinctBlockKeys(blocks)
    && forall b :: b in blocks ==> Free(b.key) && BlocksKeyed(b.children)
  }

  // ----- blocks -----

  /** The key under which a block of this level is derived, without the block's own key. */
  ghost function Base(t: string, prefix: string): string {
    if prefix == "" then t + "/" else t + "/" + prefix + "/"
  }

  lemma BasePath(t: string, prefix: string, key: string)
    requires prefix != "" || key != ""
    ensures t + "/" + BlockPath(prefix, key) == Base(t, prefix) + key
    ensures Base(t, BlockPath(prefix, key)) == Base(t, prefix) + key + "/"
    ensures BlockPath(prefix, key) != ""
  {
  }

  /** Every id begins with the key of one of the blocks. */
  ghost predicate OfBlocks(wf: string, base: string, blocks: seq<BlockSpec>, ids: seq<Id>) {
    forall id :: id in ids ==> exists i :: 0 <= i < |blocks| && Begins(wf, "template", base + blocks[i].key, id)
  }

  lemma {:induction false} BlockIdsDistinct(wf: string, t: string, blocks: seq<BlockSpec>, parent: Id, prefix: string)
    requires BlocksKeyed(blocks) && (prefix != "" || forall b :: b in blocks ==> b.key != "")
    ensures NoDuplicates(CreatedBy(BlockSteps(wf, t, blocks, parent, prefix)))
    ensures OfBlocks(wf, Base(t, prefix), blocks, CreatedBy(BlockSteps(wf, t, blocks, parent, prefix)))
    decreases blocks, 0
  {
    hide OneBlock, Created, Begins, Base, Free;
    if blocks != [] {
      var init, last := blocks[..|blocks| - 1], blocks[|blocks| - 1];
      var base := Base(t, prefix);
      var a, b := BlockSteps(wf, t, init, parent, prefix), OneBlock(wf, t, last, parent, prefix);
      assert forall k :: 0 <= k < |init| ==> init[k] == blocks[k];
      BlockIdsDistinct(wf, t, init, parent, prefix);
      OneBlockDistinct(wf, t, last, parent, prefix);
      CreatedJoins(a, b);
      forall id | id in CreatedBy(a) ensures id !in CreatedBy(b) {
        var i :| 0 <= i < |init| && Begins(wf, "template", base + init[i].key, id);
        assert init[i] in blocks && last in blocks;
        Kinds();
        if id in CreatedBy(b) { StemsApart(wf, "template", base, init[i].key, last.key, id); }
      }
      DistinctJoins(CreatedBy(a), CreatedBy(b));
    }
  }

  /** A key that goes on with a slash: not the stem's own id, but one that begins with the stem. */
  lemma Deeper(wf: string, stem: string, key: string, id: Id)
    requires Begins(wf, "template", stem + "/" + key, id)
    ensures Begins(wf, "template", stem, id) && id != EntityId(wf, "template", stem)
  {
    hide EntityId, Begins;
    Kinds();
    assert stem + "/" + key == stem + ("/" + key);
    BeginsShorter(wf, "template", stem, "/" + key, id);
    NotItself(wf, "template", stem, "/" + key, id);
  }

  lemma OneBlockCreates(wf: string, t: string, block: BlockSpec, parent: Id, prefix: string)
    ensures var path := BlockPath(prefix, block.key);
            CreatedBy(OneBlock(wf, t, block, parent, prefix)) ==
            [BlockId(wf, t, path)] + CreatedBy(BlockSteps(wf, t, block.children, BlockId(wf, t, path), path))
  {
    hide EntityId, CreatedBy, BlockSteps, BlockPath, BlockId;
    var path := BlockPath(prefix, block.key);
    var create := ObjectCreate(BlockId(wf, t, path), Some(parent), [], [], block.content);
    CreatedJoins([create], BlockSteps(wf, t, block.children, BlockId(wf, t, path), path));
    CreatedOne(create);
  }

  lemma {:induction false} OneBlockDistinct(wf: string, t: string, block: BlockSpec, parent: Id, prefix: string)
    requires (prefix != "" || block.key != "") && Free(block.key) && BlocksKeyed(block.children)
    ensures NoDuplicates(CreatedBy(OneBlock(wf, t, block, parent, prefix)))
    ensures forall id :: id in CreatedBy(OneBlock(wf, t, block, parent, prefix)) ==>
              Begins(wf, "template", Base(t, prefix) + block.key, id)
    decreases block, 1
  {
    hide BlockSteps, BlocksKeyed, Begins, Base, EntityId, BlockPath, Free, OneBlock, CreatedBy;
    var path := BlockPath(prefix, block.key);
    var id, stem := BlockId(wf, t, path), Base(t, prefix) + block.key;
    var rest := CreatedBy(BlockSteps(wf, t, block.children, id, path));
    OneBlockCreates(wf, t, block, parent, prefix);
    BasePath(t, prefix, block.key);
    BlockIdsDistinct(wf, t, block.children, id, path);
    forall other | other in rest ensures other != id && Begins(wf, "template", stem, other) {
      var i :| 0 <= i < |block.children| && Begins(wf, "template", stem + "/" + block.children[i].key, other);
      Deeper(wf, stem, block.children[i].key, other);
    }
    BeginsItself(wf, "template", stem);
    DistinctJoins([id], rest);
  }

  lemma CreatedOne(step: Step)
    ensures CreatedBy([step]) == Created(step)
  {
    assert CreatedBy([step]) == CreatedBy([]) + Created(step);
  }

  // ----- unnamed blocks at the root -----

  /**
   An unnamed block at the root leaves its children the keys of its own level, and one
   of them is already there: a sibling's, or its own when the child is unnamed as well.
   */
  ghost predicate Hoists(blocks: seq<BlockSpec>) {
    exists b, c, d :: b in blocks && b.key == "" && c in b.children && d in blocks && c.key == d.key
  }

  lemma {:induction false} BlocksJoin(
      wf: string, t: string, a: seq<BlockSpec>, b: seq<BlockSpec>, parent: Id, prefix: string)
    ensures BlockSteps(wf, t, a + b, parent, prefix) ==
            BlockSteps(wf, t, a, parent, prefix) + BlockSteps(wf, t, b, parent, prefix)
  {
    hide OneBlock;
    if b == [] {
      assert a + b == a;
    } else {
      BlocksJoin(wf, t, a, b[..|b| - 1], parent, prefix);
      assert (a + b)[..|a + b| - 1] == a + b[..|b| - 1];
    }
  }

  lemma OnlyBlock(wf: string, t: string, block: BlockSpec, parent: Id, prefix: string)
    ensures BlockSteps(wf, t, [block], parent, prefix) == OneBlock(wf, t, block, parent, prefix)
  {
    hide OneBlock;
    NoBlocks(wf, t, parent, prefix);
    assert [block][..0] == [];
    assert [] + OneBlock(wf, t, block, parent, prefix) == OneBlock(wf, t, block, parent, prefix);
  }

  /** The ids of a list of blocks, around one of them. */
  lemma AroundBlock(wf: string, t: string, blocks: seq<BlockSpec>, u: nat, parent: Id, prefix: string)
    requires u < |blocks|
    ensures var path := BlockPath(prefix, blocks[u].key);
            CreatedBy(BlockSteps(wf, t, blocks, parent, prefix)) ==
            CreatedBy(BlockSteps(wf, t, blocks[..u], parent, prefix)) +
            ([BlockId(wf, t, path)] + CreatedBy(BlockSteps(wf, t, blocks[u].children, BlockId(wf, t, path), path))) +
            CreatedBy(BlockSteps(wf, t, blocks[u + 1..], parent, prefix))
  {
    hide BlockSteps, OneBlock, CreatedBy, BlockPath, BlockId;
    var before, block, after := blocks[..u], blocks[u], blocks[u + 1..];
    assert blocks == before + [block] + after;
    BlocksJoin(wf, t, before + [block], after, parent, prefix);
    BlocksJoin(wf, t, before, [block], parent, prefix);
    OnlyBlock(wf, t, block, parent, prefix);
    OneBlockCreates(wf, t, block, parent, prefix);
    var a, b := BlockSteps(wf, t, before, parent, prefix), OneBlock(wf, t, block, parent, prefix);
    CreatedJoins(a + b, BlockSteps(wf, t, after, parent, prefix));
    CreatedJoins(a, b);
  }

  lemma BlockIsCreated(wf: string, t: string, blocks: seq<BlockSpec>, block: BlockSpec, parent: Id, prefix: string)
    requires block in blocks
    ensures BlockId(wf, t, BlockPath(prefix, block.key)) in CreatedBy(BlockSteps(wf, t, blocks, parent, prefix))
  {
    hide BlockSteps, CreatedBy, BlockPath, BlockId;
    var u :| 0 <= u < |blocks| && blocks[u] == block;
    AroundBlock(wf, t, blocks, u, parent, prefix);
  }

  lemma GroupsApart(wf: string, base: string, xs: seq<BlockSpec>, ys: seq<BlockSpec>, a: seq<Id>, b: seq<Id>)
    requires OfBlocks(wf, base, xs, a) && OfBlocks(wf, base, ys, b)
    requires forall x, y :: x in xs && y in ys ==> Free(x.key) && Free(y.key) && x.key != y.key
    ensures forall id :: id in a ==> id !in b
  {
    hide Begins, Free;
    Kinds();
    forall id | id in a ensures id !in b {
      var i :| 0 <= i < |xs| && Begins(wf, "template", base + xs[i].key, id);
      if id in b {
        var j :| 0 <= j < |ys| && Begins(wf, "template", base + ys[j].key, id);
        StemsApart(wf, "template", base, xs[i].key, ys[j].key, id);
      }
    }
  }

  /** Named blocks' ids go on after the base, so none is the unnamed block's. */
  lemma UnnamedApart(wf: string, base: string, xs: seq<BlockSpec>, a: seq<Id>)
    requires OfBlocks(wf, base, xs, a) && forall x :: x in xs ==> x.key != ""
    ensures EntityId(wf, "template", base) !in a
  {
    hide Begins, EntityId;
    Kinds();
    forall id | id in a ensures id != EntityId(wf, "template", base) {
      var i :| 0 <= i < |xs| && Begins(wf, "template", base + xs[i].key, id);
      NotItself(wf, "template", base, xs[i].key, id);
    }
  }

  /** Every id belongs below the template: its key goes on with a slash. */
  ghost predicate Below(wf: string, t: string, ids: seq<Id>) {
    forall id :: id in ids ==> exists key :: Begins(wf, "template", t + "/" + key, id)
  }

  lemma BlocksAreBelow(wf: string, t: string, blocks: seq<BlockSpec>, ids: seq<Id>)
    requires OfBlocks(wf, t + "/", blocks, ids)
    ensures Below(wf, t, ids)
  {
    hide Begins;
  }

  lemma BelowJoins(wf: string, t: string, a: seq<Id>, b: seq<Id>)
    requires Below(wf, t, a) && Below(wf, t, b)
    ensures Below(wf, t, a + b)
  {
    hide Begins;
  }

  lemma UnnamedIsBelow(wf: string, t: string)
    ensures BlockId(wf, t, "") == EntityId(wf, "template", t + "/") && Below(wf, t, [BlockId(wf, t, "")])
  {
    hide Begins, EntityId;
    assert t + "/" + "" == t + "/";
    BeginsItself(wf, "template", t + "/" + "");
  }

  lemma PartsDistinct<T>(a: seq<T>, x: T, c: seq<T>, b: seq<T>)
    requires NoDuplicates(a) && NoDuplicates(b) && NoDuplicates(c) && x !in a && x !in b && x !in c
    requires (forall y :: y in a ==> y !in b && y !in c) && forall y :: y in c ==> y !in b
    ensures NoDuplicates(a + ([x] + c) + b)
  {
    DistinctJoins([x], c);
    DistinctJoins(a, [x] + c);
    DistinctJoins(a + ([x] + c), b);
  }

  /** Nothing hoisted onto a key that is taken: the ids of the blocks are distinct. */
  lemma RootDistinct(wf: string, t: string, blocks: seq<BlockSpec>, u: nat, parent: Id)
    requires BlocksKeyed(blocks) && u < |blocks| && blocks[u].key == "" && !Hoists(blocks)
    ensures NoDuplicates(CreatedBy(BlockSteps(wf, t, blocks, parent, "")))
    ensures Below(wf, t, CreatedBy(BlockSteps(wf, t, blocks, parent, "")))
  {
    hide BlockSteps, CreatedBy, BlockId, Begins, EntityId, NoDuplicates, OfBlocks, Below, Free;
    var before, block, after, id := blocks[..u], blocks[u], blocks[u + 1..], BlockId(wf, t, "");
    var a := CreatedBy(BlockSteps(wf, t, before, parent, ""));
    var b := CreatedBy(BlockSteps(wf, t, after, parent, ""));
    var c := CreatedBy(BlockSteps(wf, t, block.children, id, ""));
    RootKeys(blocks, u);
    AroundBlock(wf, t, blocks, u, parent, "");
    BlockIdsDistinct(wf, t, before, parent, "");
    BlockIdsDistinct(wf, t, after, parent, "");
    BlockIdsDistinct(wf, t, block.children, id, "");
    UnnamedIsBelow(wf, t);
    UnnamedApart(wf, t + "/", before, a);
    UnnamedApart(wf, t + "/", after, b);
    UnnamedApart(wf, t + "/", block.children, c);
    GroupsApart(wf, t + "/", before, after, a, b);
    GroupsApart(wf, t + "/", before, block.children, a, c);
    GroupsApart(wf, t + "/", block.children, after, c, b);
    PartsDistinct(a, id, c, b);
    BlocksAreBelow(wf, t, before, a);
    BlocksAreBelow(wf, t, after, b);
    BlocksAreBelow(wf, t, block.children, c);
    BelowJoins(wf, t, [id], c);
    BelowJoins(wf, t, a, [id] + c);
    BelowJoins(wf, t, a + ([id] + c), b);
  }

  /** The keys around an unnamed root block that hoists nothing onto a taken key. */
  lemma RootKeys(blocks: seq<BlockSpec>, u: nat)
    requires BlocksKeyed(blocks) && u < |blocks| && blocks[u].key == "" && !Hoists(blocks)
    ensures var before, children, after := blocks[..u], blocks[u].children, blocks[u + 1..];
            && BlocksKeyed(before) && BlocksKeyed(after) && BlocksKeyed(children)
            && (forall x :: x in before + after + children ==> x.key != "" && Free(x.key))
            && (forall x, y :: x in before && y in after ==> x.key != y.key)
            && (forall x, y :: x in before && y in children ==> x.key != y.key)
            && (forall x, y :: x in children && y in after ==> x.key != y.key)
  {
    hide Free;
    assert blocks[u] in blocks;
    assert forall x :: x in blocks[..u] + blocks[u + 1..] ==> x in blocks;
  }

  lemma Twice<T>(a: seq<T>, b: seq<T>, x: T)
    requires x in a && x in b
    ensures !NoDuplicates(a + b)
  {
    var i :| 0 <= i < |a| && a[i] == x;
    var j :| 0 <= j < |b| && b[j] == x;
    assert (a + b)[i] == x && (a + b)[|a| + j] == x;
  }

  /** A list without repetitions has none in a part of it. */
  lemma PartOfDistinct<T>(a: seq<T>, b: seq<T>, c: seq<T>)
    requires NoDuplicates(a + b + c)
    ensures NoDuplicates(b)
  {
    var all := a + b + c;
    forall i, j | 0 <= i < j < |b| ensures b[i] != b[j] {
      assert all[|a| + i] == b[i] && all[|a| + j] == b[j];
    }
  }

  /** A key hoisted onto a taken one: an id is created twice. */
  lemma RootCollides(wf: string, t: string, blocks: seq<BlockSpec>, parent: Id)
    requires Hoists(blocks)
    ensures !NoDuplicates(CreatedBy(BlockSteps(wf, t, blocks, parent, "")))
  {
    hide BlockSteps, CreatedBy, BlockId, EntityId, NoDuplicates;
    var block, child, taken :| block in blocks && block.key == "" && child in block.children &&
                               taken in blocks && child.key == taken.key;
    var u :| 0 <= u < |blocks| && blocks[u] == block;
    var id, twice := BlockId(wf, t, ""), BlockId(wf, t, child.key);
    var a := CreatedBy(BlockSteps(wf, t, blocks[..u], parent, ""));
    var b := CreatedBy(BlockSteps(wf, t, blocks[u + 1..], parent, ""));
    var c := CreatedBy(BlockSteps(wf, t, block.children, id, ""));
    AroundBlock(wf, t, blocks, u, parent, "");
    BlockIsCreated(wf, t, block.children, child, id, "");
    var w :| 0 <= w < |blocks| && blocks[w] == taken;
    if w < u {
      assert taken == blocks[..u][w];
      BlockIsCreated(wf, t, blocks[..u], taken, parent, "");
      Twice(a, [id] + c, twice);
      if NoDuplicates(a + ([id] + c) + b) { PartFirst(a + ([id] + c), b); }
    } else if w == u {
      Twice([id], c, twice);
      if NoDuplicates(a + ([id] + c) + b) { PartOfDistinct(a, [id] + c, b); }
    } else {
      assert taken == blocks[u + 1..][w - u - 1];
      BlockIsCreated(wf, t, blocks[u + 1..], taken, parent, "");
      Twice(a + ([id] + c), b, twice);
    }
  }

  lemma PartFirst<T>(a: seq<T>, b: seq<T>)
    requires NoDuplicates(a + b)
    ensures NoDuplicates(a)
  {
    assert [] + a + b == a + b;
    PartOfDistinct([], a, b);
  }

  /**
   Keys being free of separators and unique among siblings, the ids of a template's
   blocks are distinct exactly when no unnamed root block hoists a key already taken.
   */
  lemma BlocksDistinctExactly(wf: string, t: string, blocks: seq<BlockSpec>, parent: Id)
    requires BlocksKeyed(blocks)
    ensures NoDuplicates(CreatedBy(BlockSteps(wf, t, blocks, parent, ""))) <==> !Hoists(blocks)
    ensures !Hoists(blocks) ==> Below(wf, t, CreatedBy(BlockSteps(wf, t, blocks, parent, "")))
  {
    hide BlockSteps, CreatedBy, NoDuplicates, Below, BlocksKeyed, Begins;
    if Hoists(blocks) {
      RootCollides(wf, t, blocks, parent);
    } else if u: nat :| u < |blocks| && blocks[u].key == "" {
      RootDistinct(wf, t, blocks, u, parent);
    } else {
      BlockIdsDistinct(wf, t, blocks, parent, "");
      BlocksAreBelow(wf, t, blocks, CreatedBy(BlockSteps(wf, t, blocks, parent, "")));
    }
  }

  /** An unnamed block whose child has the key of a block beside it. */
  lemma HoistedKeyCollides(wf: string, t: string, parent: Id, content: Content) returns (blocks: seq<BlockSpec>)
    ensures BlocksKeyed(blocks)
    ensures !NoDuplicates(CreatedBy(BlockSteps(wf, t, blocks, parent, "")))
  {
    hide BlockSteps, CreatedBy, NoDuplicates;
    var leaf := BlockSpec("a", content, None, []);
    var unnamed := BlockSpec("", content, None, [leaf]);
    blocks := [unnamed, leaf];
    assert leaf in unnamed.children && unnamed in blocks && leaf in blocks;
    assert BlocksKeyed([]) && BlocksKeyed([leaf]);
    RootCollides(wf, t, blocks, parent);
  }
}
