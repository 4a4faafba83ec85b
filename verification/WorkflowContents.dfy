/**
 What the plans hold, read off the definition: every id spelled out, every block under the
 block whose key comes before its own in its path.
 */
module WorkflowContents {
  import opened Wrappers
  import opened Workflows

  // ----- ids, spelled out -----

  function Spelled(wf: string, rest: string): Id {
    Derived("notees:workflow:" + wf + rest)
  }

  /** A class by its key: the three of the workflows' own, or a seeded one. */
  function ClassCalled(wf: string, key: string): Id {
    if key == "synthesis" then Spelled(wf, ":class:synthesis")
    else if key == "comparison" then Spelled(wf, ":class:comparison")
    else if key == "source_instance" then Spelled(wf, ":class:source_instance")
    else SystemClass(key)
  }

  function Joined(keys: seq<string>): string {
    if keys == [] then "" else if |keys| == 1 then keys[0] else keys[0] + "/" + Joined(keys[1..])
  }

  /** Unnamed blocks at the root leave no trace in a path. */
  function Trace(keys: seq<string>): seq<string> {
    if keys != [] && keys[0] == "" then Trace(keys[1..]) else keys
  }

  /** The id of the block reached by the keys from the template down; of the template when there are none. */
  function IdAt(wf: string, t: string, keys: seq<string>): Id {
    if keys == [] then Spelled(wf, ":template:" + t)
    else Spelled(wf, ":template:" + t + "/" + Joined(Trace(keys)))
  }

  /** A block with its place: the positions, and the keys, from the template down to it. */
  datatype Visit = Visit(place: seq<nat>, keys: seq<string>, block: BlockSpec)

  predicate Leads(blocks: seq<BlockSpec>, place: seq<nat>, keys: seq<string>, block: BlockSpec)
    decreases |place|
  {
    && place != [] && |keys| == |place| && place[0] < |blocks| && keys[0] == blocks[place[0]].key
    && if |place| == 1 then blocks[place[0]] == block
       else Leads(blocks[place[0]].children, place[1..], keys[1..], block)
  }

  /** The order of an outline: a block before what is below it, and all that before its next sibling. */
  predicate Before(p: seq<nat>, q: seq<nat>) {
    q != [] && (p == [] || p[0] < q[0] || (p[0] == q[0] && Before(p[1..], q[1..])))
  }

  // ----- what the plan holds -----

  predicate IsPage(wf: string, spec: WorkflowSpec, step: Step) {
    step == ObjectCreate(Spelled(wf, ":tag:" + spec.anchorKey), None, [], [], TextAst(spec.anchorTitle))
  }

  predicate IsClass(wf: string, c: ClassSpec, step: Step) {
    step == ClassCreate(Spelled(wf, ":class:" + c.key), TextAst(c.title), c.icon, c.description)
  }

  predicate AreOptions(wf: string, s: SchemaSpec, options: seq<SchemaOption>) {
    && |options| == |s.options|
    && forall i :: 0 <= i < |options| ==>
         options[i] == SchemaOption(Spelled(wf, ":schema:" + s.key + ":" + s.options[i].key), s.options[i].title)
  }

  predicate IsSchema(wf: string, s: SchemaSpec, step: Step) {
    && step.SchemaCreate? && AreOptions(wf, s, step.options)
    && step == SchemaCreate(Spelled(wf, ":schema:" + s.key), s.name, s.kind, s.multi, [ClassCalled(wf, s.scope)],
                            step.options, s.hideWhenEmpty)
  }

  predicate IsBinding(wf: string, s: SchemaSpec, step: Step) {
    s.bindTo.Some? && step == ClassPropertySet(ClassCalled(wf, s.bindTo.value), Spelled(wf, ":schema:" + s.key))
  }

  predicate IsTemplate(wf: string, spec: WorkflowSpec, t: TemplateSpec, step: Step) {
    step == ObjectCreate(IdAt(wf, t.key, []), None, [SystemClass("template"), ClassCalled(wf, t.bindTo)],
                         if t.tagAnchor then [Spelled(wf, ":tag:" + spec.anchorKey)] else [], TextAst(t.title))
  }

  /** The block hangs on the block one key up, or on the template. */
  predicate IsBlock(wf: string, t: TemplateSpec, v: Visit, step: Step) {
    && Leads(t.body, v.place, v.keys, v.block)
    && step == ObjectCreate(IdAt(wf, t.key, v.keys), Some(IdAt(wf, t.key, v.keys[..|v.keys| - 1])), [], [],
                            v.block.content)
  }

  /** The template takes the grafted block as the value of the schema the block names. */
  predicate IsGraft(wf: string, t: TemplateSpec, v: Visit, step: Step) {
    && Leads(t.body, v.place, v.keys, v.block) && v.block.graft.Some?
    && step == PropertySet(IdAt(wf, t.key, []), Spelled(wf, ":schema:" + v.block.graft.value),
                           IdAt(wf, t.key, v.keys), None, 0)
  }

  predicate IsHasTemplate(wf: string, t: TemplateSpec, step: Step) {
    step == PropertySet(ClassCalled(wf, t.bindTo), SystemProperty("hasTemplate"), IdAt(wf, t.key, []),
                        Some(Spelled(wf, ":template:" + t.key + ":hasTemplate")), 0)
  }

  ghost predicate OfTemplate(wf: string, spec: WorkflowSpec, t: TemplateSpec, step: Step) {
    || IsTemplate(wf, spec, t, step)
    || (exists v :: IsBlock(wf, t, v, step) || IsGraft(wf, t, v, step))
    || IsHasTemplate(wf, t, step)
  }

  // ----- the ids are those of the plan -----

  lemma KindSpelled(wf: string, kind: string, key: string)
    ensures EntityId(wf, kind, key) == Spelled(wf, ":" + kind + ":" + key)
  {
    assert "notees:workflow:" + wf + ":" + (kind + ":" + key) == "notees:workflow:" + wf + (":" + kind + ":" + key);
  }

  lemma TagSpelled(wf: string, key: string)
    ensures EntityId(wf, "tag", key) == Spelled(wf, ":tag:" + key)
  {
    KindSpelled(wf, "tag", key);
    assert ":" + "tag" + ":" == ":tag:";
  }

  lemma ClassSpelled(wf: string, key: string)
    ensures EntityId(wf, "class", key) == Spelled(wf, ":class:" + key)
  {
    KindSpelled(wf, "class", key);
    assert ":" + "class" + ":" == ":class:";
  }

  lemma SchemaSpelled(wf: string, key: string)
    ensures EntityId(wf, "schema", key) == Spelled(wf, ":schema:" + key)
  {
    KindSpelled(wf, "schema", key);
    assert ":" + "schema" + ":" == ":schema:";
  }

  lemma TemplateSpelled(wf: string, key: string)
    ensures EntityId(wf, "template", key) == Spelled(wf, ":template:" + key)
  {
    KindSpelled(wf, "template", key);
    assert ":" + "template" + ":" == ":template:";
  }

  lemma ClassCalledIs(wf: string, key: string)
    ensures ClassIdOf(wf, key) == ClassCalled(wf, key)
  {
    hide EntityId, Spelled;
    ClassSpelled(wf, key);
    assert ":class:" + "synthesis" == ":class:synthesis" && ":class:" + "comparison" == ":class:comparison" &&
           ":class:" + "source_instance" == ":class:source_instance";
  }

  // ----- paths -----

  lemma {:induction false} JoinedGrows(keys: seq<string>, key: string)
    requires keys != []
    ensures Joined(keys + [key]) == Joined(keys) + "/" + key
  {
    if |keys| == 1 {
      assert (keys + [key])[1..] == [key];
    } else {
      JoinedGrows(keys[1..], key);
      assert (keys + [key])[1..] == keys[1..] + [key];
    }
  }

  lemma {:induction false} TraceGrows(keys: seq<string>, key: string)
    ensures Trace(keys + [key]) == if Trace(keys) == [] then Trace([key]) else Trace(keys) + [key]
    ensures Trace(keys) != [] ==> Trace(keys)[0] != ""
  {
    if keys == [] {
      assert keys + [key] == [key];
    } else if keys[0] == "" {
      TraceGrows(keys[1..], key);
      assert (keys + [key])[1..] == keys[1..] + [key];
    }
  }

  /** A key more makes the planner's next path. */
  lemma PathGrows(keys: seq<string>, key: string)
    ensures Joined(Trace(keys + [key])) == BlockPath(Joined(Trace(keys)), key)
  {
    hide Joined, Trace;
    TraceGrows(keys, key);
    if Trace(keys) == [] {
      OneKey(key);
    } else {
      JoinedGrows(Trace(keys), key);
      JoinedNamed(Trace(keys));
    }
  }

  lemma OneKey(key: string)
    ensures Joined(Trace([key])) == key && Joined([]) == ""
  {
    assert key == "" ==> Trace([key]) == Trace([key][1..]) == [];
  }

  lemma JoinedNamed(keys: seq<string>)
    requires keys != [] && keys[0] != ""
    ensures Joined(keys) != ""
  {
  }

  // ----- the blocks -----

  function Under(n: nat, key: string, visits: seq<Visit>): (r: seq<Visit>)
    ensures |r| == |visits|
  {
    seq(|visits|, i requires 0 <= i < |visits| =>
      Visit([n] + visits[i].place, [key] + visits[i].keys, visits[i].block))
  }

  function Visits(blocks: seq<BlockSpec>): seq<Visit>
    decreases blocks, 0
  {
    if blocks == [] then []
    else
      var n := |blocks| - 1;
      Visits(blocks[..n]) + VisitsOf(n, blocks[n])
  }

  function VisitsOf(n: nat, block: BlockSpec): seq<Visit>
    decreases block, 1
  {
    [Visit([n], [block.key], block)] + Under(n, block.key, Visits(block.children))
  }

  function StepAt(wf: string, t: string, above: seq<string>, v: Visit): Step
    requires v.keys != []
  {
    var keys := above + v.keys;
    ObjectCreate(IdAt(wf, t, keys), Some(IdAt(wf, t, keys[..|keys| - 1])), [], [], v.block.content)
  }

  predicate Keyed(visits: seq<Visit>) {
    forall i :: 0 <= i < |visits| ==> visits[i].keys != []
  }

  function StepsAt(wf: string, t: string, above: seq<string>, visits: seq<Visit>): (r: seq<Step>)
    requires Keyed(visits)
    ensures |r| == |visits|
  {
    seq(|visits|, i requires 0 <= i < |visits| => StepAt(wf, t, above, visits[i]))
  }

  function GraftsAt(wf: string, t: string, above: seq<string>, visits: seq<Visit>): seq<Graft> {
    if visits == [] then []
    else
      var v := visits[|visits| - 1];
      GraftsAt(wf, t, above, visits[..|visits| - 1]) +
      if v.block.graft.None? then [] else [Graft(v.block.graft.value, IdAt(wf, t, above + v.keys))]
  }

  lemma {:induction false} VisitsKeyed(blocks: seq<BlockSpec>)
    ensures Keyed(Visits(blocks))
    decreases blocks
  {
    if blocks != [] {
      var last := blocks[|blocks| - 1];
      VisitsKeyed(blocks[..|blocks| - 1]);
      VisitsKeyed(last.children);
    }
  }

  lemma {:induction false} GraftsAtJoin(wf: string, t: string, above: seq<string>, a: seq<Visit>, b: seq<Visit>)
    ensures GraftsAt(wf, t, above, a + b) == GraftsAt(wf, t, above, a) + GraftsAt(wf, t, above, b)
  {
    hide IdAt;
    if b == [] {
      assert a + b == a;
    } else {
      GraftsAtJoin(wf, t, above, a, b[..|b| - 1]);
      assert (a + b)[..|a + b| - 1] == a + b[..|b| - 1];
    }
  }

  lemma {:induction false} GraftsUnder(
      wf: string, t: string, above: seq<string>, n: nat, key: string, visits: seq<Visit>)
    ensures GraftsAt(wf, t, above, Under(n, key, visits)) == GraftsAt(wf, t, above + [key], visits)
  {
    hide IdAt;
    if visits != [] {
      var init, last := visits[..|visits| - 1], visits[|visits| - 1];
      GraftsUnder(wf, t, above, n, key, init);
      assert Under(n, key, visits)[..|visits| - 1] == Under(n, key, init);
      assert above + ([key] + last.keys) == above + [key] + last.keys;
    }
  }

  lemma StepsUnder(wf: string, t: string, above: seq<string>, n: nat, key: string, visits: seq<Visit>)
    requires Keyed(visits)
    ensures Keyed(Under(n, key, visits))
    ensures StepsAt(wf, t, above, Under(n, key, visits)) == StepsAt(wf, t, above + [key], visits)
  {
    hide IdAt;
    forall i | 0 <= i < |visits|
      ensures StepAt(wf, t, above, Under(n, key, visits)[i]) == StepAt(wf, t, above + [key], visits[i])
    {
      assert above + ([key] + visits[i].keys) == above + [key] + visits[i].keys;
    }
  }

  lemma IdOfPath(wf: string, t: string, keys: seq<string>)
    requires keys != []
    ensures BlockId(wf, t, Joined(Trace(keys))) == IdAt(wf, t, keys)
  {
    hide EntityId, Joined, Trace;
    var path := Joined(Trace(keys));
    TemplateSpelled(wf, t + "/" + path);
    assert ":template:" + (t + "/" + path) == ":template:" + t + "/" + path;
  }

  /**
   The planner's blocks are the definition's, in outline order, each under the block or template
   the keys before its own lead to.
   */
  lemma {:induction false} BlocksVisited(
      wf: string, t: string, blocks: seq<BlockSpec>, parent: Id, prefix: string, above: seq<string>)
    requires parent == IdAt(wf, t, above) && prefix == Joined(Trace(above))
    ensures Keyed(Visits(blocks))
    ensures BlockSteps(wf, t, blocks, parent, prefix) == StepsAt(wf, t, above, Visits(blocks))
    ensures Grafts(wf, t, blocks, prefix) == GraftsAt(wf, t, above, Visits(blocks))
    decreases blocks, 0
  {
    hide OneBlock, BlockGrafts, VisitsOf, IdAt, StepAt;
    VisitsKeyed(blocks);
    if blocks != [] {
      var n := |blocks| - 1;
      var init, last := blocks[..n], blocks[n];
      BlocksVisited(wf, t, init, parent, prefix, above);
      BlockVisited(wf, t, last, n, parent, prefix, above);
      StepsJoin(wf, t, above, Visits(init), VisitsOf(n, last));
      GraftsAtJoin(wf, t, above, Visits(init), VisitsOf(n, last));
    }
  }

  lemma StepsJoin(wf: string, t: string, above: seq<string>, a: seq<Visit>, b: seq<Visit>)
    requires Keyed(a) && Keyed(b)
    ensures Keyed(a + b)
    ensures StepsAt(wf, t, above, a + b) == StepsAt(wf, t, above, a) + StepsAt(wf, t, above, b)
  {
    hide StepAt;
  }

  lemma {:induction false} BlockVisited(
      wf: string, t: string, block: BlockSpec, n: nat, parent: Id, prefix: string, above: seq<string>)
    requires parent == IdAt(wf, t, above) && prefix == Joined(Trace(above))
    ensures Keyed(VisitsOf(n, block))
    ensures OneBlock(wf, t, block, parent, prefix) == StepsAt(wf, t, above, VisitsOf(n, block))
    ensures BlockGrafts(wf, t, block, prefix) == GraftsAt(wf, t, above, VisitsOf(n, block))
    decreases block, 1
  {
    hide BlockSteps, Grafts, IdAt, BlockId, BlockPath, Joined, Trace, Visits;
    var keys, first := above + [block.key], Visit([n], [block.key], block);
    var below := Visits(block.children);
    PathGrows(above, block.key);
    IdOfPath(wf, t, keys);
    BlocksVisited(wf, t, block.children, IdAt(wf, t, keys), Joined(Trace(keys)), keys);
    StepsUnder(wf, t, above, n, block.key, below);
    GraftsUnder(wf, t, above, n, block.key, below);
    StepsJoin(wf, t, above, [first], Under(n, block.key, below));
    GraftsAtJoin(wf, t, above, [first], Under(n, block.key, below));
    assert keys[..|keys| - 1] == above;
    OneVisit(wf, t, above, first);
  }

  lemma OneVisit(wf: string, t: string, above: seq<string>, v: Visit)
    requires v.keys != []
    ensures StepsAt(wf, t, above, [v]) == [StepAt(wf, t, above, v)]
    ensures GraftsAt(wf, t, above, [v]) ==
            if v.block.graft.None? then [] else [Graft(v.block.graft.value, IdAt(wf, t, above + v.keys))]
  {
    hide StepAt, IdAt;
    assert [v][..0] == [];
  }

  // ----- the visits are the blocks, in outline order -----

  predicate LeadsFrom(n: nat, block: BlockSpec, v: Visit) {
    && v.place != [] && |v.keys| == |v.place| && v.place[0] == n && v.keys[0] == block.key
    && if |v.place| == 1 then block == v.block else Leads(block.children, v.place[1..], v.keys[1..], v.block)
  }

  lemma UnderMembers(n: nat, key: string, visits: seq<Visit>, v: Visit)
    ensures v in Under(n, key, visits) <==>
            v.place != [] && v.keys != [] && v.place[0] == n && v.keys[0] == key &&
            Visit(v.place[1..], v.keys[1..], v.block) in visits
  {
    if v in Under(n, key, visits) {
      var i :| 0 <= i < |visits| && Under(n, key, visits)[i] == v;
      assert Visit(v.place[1..], v.keys[1..], v.block) == visits[i];
    } else if v.place != [] && v.keys != [] && v.place[0] == n && v.keys[0] == key {
      var w := Visit(v.place[1..], v.keys[1..], v.block);
      if w in visits {
        var i :| 0 <= i < |visits| && visits[i] == w;
        UnderAt(n, key, visits, i, v);
      }
    }
  }

  lemma UnderAt(n: nat, key: string, visits: seq<Visit>, i: nat, v: Visit)
    requires i < |visits| && v.place != [] && v.keys != [] && v.place[0] == n && v.keys[0] == key
    requires visits[i] == Visit(v.place[1..], v.keys[1..], v.block)
    ensures v in Under(n, key, visits)
  {
    assert v.place == [n] + visits[i].place && v.keys == [key] + visits[i].keys;
    assert Under(n, key, visits)[i] == v;
  }

  lemma {:induction false} VisitsExact(blocks: seq<BlockSpec>, v: Visit)
    ensures v in Visits(blocks) <==> Leads(blocks, v.place, v.keys, v.block)
    decreases blocks, 0
  {
    hide VisitsOf;
    if blocks != [] {
      var n := |blocks| - 1;
      VisitsExact(blocks[..n], v);
      VisitExact(n, blocks[n], v);
    }
  }

  lemma {:induction false} VisitExact(n: nat, block: BlockSpec, v: Visit)
    ensures v in VisitsOf(n, block) <==> LeadsFrom(n, block, v)
    decreases block, 1
  {
    hide Visits, Under, Leads;
    var first, below := Visit([n], [block.key], block), Visits(block.children);
    UnderMembers(n, block.key, below, v);
    assert v in VisitsOf(n, block) <==> v == first || v in Under(n, block.key, below);
    if v.place != [] && v.keys != [] {
      VisitsExact(block.children, Visit(v.place[1..], v.keys[1..], v.block));
      LeadsSomewhere(block.children, v.place[1..], v.keys[1..], v.block);
      if |v.place| == 1 && |v.keys| == 1 {
        assert v.place == [v.place[0]] && v.keys == [v.keys[0]];
      }
    }
  }

  lemma LeadsSomewhere(blocks: seq<BlockSpec>, place: seq<nat>, keys: seq<string>, block: BlockSpec)
    ensures Leads(blocks, place, keys, block) ==> place != [] && |keys| == |place|
  {
  }

  predicate Ascend(visits: seq<Visit>) {
    forall i, j :: 0 <= i < j < |visits| ==> Before(visits[i].place, visits[j].place)
  }

  lemma {:induction false} VisitsAscend(blocks: seq<BlockSpec>)
    ensures Ascend(Visits(blocks))
    ensures forall v :: v in Visits(blocks) ==> v.place != [] && v.place[0] < |blocks|
    decreases blocks, 0
  {
    hide VisitsOf, Before;
    if blocks != [] {
      var n := |blocks| - 1;
      var a, b := Visits(blocks[..n]), VisitsOf(n, blocks[n]);
      VisitsAscend(blocks[..n]);
      VisitAscends(n, blocks[n]);
      forall i, j | 0 <= i < |a| && 0 <= j < |b| ensures Before(a[i].place, b[j].place) {
        assert a[i] in a && b[j] in b;
        EarlierSibling(a[i].place, b[j].place);
      }
    }
  }

  lemma EarlierSibling(p: seq<nat>, q: seq<nat>)
    requires p != [] && q != [] && p[0] < q[0]
    ensures Before(p, q)
  {
  }

  lemma {:induction false} VisitAscends(n: nat, block: BlockSpec)
    ensures Ascend(VisitsOf(n, block))
    ensures forall v :: v in VisitsOf(n, block) ==> v.place != [] && v.place[0] == n
    decreases block, 1
  {
    hide Visits, Before;
    var below := Visits(block.children);
    var all := VisitsOf(n, block);
    VisitsAscend(block.children);
    forall i, j | 0 <= i < j < |all| ensures Before(all[i].place, all[j].place) {
      assert below[j - 1] in below;
      if i == 0 {
        BelowIt(n, [], below[j - 1].place);
        assert all[0].place == [n] + [];
      } else {
        BelowIt(n, below[i - 1].place, below[j - 1].place);
      }
    }
  }

  lemma BelowIt(n: nat, p: seq<nat>, q: seq<nat>)
    requires q != [] && (p == [] || Before(p, q))
    ensures Before([n] + p, [n] + q)
  {
    assert ([n] + p)[1..] == p && ([n] + q)[1..] == q;
  }

  // ----- the parts of the plan -----

  lemma {:induction false} ClassesHeld(wf: string, classes: seq<ClassSpec>)
    ensures var steps := AllClasses(wf, classes);
            |steps| == |classes| && forall i :: 0 <= i < |steps| ==> IsClass(wf, classes[i], steps[i])
  {
    hide EntityId, Spelled;
    if classes != [] {
      ClassesHeld(wf, classes[..|classes| - 1]);
      ClassSpelled(wf, classes[|classes| - 1].key);
    }
  }

  lemma SchemaHeld(wf: string, s: SchemaSpec)
    ensures IsSchema(wf, s, SchemaStep(wf, s))
  {
    hide EntityId, Spelled, ClassCalled, ClassIdOf;
    SchemaSpelled(wf, s.key);
    ClassCalledIs(wf, s.scope);
    forall i | 0 <= i < |s.options|
      ensures EntityId(wf, "schema", s.key + ":" + s.options[i].key) ==
              Spelled(wf, ":schema:" + s.key + ":" + s.options[i].key)
    {
      SchemaSpelled(wf, s.key + ":" + s.options[i].key);
      assert ":schema:" + (s.key + ":" + s.options[i].key) == ":schema:" + s.key + ":" + s.options[i].key;
    }
  }

  lemma {:induction false} SchemasHeld(wf: string, schemas: seq<SchemaSpec>)
    ensures var steps := AllSchemas(wf, schemas);
            |steps| == |schemas| && forall i :: 0 <= i < |steps| ==> IsSchema(wf, schemas[i], steps[i])
  {
    hide IsSchema, SchemaStep;
    if schemas != [] {
      SchemasHeld(wf, schemas[..|schemas| - 1]);
      SchemaHeld(wf, schemas[|schemas| - 1]);
    }
  }

  function Bound(schemas: seq<SchemaSpec>): (r: seq<SchemaSpec>)
    ensures forall s :: s in r <==> s in schemas && s.bindTo.Some?
  {
    if schemas == [] then []
    else
      var n := |schemas| - 1;
      assert schemas == schemas[..n] + [schemas[n]];
      Bound(schemas[..n]) + if schemas[n].bindTo.Some? then [schemas[n]] else []
  }

  lemma {:induction false} BindingsHeld(wf: string, schemas: seq<SchemaSpec>)
    ensures var steps := AllBindings(wf, schemas);
            && |steps| == |Bound(schemas)|
            && forall i :: 0 <= i < |steps| ==> IsBinding(wf, Bound(schemas)[i], steps[i])
  {
    hide EntityId, Spelled, ClassCalled, ClassIdOf;
    if schemas != [] {
      var last := schemas[|schemas| - 1];
      BindingsHeld(wf, schemas[..|schemas| - 1]);
      SchemaSpelled(wf, last.key);
      if last.bindTo.Some? { ClassCalledIs(wf, last.bindTo.value); }
    }
  }

  lemma BlocksHeld(wf: string, t: TemplateSpec, step: Step)
    ensures step in BlockSteps(wf, t.key, t.body, TemplateIdOf(wf, t.key), "") <==> exists v :: IsBlock(wf, t, v, step)
  {
    hide EntityId, BlockSteps, Grafts, IsBlock, Visits, Ascend, StepsAt, StepAt;
    var visits, id := Visits(t.body), TemplateIdOf(wf, t.key);
    TemplateSpelled(wf, t.key);
    BlocksVisited(wf, t.key, t.body, id, "", []);
    var steps := StepsAt(wf, t.key, [], visits);
    if step in steps {
      var i :| 0 <= i < |steps| && steps[i] == step;
      BlockHeld(wf, t, visits, i);
    }
    forall v | IsBlock(wf, t, v, step) ensures step in steps {
      BlockVisit(t, v, wf, step);
      var i :| 0 <= i < |visits| && visits[i] == v;
      BlockHeld(wf, t, visits, i);
      OneStep(wf, t, v, step, steps[i]);
    }
  }

  lemma BlockHeld(wf: string, t: TemplateSpec, visits: seq<Visit>, i: nat)
    requires i < |visits| && visits == Visits(t.body) && Keyed(visits)
    ensures IsBlock(wf, t, visits[i], StepsAt(wf, t.key, [], visits)[i])
  {
    hide Visits, IdAt, Leads;
    VisitsExact(t.body, visits[i]);
    LeadsSomewhere(t.body, visits[i].place, visits[i].keys, visits[i].block);
    assert [] + visits[i].keys == visits[i].keys;
  }

  lemma BlockVisit(t: TemplateSpec, v: Visit, wf: string, step: Step)
    requires IsBlock(wf, t, v, step) || IsGraft(wf, t, v, step)
    ensures v in Visits(t.body)
  {
    hide Visits, IdAt, Leads, Spelled;
    VisitsExact(t.body, v);
  }

  lemma OneStep(wf: string, t: TemplateSpec, v: Visit, a: Step, b: Step)
    requires IsBlock(wf, t, v, a) && IsBlock(wf, t, v, b)
    ensures a == b
  {
  }

  lemma {:induction false} GraftsListed(wf: string, t: string, visits: seq<Visit>, g: Graft)
    ensures g in GraftsAt(wf, t, [], visits) <==>
            exists v :: v in visits && v.block.graft.Some? && g == Graft(v.block.graft.value, IdAt(wf, t, v.keys))
  {
    hide IdAt;
    if visits != [] {
      var init, last := visits[..|visits| - 1], visits[|visits| - 1];
      GraftsListed(wf, t, init, g);
      assert visits == init + [last];
      assert [] + last.keys == last.keys;
    }
  }

  lemma GraftStepSpelled(wf: string, t: string, schemaKey: string, carrier: Id)
    ensures GraftStep(wf, TemplateIdOf(wf, t), Graft(schemaKey, carrier)) ==
            PropertySet(IdAt(wf, t, []), Spelled(wf, ":schema:" + schemaKey), carrier, None, 0)
  {
    hide EntityId, Spelled;
    TemplateSpelled(wf, t);
    SchemaSpelled(wf, schemaKey);
  }

  lemma GraftsHeld(wf: string, t: TemplateSpec, step: Step)
    ensures step in GraftSteps(wf, TemplateIdOf(wf, t.key), Grafts(wf, t.key, t.body, "")) <==>
            exists v :: IsGraft(wf, t, v, step)
  {
    hide EntityId, BlockSteps, Grafts, Visits, GraftStep, IsGraft, GraftsAt, Spelled;
    var visits, id := Visits(t.body), TemplateIdOf(wf, t.key);
    var grafts := Grafts(wf, t.key, t.body, "");
    TemplateSpelled(wf, t.key);
    BlocksVisited(wf, t.key, t.body, id, "", []);
    if step in GraftSteps(wf, id, grafts) {
      var i :| 0 <= i < |grafts| && step == GraftStep(wf, id, grafts[i]);
      assert grafts[i] in grafts;
      GraftFound(wf, t, grafts[i], step);
    }
    forall v | IsGraft(wf, t, v, step) ensures step in GraftSteps(wf, id, grafts) {
      GraftKept(wf, t, v, step);
      var g := Graft(v.block.graft.value, IdAt(wf, t.key, v.keys));
      var i :| 0 <= i < |grafts| && grafts[i] == g;
      assert GraftSteps(wf, id, grafts)[i] == step;
    }
  }

  lemma GraftFound(wf: string, t: TemplateSpec, g: Graft, step: Step)
    requires g in GraftsAt(wf, t.key, [], Visits(t.body)) && step == GraftStep(wf, TemplateIdOf(wf, t.key), g)
    ensures exists v :: IsGraft(wf, t, v, step)
  {
    hide IdAt, Visits, GraftsAt, GraftStep, Leads, Spelled, TemplateIdOf;
    GraftsListed(wf, t.key, Visits(t.body), g);
    var v :| v in Visits(t.body) && v.block.graft.Some? && g == Graft(v.block.graft.value, IdAt(wf, t.key, v.keys));
    VisitsExact(t.body, v);
    GraftStepSpelled(wf, t.key, v.block.graft.value, IdAt(wf, t.key, v.keys));
    assert IsGraft(wf, t, v, step);
  }

  lemma GraftKept(wf: string, t: TemplateSpec, v: Visit, step: Step)
    requires IsGraft(wf, t, v, step)
    ensures v.block.graft.Some?
    ensures var g := Graft(v.block.graft.value, IdAt(wf, t.key, v.keys));
            g in GraftsAt(wf, t.key, [], Visits(t.body)) && step == GraftStep(wf, TemplateIdOf(wf, t.key), g)
  {
    hide IdAt, Visits, GraftsAt, GraftStep, Leads, Spelled, TemplateIdOf;
    BlockVisit(t, v, wf, step);
    var g := Graft(v.block.graft.value, IdAt(wf, t.key, v.keys));
    GraftsListed(wf, t.key, Visits(t.body), g);
    GraftStepSpelled(wf, t.key, v.block.graft.value, IdAt(wf, t.key, v.keys));
  }

  lemma TemplateSpelledOut(wf: string, spec: WorkflowSpec, t: TemplateSpec, step: Step)
    ensures step == TemplateStep(wf, spec, t) <==> IsTemplate(wf, spec, t, step)
    ensures step == HasTemplateStep(wf, t) <==> IsHasTemplate(wf, t, step)
  {
    hide EntityId, Spelled, ClassIdOf, ClassCalled;
    TemplateSpelled(wf, t.key);
    TagSpelled(wf, spec.anchorKey);
    ClassCalledIs(wf, t.bindTo);
    TemplateSpelled(wf, t.key + ":hasTemplate");
    assert ":template:" + (t.key + ":hasTemplate") == ":template:" + t.key + ":hasTemplate";
  }

  lemma TemplateHeld(wf: string, spec: WorkflowSpec, t: TemplateSpec, step: Step)
    ensures step in TemplateSteps(wf, spec, t) <==> OfTemplate(wf, spec, t, step)
  {
    hide TemplateStep, HasTemplateStep, BlockSteps, GraftSteps, Grafts, IsTemplate, IsBlock, IsGraft, IsHasTemplate,
         TemplateIdOf;
    TemplateSpelledOut(wf, spec, t, step);
    BlocksHeld(wf, t, step);
    GraftsHeld(wf, t, step);
  }

  lemma {:induction false} TemplatesHeld(wf: string, spec: WorkflowSpec, templates: seq<TemplateSpec>, step: Step)
    ensures step in AllTemplates(wf, spec, templates) <==> exists t :: t in templates && OfTemplate(wf, spec, t, step)
  {
    hide TemplateSteps, OfTemplate;
    if templates != [] {
      var init, last := templates[..|templates| - 1], templates[|templates| - 1];
      TemplatesHeld(wf, spec, init, step);
      TemplateHeld(wf, spec, last, step);
      assert templates == init + [last];
    }
  }

  ghost predicate FromTemplates(wf: string, spec: WorkflowSpec, step: Step) {
    exists t :: t in spec.templates && OfTemplate(wf, spec, t, step)
  }

  /** The definition asks for the step. */
  ghost predicate Asked(wf: string, spec: WorkflowSpec, step: Step) {
    || IsPage(wf, spec, step)
    || (exists c :: c in spec.classes && IsClass(wf, c, step))
    || (exists s :: s in spec.schemas && (IsSchema(wf, s, step) || IsBinding(wf, s, step)))
    || FromTemplates(wf, spec, step)
  }

  lemma PageHeld(wf: string, spec: WorkflowSpec, step: Step)
    ensures step == AnchorStep(wf, spec) <==> IsPage(wf, spec, step)
  {
    hide EntityId, Spelled;
    TagSpelled(wf, spec.anchorKey);
  }

  lemma ClassAsked(wf: string, classes: seq<ClassSpec>, step: Step)
    ensures step in AllClasses(wf, classes) <==> exists c :: c in classes && IsClass(wf, c, step)
  {
    hide AllClasses, Spelled;
    ClassesHeld(wf, classes);
    forall c | c in classes && IsClass(wf, c, step) ensures step in AllClasses(wf, classes) {
      var i :| 0 <= i < |classes| && classes[i] == c;
      assert AllClasses(wf, classes)[i] == step;
    }
  }

  lemma OneSchema(wf: string, s: SchemaSpec, a: Step, b: Step)
    requires IsSchema(wf, s, a) && IsSchema(wf, s, b)
    ensures a == b
  {
    hide Spelled, ClassCalled;
    assert a.options == b.options;
  }

  lemma SchemaAsked(wf: string, schemas: seq<SchemaSpec>, step: Step)
    ensures step in AllSchemas(wf, schemas) <==> exists s :: s in schemas && IsSchema(wf, s, step)
  {
    hide AllSchemas, IsSchema;
    SchemasHeld(wf, schemas);
    forall s | s in schemas && IsSchema(wf, s, step) ensures step in AllSchemas(wf, schemas) {
      var i :| 0 <= i < |schemas| && schemas[i] == s;
      OneSchema(wf, s, step, AllSchemas(wf, schemas)[i]);
    }
  }

  lemma BindingAsked(wf: string, schemas: seq<SchemaSpec>, step: Step)
    ensures step in AllBindings(wf, schemas) <==> exists s :: s in schemas && IsBinding(wf, s, step)
  {
    hide AllBindings, Spelled, ClassCalled;
    BindingsHeld(wf, schemas);
    forall s | s in schemas && IsBinding(wf, s, step) ensures step in AllBindings(wf, schemas) {
      assert s in Bound(schemas);
      var i :| 0 <= i < |Bound(schemas)| && Bound(schemas)[i] == s;
      assert AllBindings(wf, schemas)[i] == step;
    }
  }

  /** The plan holds exactly the steps the definition asks for. */
  lemma PlanHolds(wf: string, spec: WorkflowSpec, step: Step)
    ensures step in Enable(wf, spec) <==> Asked(wf, spec, step)
  {
    hide AnchorStep, AllClasses, AllSchemas, AllBindings, AllTemplates, IsPage, IsClass, IsSchema, IsBinding,
         OfTemplate;
    PageHeld(wf, spec, step);
    ClassAsked(wf, spec.classes, step);
    SchemaAsked(wf, spec.schemas, step);
    BindingAsked(wf, spec.schemas, step);
    TemplatesHeld(wf, spec, spec.templates, step);
  }

  // ----- the order of the plan -----

  /**
   The anchor page, the classes, the schemas and the bindings, each in the order of the definition,
   and the templates behind them.
   */
  lemma PlanOrder(wf: string, spec: WorkflowSpec)
    ensures var steps, c, s, b := Enable(wf, spec), |spec.classes|, |spec.schemas|, |Bound(spec.schemas)|;
            && |steps| >= 1 + c + s + b && IsPage(wf, spec, steps[0])
            && (forall i :: 0 <= i < c ==> IsClass(wf, spec.classes[i], steps[1 + i]))
            && (forall i :: 0 <= i < s ==> IsSchema(wf, spec.schemas[i], steps[1 + c + i]))
            && (forall i :: 0 <= i < b ==> IsBinding(wf, Bound(spec.schemas)[i], steps[1 + c + s + i]))
            && forall i :: 1 + c + s + b <= i < |steps| ==> FromTemplates(wf, spec, steps[i])
  {
    hide AnchorStep, AllClasses, AllSchemas, AllBindings, AllTemplates, IsPage, IsClass, IsSchema, IsBinding,
         OfTemplate;
    var templates := AllTemplates(wf, spec, spec.templates);
    var front := 1 + |spec.classes| + |spec.schemas| + |Bound(spec.schemas)|;
    PageHeld(wf, spec, AnchorStep(wf, spec));
    ClassesHeld(wf, spec.classes);
    SchemasHeld(wf, spec.schemas);
    BindingsHeld(wf, spec.schemas);
    forall i | front <= i < |Enable(wf, spec)| ensures FromTemplates(wf, spec, Enable(wf, spec)[i]) {
      assert Enable(wf, spec)[i] == templates[i - front];
      TemplatesHeld(wf, spec, spec.templates, templates[i - front]);
    }
  }

  /**
   A template's part: its node, its blocks in outline order, a grafted value for each block that
   names a schema, in the same order, and the has-template value.
   */
  lemma TemplateOrder(wf: string, spec: WorkflowSpec, t: TemplateSpec)
    ensures var steps, visits := TemplateSteps(wf, spec, t), Visits(t.body);
            var grafted := Grafted(visits);
            && Ascend(visits) && (forall v :: v in visits <==> Leads(t.body, v.place, v.keys, v.block))
            && |steps| == 2 + |visits| + |grafted|
            && IsTemplate(wf, spec, t, steps[0]) && IsHasTemplate(wf, t, steps[|steps| - 1])
            && (forall i :: 0 <= i < |visits| ==> IsBlock(wf, t, visits[i], steps[1 + i]))
            && (forall i :: 0 <= i < |grafted| ==> IsGraft(wf, t, grafted[i], steps[1 + |visits| + i]))
  {
    hide TemplateStep, HasTemplateStep, BlockSteps, Grafts, IsTemplate, IsBlock, IsGraft, IsHasTemplate, GraftStep,
         TemplateIdOf, Visits, Ascend, Leads, GraftsAt, StepsAt, Grafted;
    var visits, id := Visits(t.body), TemplateIdOf(wf, t.key);
    VisitsAscend(t.body);
    forall v ensures v in visits <==> Leads(t.body, v.place, v.keys, v.block) {
      VisitsExact(t.body, v);
    }
    TemplateIsIdAt(wf, t.key);
    BlocksVisited(wf, t.key, t.body, id, "", []);
    TemplateSpelledOut(wf, spec, t, TemplateStep(wf, spec, t));
    TemplateSpelledOut(wf, spec, t, HasTemplateStep(wf, t));
    forall i | 0 <= i < |visits| ensures IsBlock(wf, t, visits[i], TemplateSteps(wf, spec, t)[1 + i]) {
      BlockHeld(wf, t, visits, i);
    }
    var grafts := GraftsAt(wf, t.key, [], visits);
    GraftsAreOf(wf, t.key, visits);
    forall i | 0 <= i < |grafts|
      ensures IsGraft(wf, t, Grafted(visits)[i], TemplateSteps(wf, spec, t)[1 + |visits| + i])
    {
      GraftHeld(wf, t, Grafted(visits)[i]);
    }
  }

  lemma TemplateIsIdAt(wf: string, t: string)
    ensures TemplateIdOf(wf, t) == IdAt(wf, t, []) && Joined(Trace([])) == ""
  {
    hide EntityId, Spelled;
    TemplateSpelled(wf, t);
  }

  function Grafted(visits: seq<Visit>): (r: seq<Visit>)
    ensures forall v :: v in r <==> v in visits && v.block.graft.Some?
  {
    if visits == [] then []
    else
      var n := |visits| - 1;
      assert visits == visits[..n] + [visits[n]];
      Grafted(visits[..n]) + if visits[n].block.graft.Some? then [visits[n]] else []
  }

  lemma {:induction false} GraftsAreOf(wf: string, t: string, visits: seq<Visit>)
    ensures var grafts, grafted := GraftsAt(wf, t, [], visits), Grafted(visits);
            && |grafts| == |grafted|
            && forall i :: 0 <= i < |grafts| ==>
                 grafted[i] in visits && grafted[i].block.graft.Some? &&
                 grafts[i] == Graft(grafted[i].block.graft.value, IdAt(wf, t, grafted[i].keys))
  {
    hide IdAt;
    if visits != [] {
      var init, last := visits[..|visits| - 1], visits[|visits| - 1];
      GraftsAreOf(wf, t, init);
      assert visits == init + [last];
      assert [] + last.keys == last.keys;
    }
  }

  lemma GraftHeld(wf: string, t: TemplateSpec, v: Visit)
    requires v in Visits(t.body) && v.block.graft.Some?
    ensures var g := Graft(v.block.graft.value, IdAt(wf, t.key, v.keys));
            IsGraft(wf, t, v, GraftStep(wf, TemplateIdOf(wf, t.key), g))
  {
    hide IdAt, Visits, GraftStep, Leads, Spelled, TemplateIdOf;
    VisitsExact(t.body, v);
    GraftStepSpelled(wf, t.key, v.block.graft.value, IdAt(wf, t.key, v.keys));
  }

  // ----- disabling -----

  lemma {:induction false} ClassesArchivedInOrder(wf: string, classes: seq<ClassSpec>)
    ensures var steps := ArchiveClasses(wf, classes);
            && |steps| == |classes|
            && forall i :: 0 <= i < |steps| ==> steps[i] == ObjectUpdate(Spelled(wf, ":class:" + classes[i].key), false)
  {
    hide EntityId, Spelled;
    if classes != [] {
      ClassesArchivedInOrder(wf, classes[..|classes| - 1]);
      ClassSpelled(wf, classes[|classes| - 1].key);
    }
  }

  lemma {:induction false} TemplatesArchivedInOrder(wf: string, templates: seq<TemplateSpec>)
    ensures var steps := ArchiveTemplates(wf, templates);
            && |steps| == |templates|
            && forall i :: 0 <= i < |steps| ==> steps[i] == ObjectUpdate(IdAt(wf, templates[i].key, []), false)
  {
    hide TemplateIdOf, IdAt;
    if templates != [] {
      TemplatesArchivedInOrder(wf, templates[..|templates| - 1]);
      TemplateIsIdAt(wf, templates[|templates| - 1].key);
    }
  }

  /** Disabling archives the anchor page, every class and every template's node, and does nothing else. */
  lemma DisableHolds(wf: string, spec: WorkflowSpec)
    ensures var steps, c := Disable(wf, spec), |spec.classes|;
            && |steps| == 1 + c + |spec.templates|
            && steps[0] == ObjectUpdate(Spelled(wf, ":tag:" + spec.anchorKey), false)
            && (forall i :: 0 <= i < c ==>
                 steps[1 + i] == ObjectUpdate(Spelled(wf, ":class:" + spec.classes[i].key), false))
            && forall i :: 0 <= i < |spec.templates| ==>
                 steps[1 + c + i] == ObjectUpdate(IdAt(wf, spec.templates[i].key, []), false)
  {
    hide EntityId, Spelled, IdAt, ArchiveClasses, ArchiveTemplates;
    TagSpelled(wf, spec.anchorKey);
    ClassesArchivedInOrder(wf, spec.classes);
    TemplatesArchivedInOrder(wf, spec.templates);
  }
}
