/**
 What every plan keeps: no step refers to an id that neither a seed nor an earlier step
 provides.
 */
module WorkflowPlan {
  import opened Workflows
  import opened Wrappers

  ghost function OptionIds(options: seq<SchemaOption>): seq<Id> {
    seq(|options|, i requires 0 <= i < |options| => options[i].id)
  }

  /** The ids a step brings into being. */
  ghost function Created(step: Step): seq<Id> {
    match step
    case ObjectCreate(id, _, _, _, _) => [id]
    case ClassCreate(id, _, _, _) => [id]
    case SchemaCreate(id, _, _, _, _, options, _) => [id] + OptionIds(options)
    case ClassPropertySet(_, _) => []
    case PropertySet(_, _, _, elementId, _) => if elementId.Some? then [elementId.value] else []
    case ObjectUpdate(_, _) => []
  }

  /** The ids that must exist when the step is applied. */
  ghost function Refers(step: Step): seq<Id> {
    match step
    case ObjectCreate(_, parent, classIds, tagIds, _) =>
      (if parent.Some? then [parent.value] else []) + classIds + tagIds
    case ClassCreate(_, _, _, _) => []
    case SchemaCreate(_, _, _, _, scopeClassIds, _, _) => scopeClassIds
    case ClassPropertySet(classId, schemaId) => [classId, schemaId]
    case PropertySet(target, schemaId, node, _, _) => [target, schemaId, node]
    case ObjectUpdate(id, _) => [id]
  }

  ghost function CreatedBy(steps: seq<Step>): seq<Id> {
    if steps == [] then [] else CreatedBy(steps[..|steps| - 1]) + Created(steps[|steps| - 1])
  }

  ghost function IdSet(steps: seq<Step>): set<Id> {
    set id | id in CreatedBy(steps)
  }

  ghost predicate Resolved(known: set<Id>, step: Step) {
    forall id :: id in Refers(step) ==> !id.Derived? || id in known
  }

  /** Each step refers to seeds, to `known` ids, or to what the steps before it created. */
  ghost predicate DefinedAfter(known: set<Id>, steps: seq<Step>) {
    forall i :: 0 <= i < |steps| ==> Resolved(known + IdSet(steps[..i]), steps[i])
  }

  lemma {:induction false} CreatedJoins(a: seq<Step>, b: seq<Step>)
    ensures CreatedBy(a + b) == CreatedBy(a) + CreatedBy(b)
    ensures IdSet(a + b) == IdSet(a) + IdSet(b)
  {
    hide Created;
    if b == [] {
      assert a + b == a;
    } else {
      CreatedJoins(a, b[..|b| - 1]);
      assert (a + b)[..|a + b| - 1] == a + b[..|b| - 1];
    }
  }

  lemma DefinedJoins(known: set<Id>, a: seq<Step>, b: seq<Step>)
    requires DefinedAfter(known, a) && DefinedAfter(known + IdSet(a), b)
    ensures DefinedAfter(known, a + b)
  {
    hide Resolved, IdSet;
    forall i | 0 <= i < |a + b| ensures Resolved(known + IdSet((a + b)[..i]), (a + b)[i]) {
      if i < |a| {
        assert (a + b)[..i] == a[..i];
      } else {
        assert (a + b)[..i] == a + b[..i - |a|];
        CreatedJoins(a, b[..i - |a|]);
        assert known + IdSet(a + b[..i - |a|]) == known + IdSet(a) + IdSet(b[..i - |a|]);
      }
    }
  }

  lemma DefinedOne(known: set<Id>, step: Step)
    requires Resolved(known, step)
    ensures DefinedAfter(known, [step]) && CreatedBy([step]) == Created(step)
  {
    hide Refers;
    assert [step][..0] == [];
    assert CreatedBy([step]) == CreatedBy([]) + Created(step);
    assert IdSet([]) == {};
    assert known + IdSet([]) == known;
  }

  // ----- declared references -----

  ghost predicate KnownClass(spec: WorkflowSpec, key: string) {
    Materialized(key) ==> exists c :: c in spec.classes && c.key == key
  }

  ghost predicate KnownSchema(spec: WorkflowSpec, key: string) {
    exists s :: s in spec.schemas && s.key == key
  }

  ghost predicate GraftsDeclared(spec: WorkflowSpec, blocks: seq<BlockSpec>) {
    forall b :: b in blocks ==> (b.graft.Some? ==> KnownSchema(spec, b.graft.value)) && GraftsDeclared(spec, b.children)
  }

  /** Every class and schema the definition names is one of its own or a seeded one. */
  ghost predicate Declared(spec: WorkflowSpec) {
    && (forall s :: s in spec.schemas ==>
         KnownClass(spec, s.scope) && (s.bindTo.Some? ==> KnownClass(spec, s.bindTo.value)))
    && (forall t :: t in spec.templates ==> KnownClass(spec, t.bindTo) && GraftsDeclared(spec, t.body))
  }

  // ----- what each part of the plan creates -----

  lemma {:induction false} ClassesCreated(wf: string, classes: seq<ClassSpec>)
    ensures forall c :: c in classes ==> EntityId(wf, "class", c.key) in CreatedBy(AllClasses(wf, classes))
  {
    hide EntityId;
    if classes != [] {
      var init, last := classes[..|classes| - 1], classes[|classes| - 1];
      ClassesCreated(wf, init);
      CreatedStep(AllClasses(wf, init), ClassStep(wf, last));
      assert classes == init + [last];
    }
  }

  lemma CreatedStep(steps: seq<Step>, step: Step)
    ensures CreatedBy(steps + [step]) == CreatedBy(steps) + Created(step)
  {
    hide Created;
    assert (steps + [step])[..|steps|] == steps;
  }

  lemma {:induction false} SchemasCreated(wf: string, schemas: seq<SchemaSpec>)
    ensures forall s :: s in schemas ==> SchemaIdOf(wf, s.key) in CreatedBy(AllSchemas(wf, schemas))
  {
    hide SchemaIdOf, SchemaOptions, OptionIds, ClassIdOf;
    if schemas != [] {
      var init, last := schemas[..|schemas| - 1], schemas[|schemas| - 1];
      SchemasCreated(wf, init);
      CreatedStep(AllSchemas(wf, init), SchemaStep(wf, last));
      assert schemas == init + [last];
    }
  }

  /** The classes and schemas are there: what the later parts of the plan may rely on. */
  ghost predicate Installed(wf: string, spec: WorkflowSpec, known: set<Id>) {
    && AnchorId(wf, spec) in known
    && (forall c :: c in spec.classes ==> EntityId(wf, "class", c.key) in known)
    && (forall s :: s in spec.schemas ==> SchemaIdOf(wf, s.key) in known)
  }

  lemma ClassResolves(wf: string, spec: WorkflowSpec, key: string, known: set<Id>)
    requires KnownClass(spec, key) && forall c :: c in spec.classes ==> EntityId(wf, "class", c.key) in known
    ensures ClassIdOf(wf, key).Derived? ==> ClassIdOf(wf, key) in known
  {
    hide EntityId, Materialized;
  }

  lemma SchemaResolves(wf: string, spec: WorkflowSpec, key: string, known: set<Id>)
    requires KnownSchema(spec, key) && Installed(wf, spec, known)
    ensures SchemaIdOf(wf, key) in known
  {
    hide EntityId;
  }

  lemma InstalledMore(wf: string, spec: WorkflowSpec, known: set<Id>, more: set<Id>)
    requires Installed(wf, spec, known) && known <= more
    ensures Installed(wf, spec, more)
  {
    hide EntityId;
  }

  // ----- each part is defined after what comes before -----

  lemma {:induction false} ClassesDefined(wf: string, classes: seq<ClassSpec>, known: set<Id>)
    ensures DefinedAfter(known, AllClasses(wf, classes))
  {
    hide DefinedAfter, EntityId;
    if classes == [] {
      NothingDefined(known);
    } else {
      var steps := AllClasses(wf, classes[..|classes| - 1]);
      ClassesDefined(wf, classes[..|classes| - 1], known);
      DefinedOne(known + IdSet(steps), ClassStep(wf, classes[|classes| - 1]));
      DefinedJoins(known, steps, [ClassStep(wf, classes[|classes| - 1])]);
    }
  }

  lemma NothingDefined(known: set<Id>)
    ensures DefinedAfter(known, [])
  {
  }

  lemma {:induction false} SchemasDefined(wf: string, spec: WorkflowSpec, schemas: seq<SchemaSpec>, known: set<Id>)
    requires forall c :: c in spec.classes ==> EntityId(wf, "class", c.key) in known
    requires forall s :: s in schemas ==> KnownClass(spec, s.scope)
    ensures DefinedAfter(known, AllSchemas(wf, schemas))
  {
    hide DefinedAfter, EntityId, ClassIdOf, SchemaOptions, KnownClass;
    if schemas == [] {
      NothingDefined(known);
    } else {
      var steps, last := AllSchemas(wf, schemas[..|schemas| - 1]), schemas[|schemas| - 1];
      SchemasDefined(wf, spec, schemas[..|schemas| - 1], known);
      ClassResolves(wf, spec, last.scope, known);
      DefinedOne(known + IdSet(steps), SchemaStep(wf, last));
      DefinedJoins(known, steps, [SchemaStep(wf, last)]);
    }
  }

  lemma BindingDefined(wf: string, spec: WorkflowSpec, s: SchemaSpec, known: set<Id>)
    requires Installed(wf, spec, known) && s in spec.schemas && (s.bindTo.Some? ==> KnownClass(spec, s.bindTo.value))
    ensures DefinedAfter(known, BindingSteps(wf, s))
  {
    hide DefinedAfter, EntityId, ClassIdOf, SchemaIdOf, KnownClass;
    if s.bindTo.Some? {
      ClassResolves(wf, spec, s.bindTo.value, known);
      DefinedOne(known, ClassPropertySet(ClassIdOf(wf, s.bindTo.value), SchemaIdOf(wf, s.key)));
    } else {
      NothingDefined(known);
    }
  }

  lemma {:induction false} BindingsDefined(wf: string, spec: WorkflowSpec, schemas: seq<SchemaSpec>, known: set<Id>)
    requires Installed(wf, spec, known)
    requires forall s :: s in schemas ==> s in spec.schemas && (s.bindTo.Some? ==> KnownClass(spec, s.bindTo.value))
    ensures DefinedAfter(known, AllBindings(wf, schemas))
  {
    hide DefinedAfter, BindingSteps, KnownClass, Installed, IdSet;
    if schemas == [] {
      NothingDefined(known);
    } else {
      var steps, last := AllBindings(wf, schemas[..|schemas| - 1]), schemas[|schemas| - 1];
      BindingsDefined(wf, spec, schemas[..|schemas| - 1], known);
      InstalledMore(wf, spec, known, known + IdSet(steps));
      BindingDefined(wf, spec, last, known + IdSet(steps));
      DefinedJoins(known, steps, BindingSteps(wf, last));
    }
  }

  lemma {:induction false} BlocksDefined(
      wf: string, t: string, blocks: seq<BlockSpec>, parent: Id, prefix: string, known: set<Id>)
    requires parent in known
    ensures DefinedAfter(known, BlockSteps(wf, t, blocks, parent, prefix))
    decreases blocks, 0
  {
    hide DefinedAfter, OneBlock, Resolved, IdSet;
    if blocks == [] {
      NothingDefined(known);
    } else {
      var steps, last := BlockSteps(wf, t, blocks[..|blocks| - 1], parent, prefix), blocks[|blocks| - 1];
      BlocksDefined(wf, t, blocks[..|blocks| - 1], parent, prefix, known);
      OneBlockDefined(wf, t, last, parent, prefix, known + IdSet(steps));
      DefinedJoins(known, steps, OneBlock(wf, t, last, parent, prefix));
    }
  }

  lemma {:induction false} OneBlockDefined(
      wf: string, t: string, block: BlockSpec, parent: Id, prefix: string, known: set<Id>)
    requires parent in known
    ensures DefinedAfter(known, OneBlock(wf, t, block, parent, prefix))
    decreases block, 1
  {
    hide DefinedAfter, BlockSteps, BlockPath, BlockId;
    var path := BlockPath(prefix, block.key);
    var id := BlockId(wf, t, path);
    var create := ObjectCreate(id, Some(parent), [], [], block.content);
    DefinedOne(known, create);
    BlocksDefined(wf, t, block.children, id, path, known + IdSet([create]));
    DefinedJoins(known, [create], BlockSteps(wf, t, block.children, id, path));
  }

  /** Every graft names a declared schema, and its carrier is one of the blocks. */
  ghost predicate GraftsKnown(spec: WorkflowSpec, grafts: seq<Graft>, ids: seq<Id>) {
    forall g :: g in grafts ==> KnownSchema(spec, g.schemaKey) && g.carrierId in ids
  }

  lemma {:induction false} CarriersCreated(
      wf: string, spec: WorkflowSpec, t: string, blocks: seq<BlockSpec>, parent: Id, prefix: string)
    requires GraftsDeclared(spec, blocks)
    ensures GraftsKnown(spec, Grafts(wf, t, blocks, prefix), CreatedBy(BlockSteps(wf, t, blocks, parent, prefix)))
    decreases blocks, 0
  {
    hide OneBlock, BlockGrafts, KnownSchema, Created;
    if blocks != [] {
      var init, last := blocks[..|blocks| - 1], blocks[|blocks| - 1];
      CarriersCreated(wf, spec, t, init, parent, prefix);
      BlockCarriers(wf, spec, t, last, parent, prefix);
      CreatedJoins(BlockSteps(wf, t, init, parent, prefix), OneBlock(wf, t, last, parent, prefix));
    }
  }

  lemma {:induction false} BlockCarriers(
      wf: string, spec: WorkflowSpec, t: string, block: BlockSpec, parent: Id, prefix: string)
    requires block.graft.Some? ==> KnownSchema(spec, block.graft.value)
    requires GraftsDeclared(spec, block.children)
    ensures GraftsKnown(spec, BlockGrafts(wf, t, block, prefix), CreatedBy(OneBlock(wf, t, block, parent, prefix)))
    decreases block, 1
  {
    hide BlockSteps, Grafts, KnownSchema, BlockPath, BlockId, GraftsDeclared;
    var path := BlockPath(prefix, block.key);
    var id := BlockId(wf, t, path);
    var create := ObjectCreate(id, Some(parent), [], [], block.content);
    CarriersCreated(wf, spec, t, block.children, id, path);
    CreatedJoins([create], BlockSteps(wf, t, block.children, id, path));
    assert CreatedBy([create]) == CreatedBy([]) + [id];
  }

  lemma GraftStepsDefined(
      wf: string, spec: WorkflowSpec, templateId: Id, grafts: seq<Graft>, ids: seq<Id>, known: set<Id>)
    requires Installed(wf, spec, known) && templateId in known && GraftsKnown(spec, grafts, ids)
    requires forall id :: id in ids ==> id in known
    ensures DefinedAfter(known, GraftSteps(wf, templateId, grafts))
  {
    hide SchemaIdOf, IdSet, KnownSchema, Installed;
    var steps := GraftSteps(wf, templateId, grafts);
    forall i | 0 <= i < |steps| ensures Resolved(known + IdSet(steps[..i]), steps[i]) {
      assert grafts[i] in grafts;
      SchemaResolves(wf, spec, grafts[i].schemaKey, known);
    }
  }

  lemma TemplateStarts(wf: string, spec: WorkflowSpec, t: TemplateSpec, known: set<Id>)
    requires Installed(wf, spec, known) && KnownClass(spec, t.bindTo)
    ensures DefinedAfter(known, [TemplateStep(wf, spec, t)])
    ensures TemplateIdOf(wf, t.key) in IdSet([TemplateStep(wf, spec, t)])
  {
    hide EntityId, ClassIdOf, KnownClass, DefinedAfter;
    ClassResolves(wf, spec, t.bindTo, known);
    DefinedOne(known, TemplateStep(wf, spec, t));
  }

  lemma TemplateEnds(wf: string, spec: WorkflowSpec, t: TemplateSpec, known: set<Id>)
    requires Installed(wf, spec, known) && KnownClass(spec, t.bindTo) && TemplateIdOf(wf, t.key) in known
    ensures DefinedAfter(known, [HasTemplateStep(wf, t)])
  {
    hide EntityId, ClassIdOf, KnownClass, DefinedAfter;
    ClassResolves(wf, spec, t.bindTo, known);
    DefinedOne(known, HasTemplateStep(wf, t));
  }

  /** The template's node and blocks, and after them the grafted values. */
  lemma BodyDefined(wf: string, spec: WorkflowSpec, t: TemplateSpec, known: set<Id>)
    requires Installed(wf, spec, known) && GraftsDeclared(spec, t.body)
    requires TemplateIdOf(wf, t.key) in known
    ensures var id := TemplateIdOf(wf, t.key);
            DefinedAfter(known,
              BlockSteps(wf, t.key, t.body, id, "") + GraftSteps(wf, id, Grafts(wf, t.key, t.body, "")))
  {
    hide DefinedAfter, BlockSteps, Grafts, GraftSteps, GraftsKnown, TemplateIdOf, Installed, GraftsDeclared;
    var id := TemplateIdOf(wf, t.key);
    var blocks, grafts := BlockSteps(wf, t.key, t.body, id, ""), Grafts(wf, t.key, t.body, "");
    BlocksDefined(wf, t.key, t.body, id, "", known);
    CarriersCreated(wf, spec, t.key, t.body, id, "");
    InstalledMore(wf, spec, known, known + IdSet(blocks));
    GraftStepsDefined(wf, spec, id, grafts, CreatedBy(blocks), known + IdSet(blocks));
    DefinedJoins(known, blocks, GraftSteps(wf, id, grafts));
  }

  lemma TemplateDefined(wf: string, spec: WorkflowSpec, t: TemplateSpec, known: set<Id>)
    requires Installed(wf, spec, known) && KnownClass(spec, t.bindTo) && GraftsDeclared(spec, t.body)
    ensures DefinedAfter(known, TemplateSteps(wf, spec, t))
  {
    hide DefinedAfter, BlockSteps, Grafts, GraftSteps, TemplateIdOf, KnownClass, GraftsDeclared, Installed, IdSet,
         TemplateStep, HasTemplateStep;
    var root, end, id := [TemplateStep(wf, spec, t)], [HasTemplateStep(wf, t)], TemplateIdOf(wf, t.key);
    var body := BlockSteps(wf, t.key, t.body, id, "") + GraftSteps(wf, id, Grafts(wf, t.key, t.body, ""));
    TemplateStarts(wf, spec, t, known);
    InstalledMore(wf, spec, known, known + IdSet(root));
    BodyDefined(wf, spec, t, known + IdSet(root));
    DefinedJoins(known, root, body);
    CreatedJoins(root, body);
    InstalledMore(wf, spec, known, known + IdSet(root + body));
    TemplateEnds(wf, spec, t, known + IdSet(root + body));
    DefinedJoins(known, root + body, end);
    assert TemplateSteps(wf, spec, t) == root + body + end;
  }

  lemma {:induction false} TemplatesDefined(
      wf: string, spec: WorkflowSpec, templates: seq<TemplateSpec>, known: set<Id>)
    requires Installed(wf, spec, known)
    requires forall t :: t in templates ==> KnownClass(spec, t.bindTo) && GraftsDeclared(spec, t.body)
    ensures DefinedAfter(known, AllTemplates(wf, spec, templates))
  {
    hide DefinedAfter, TemplateSteps, Installed, KnownClass, GraftsDeclared, IdSet;
    if templates == [] {
      NothingDefined(known);
    } else {
      var steps, last := AllTemplates(wf, spec, templates[..|templates| - 1]), templates[|templates| - 1];
      TemplatesDefined(wf, spec, templates[..|templates| - 1], known);
      InstalledMore(wf, spec, known, known + IdSet(steps));
      TemplateDefined(wf, spec, last, known + IdSet(steps));
      DefinedJoins(known, steps, TemplateSteps(wf, spec, last));
    }
  }

  /**
   In the plan of every definition whose references are declared, each step refers only
   to seeded ids and to ids that earlier steps of the plan created.
   */
  lemma DefinedBeforeUse(wf: string, spec: WorkflowSpec)
    requires Declared(spec)
    ensures DefinedAfter({}, Enable(wf, spec))
  {
    hide DefinedAfter, AllClasses, AllSchemas, AllBindings, AllTemplates, EntityId, KnownClass, GraftsDeclared;
    var anchor := [AnchorStep(wf, spec)];
    var classes, schemas := AllClasses(wf, spec.classes), AllSchemas(wf, spec.schemas);
    var bindings, templates := AllBindings(wf, spec.schemas), AllTemplates(wf, spec, spec.templates);
    DefinedOne({}, AnchorStep(wf, spec));
    ClassesDefined(wf, spec.classes, {} + IdSet(anchor));
    DefinedJoins({}, anchor, classes);
    CreatedJoins(anchor, classes);
    ClassesCreated(wf, spec.classes);
    SchemasDefined(wf, spec, spec.schemas, {} + IdSet(anchor + classes));
    DefinedJoins({}, anchor + classes, schemas);
    CreatedJoins(anchor + classes, schemas);
    SchemasCreated(wf, spec.schemas);
    var k := {} + IdSet(anchor + classes + schemas);
    assert Installed(wf, spec, k);
    BindingsDefined(wf, spec, spec.schemas, k);
    DefinedJoins({}, anchor + classes + schemas, bindings);
    CreatedJoins(anchor + classes + schemas, bindings);
    InstalledMore(wf, spec, k, {} + IdSet(anchor + classes + schemas + bindings));
    TemplatesDefined(wf, spec, spec.templates, {} + IdSet(anchor + classes + schemas + bindings));
    DefinedJoins({}, anchor + classes + schemas + bindings, templates);
  }
}
