/**
 Workflow definitions and the pure planner: the steps that enable a workflow and the
 steps that disable it.
 */
module Workflows {
  import opened Wrappers

  // ----- ids -----

  /** An id derived from a name, or the fixed id of a seeded class or property. */
  datatype Id = Derived(name: string) | SystemClass(name: string) | SystemProperty(name: string)

  function EntityId(wf: string, kind: string, key: string): Id {
    Derived("notees:workflow:" + wf + ":" + (kind + ":" + key))
  }

  // ----- the definition model -----

  datatype Content = TextAst(text: string) | Authored(ast: string)

  datatype ClassSpec = ClassSpec(key: string, title: string, icon: string, description: string)

  datatype OptionSpec = OptionSpec(key: string, title: string)

  datatype SchemaSpec = SchemaSpec(
    key: string, name: string, kind: string, multi: bool, scope: string, bindTo: Option<string>,
    hideWhenEmpty: bool, options: seq<OptionSpec>)

  datatype BlockSpec = BlockSpec(key: string, content: Content, graft: Option<string>, children: seq<BlockSpec>)

  datatype TemplateSpec = TemplateSpec(
    key: string, title: string, bindTo: string, tagAnchor: bool, body: seq<BlockSpec>)

  datatype WorkflowSpec = WorkflowSpec(
    anchorKey: string, anchorTitle: string, classes: seq<ClassSpec>, schemas: seq<SchemaSpec>,
    templates: seq<TemplateSpec>)

  // ----- the steps -----

  datatype SchemaOption = SchemaOption(id: Id, title: string)

  datatype Step =
    | ObjectCreate(objectId: Id, parentId: Option<Id>, classIds: seq<Id>, tagIds: seq<Id>, content: Content)
    | ClassCreate(classId: Id, content: Content, icon: string, description: string)
    | SchemaCreate(schemaId: Id, name: string, kind: string, multi: bool, scopeClassIds: seq<Id>,
                   options: seq<SchemaOption>, hideWhenEmpty: bool)
    | ClassPropertySet(boundClassId: Id, boundSchemaId: Id)
    | PropertySet(targetId: Id, propertySchemaId: Id, nodeId: Id, elementId: Option<Id>, idx: nat)
    | ObjectUpdate(archivedId: Id, active: bool)

  datatype Graft = Graft(schemaKey: string, carrierId: Id)

  function AnchorId(wf: string, spec: WorkflowSpec): Id {
    EntityId(wf, "tag", spec.anchorKey)
  }

  predicate Materialized(key: string) {
    key == "synthesis" || key == "comparison" || key == "source_instance"
  }

  /** The workflow's own classes have derived ids, the others are seeded. */
  function ClassIdOf(wf: string, key: string): Id {
    if Materialized(key) then EntityId(wf, "class", key) else SystemClass(key)
  }

  function SchemaIdOf(wf: string, key: string): Id {
    EntityId(wf, "schema", key)
  }

  function TemplateIdOf(wf: string, key: string): Id {
    EntityId(wf, "template", key)
  }

  // ----- enabling -----

  function AnchorStep(wf: string, spec: WorkflowSpec): Step {
    ObjectCreate(AnchorId(wf, spec), None, [], [], TextAst(spec.anchorTitle))
  }

  function ClassStep(wf: string, c: ClassSpec): Step {
    ClassCreate(EntityId(wf, "class", c.key), TextAst(c.title), c.icon, c.description)
  }

  function SchemaOptions(wf: string, schemaKey: string, options: seq<OptionSpec>): seq<SchemaOption> {
    seq(|options|, i requires 0 <= i < |options| =>
      SchemaOption(EntityId(wf, "schema", schemaKey + ":" + options[i].key), options[i].title))
  }

  function SchemaStep(wf: string, s: SchemaSpec): Step {
    SchemaCreate(SchemaIdOf(wf, s.key), s.name, s.kind, s.multi, [ClassIdOf(wf, s.scope)],
                 SchemaOptions(wf, s.key, s.options), s.hideWhenEmpty)
  }

  function BindingSteps(wf: string, s: SchemaSpec): seq<Step> {
    if s.bindTo.None? then [] else [ClassPropertySet(ClassIdOf(wf, s.bindTo.value), SchemaIdOf(wf, s.key))]
  }

  /** A block's key is its path below the template. */
  function BlockPath(prefix: string, key: string): string {
    if prefix == "" then key else prefix + "/" + key
  }

  function BlockId(wf: string, t: string, path: string): Id {
    EntityId(wf, "template", t + "/" + path)
  }

  function BlockSteps(wf: string, t: string, blocks: seq<BlockSpec>, parent: Id, prefix: string): seq<Step> {
    if blocks == [] then []
    else
      BlockSteps(wf, t, blocks[..|blocks| - 1], parent, prefix) +
      OneBlock(wf, t, blocks[|blocks| - 1], parent, prefix)
  }

  /** The block, then everything below it. */
  function OneBlock(wf: string, t: string, block: BlockSpec, parent: Id, prefix: string): seq<Step> {
    var path := BlockPath(prefix, block.key);
    [ObjectCreate(BlockId(wf, t, path), Some(parent), [], [], block.content)] +
    BlockSteps(wf, t, block.children, BlockId(wf, t, path), path)
  }

  function Grafts(wf: string, t: string, blocks: seq<BlockSpec>, prefix: string): seq<Graft> {
    if blocks == [] then []
    else Grafts(wf, t, blocks[..|blocks| - 1], prefix) + BlockGrafts(wf, t, blocks[|blocks| - 1], prefix)
  }

  function BlockGrafts(wf: string, t: string, block: BlockSpec, prefix: string): seq<Graft> {
    var path := BlockPath(prefix, block.key);
    (if block.graft.None? then [] else [Graft(block.graft.value, BlockId(wf, t, path))]) +
    Grafts(wf, t, block.children, path)
  }

  function GraftStep(wf: string, templateId: Id, g: Graft): Step {
    PropertySet(templateId, SchemaIdOf(wf, g.schemaKey), g.carrierId, None, 0)
  }

  function GraftSteps(wf: string, templateId: Id, grafts: seq<Graft>): seq<Step> {
    seq(|grafts|, i requires 0 <= i < |grafts| => GraftStep(wf, templateId, grafts[i]))
  }

  function TemplateStep(wf: string, spec: WorkflowSpec, t: TemplateSpec): Step {
    ObjectCreate(TemplateIdOf(wf, t.key), None, [SystemClass("template"), ClassIdOf(wf, t.bindTo)],
                 if t.tagAnchor then [AnchorId(wf, spec)] else [], TextAst(t.title))
  }

  function HasTemplateStep(wf: string, t: TemplateSpec): Step {
    PropertySet(ClassIdOf(wf, t.bindTo), SystemProperty("hasTemplate"), TemplateIdOf(wf, t.key),
                Some(EntityId(wf, "template", t.key + ":hasTemplate")), 0)
  }

  function TemplateSteps(wf: string, spec: WorkflowSpec, t: TemplateSpec): seq<Step> {
    [TemplateStep(wf, spec, t)] +
    BlockSteps(wf, t.key, t.body, TemplateIdOf(wf, t.key), "") +
    GraftSteps(wf, TemplateIdOf(wf, t.key), Grafts(wf, t.key, t.body, "")) +
    [HasTemplateStep(wf, t)]
  }

  function AllClasses(wf: string, classes: seq<ClassSpec>): seq<Step> {
    if classes == [] then [] else AllClasses(wf, classes[..|classes| - 1]) + [ClassStep(wf, classes[|classes| - 1])]
  }

  function AllSchemas(wf: string, schemas: seq<SchemaSpec>): seq<Step> {
    if schemas == [] then [] else AllSchemas(wf, schemas[..|schemas| - 1]) + [SchemaStep(wf, schemas[|schemas| - 1])]
  }

  function AllBindings(wf: string, schemas: seq<SchemaSpec>): seq<Step> {
    if schemas == [] then [] else AllBindings(wf, schemas[..|schemas| - 1]) + BindingSteps(wf, schemas[|schemas| - 1])
  }

  function AllTemplates(wf: string, spec: WorkflowSpec, templates: seq<TemplateSpec>): seq<Step> {
    if templates == [] then []
    else AllTemplates(wf, spec, templates[..|templates| - 1]) + TemplateSteps(wf, spec, templates[|templates| - 1])
  }

  /** The anchor, the classes, the schemas, the bindings and the templates, in that order. */
  function Enable(wf: string, spec: WorkflowSpec): seq<Step> {
    [AnchorStep(wf, spec)] + AllClasses(wf, spec.classes) + AllSchemas(wf, spec.schemas) +
    AllBindings(wf, spec.schemas) + AllTemplates(wf, spec, spec.templates)
  }

  // ----- disabling -----

  function Archive(id: Id): Step { ObjectUpdate(id, false) }

  function ArchiveClasses(wf: string, classes: seq<ClassSpec>): seq<Step> {
    if classes == [] then []
    else ArchiveClasses(wf, classes[..|classes| - 1]) + [Archive(EntityId(wf, "class", classes[|classes| - 1].key))]
  }

  function ArchiveTemplates(wf: string, templates: seq<TemplateSpec>): seq<Step> {
    if templates == [] then []
    else
      ArchiveTemplates(wf, templates[..|templates| - 1]) +
      [Archive(TemplateIdOf(wf, templates[|templates| - 1].key))]
  }

  function Disable(wf: string, spec: WorkflowSpec): seq<Step> {
    [Archive(AnchorId(wf, spec))] + ArchiveClasses(wf, spec.classes) + ArchiveTemplates(wf, spec.templates)
  }

  // ----- the planner's loops -----

  lemma BlocksTurn(wf: string, t: string, blocks: seq<BlockSpec>, n: nat, parent: Id, prefix: string)
    requires n < |blocks|
    ensures BlockSteps(wf, t, blocks[..n + 1], parent, prefix) ==
            BlockSteps(wf, t, blocks[..n], parent, prefix) + OneBlock(wf, t, blocks[n], parent, prefix)
    ensures Grafts(wf, t, blocks[..n + 1], prefix) ==
            Grafts(wf, t, blocks[..n], prefix) + BlockGrafts(wf, t, blocks[n], prefix)
  {
    hide OneBlock, BlockGrafts;
    assert blocks[..n + 1][..n] == blocks[..n];
  }

  /** Emits the blocks depth first, noting the carriers of grafted values. */
  method EmitBlocks(wf: string, t: string, blocks: seq<BlockSpec>, parent: Id, prefix: string,
                    before: seq<Step>, graftsBefore: seq<Graft>)
    returns (steps: seq<Step>, grafts: seq<Graft>)
    ensures steps == before + BlockSteps(wf, t, blocks, parent, prefix)
    ensures grafts == graftsBefore + Grafts(wf, t, blocks, prefix)
    decreases blocks
  {
    steps, grafts := before, graftsBefore;
    NoBlocks(wf, t, parent, prefix);
    hide EntityId, BlockPath, BlockId, BlockSteps, Grafts;
    for n := 0 to |blocks|
      invariant steps == before + BlockSteps(wf, t, blocks[..n], parent, prefix)
      invariant grafts == graftsBefore + Grafts(wf, t, blocks[..n], prefix)
    {
      var block := blocks[n];
      BlocksTurn(wf, t, blocks, n, parent, prefix);
      var path := BlockPath(prefix, block.key);
      var blockId := BlockId(wf, t, path);
      steps := steps + [ObjectCreate(blockId, Some(parent), [], [], block.content)];
      if block.graft.Some? { grafts := grafts + [Graft(block.graft.value, blockId)]; }
      steps, grafts := EmitBlocks(wf, t, block.children, blockId, path, steps, grafts);
    }
    assert blocks[..|blocks|] == blocks;
  }

  lemma NoBlocks(wf: string, t: string, parent: Id, prefix: string)
    ensures BlockSteps(wf, t, [], parent, prefix) == [] && Grafts(wf, t, [], prefix) == []
  {
  }

  method PlanTemplate(wf: string, spec: WorkflowSpec, t: TemplateSpec, before: seq<Step>) returns (steps: seq<Step>)
    ensures steps == before + TemplateSteps(wf, spec, t)
  {
    hide BlockSteps, Grafts, EntityId, ClassIdOf;
    var templateId := TemplateIdOf(wf, t.key);
    steps := before + [TemplateStep(wf, spec, t)];
    var grafts;
    steps, grafts := EmitBlocks(wf, t.key, t.body, templateId, "", steps, []);
    ghost var blocks := steps;
    for n := 0 to |grafts|
      invariant steps == blocks + GraftSteps(wf, templateId, grafts)[..n]
    {
      steps := steps + [GraftStep(wf, templateId, grafts[n])];
      assert GraftSteps(wf, templateId, grafts)[..n + 1] ==
             GraftSteps(wf, templateId, grafts)[..n] + [GraftStep(wf, templateId, grafts[n])];
    }
    assert GraftSteps(wf, templateId, grafts)[..|grafts|] == GraftSteps(wf, templateId, grafts);
    steps := steps + [HasTemplateStep(wf, t)];
  }

  method PushClasses(wf: string, classes: seq<ClassSpec>, before: seq<Step>) returns (steps: seq<Step>)
    ensures steps == before + AllClasses(wf, classes)
  {
    hide ClassStep;
    steps := before;
    assert classes[..0] == [];
    for n := 0 to |classes|
      invariant steps == before + AllClasses(wf, classes[..n])
    {
      assert classes[..n + 1][..n] == classes[..n];
      steps := steps + [ClassStep(wf, classes[n])];
    }
    assert classes[..|classes|] == classes;
  }

  method PushSchemas(wf: string, schemas: seq<SchemaSpec>, before: seq<Step>) returns (steps: seq<Step>)
    ensures steps == before + AllSchemas(wf, schemas)
  {
    hide SchemaStep;
    steps := before;
    assert schemas[..0] == [];
    for n := 0 to |schemas|
      invariant steps == before + AllSchemas(wf, schemas[..n])
    {
      assert schemas[..n + 1][..n] == schemas[..n];
      steps := steps + [SchemaStep(wf, schemas[n])];
    }
    assert schemas[..|schemas|] == schemas;
  }

  method PushBindings(wf: string, schemas: seq<SchemaSpec>, before: seq<Step>) returns (steps: seq<Step>)
    ensures steps == before + AllBindings(wf, schemas)
  {
    hide ClassIdOf, SchemaIdOf;
    steps := before;
    assert schemas[..0] == [];
    for n := 0 to |schemas|
      invariant steps == before + AllBindings(wf, schemas[..n])
    {
      var schema := schemas[n];
      assert schemas[..n + 1][..n] == schemas[..n];
      if schema.bindTo.None? { continue; }
      steps := steps + [ClassPropertySet(ClassIdOf(wf, schema.bindTo.value), SchemaIdOf(wf, schema.key))];
    }
    assert schemas[..|schemas|] == schemas;
  }

  method PlanEnable(wf: string, spec: WorkflowSpec) returns (steps: seq<Step>)
    ensures steps == Enable(wf, spec)
  {
    hide AllClasses, AllSchemas, AllBindings, TemplateSteps, AnchorStep;
    var templates := spec.templates;
    steps := [AnchorStep(wf, spec)];
    steps := PushClasses(wf, spec.classes, steps);
    steps := PushSchemas(wf, spec.schemas, steps);
    steps := PushBindings(wf, spec.schemas, steps);
    ghost var before := steps;
    assert templates[..0] == [];
    for n := 0 to |templates|
      invariant steps == before + AllTemplates(wf, spec, templates[..n])
    {
      assert templates[..n + 1][..n] == templates[..n];
      steps := PlanTemplate(wf, spec, templates[n], steps);
    }
    assert templates[..|templates|] == templates;
  }

  method PlanDisable(wf: string, spec: WorkflowSpec) returns (steps: seq<Step>)
    ensures steps == Disable(wf, spec)
  {
    hide EntityId;
    steps := [Archive(AnchorId(wf, spec))];
    var classes, templates := spec.classes, spec.templates;
    assert classes[..0] == [] && templates[..0] == [];
    for n := 0 to |classes|
      invariant steps == [Archive(AnchorId(wf, spec))] + ArchiveClasses(wf, classes[..n])
    {
      assert classes[..n + 1][..n] == classes[..n];
      steps := steps + [Archive(EntityId(wf, "class", classes[n].key))];
    }
    assert classes[..|classes|] == classes;
    for n := 0 to |templates|
      invariant steps == [Archive(AnchorId(wf, spec))] + ArchiveClasses(wf, classes) +
                  ArchiveTemplates(wf, templates[..n])
    {
      assert templates[..n + 1][..n] == templates[..n];
      steps := steps + [Archive(TemplateIdOf(wf, templates[n].key))];
    }
    assert templates[..|templates|] == templates;
  }
}
