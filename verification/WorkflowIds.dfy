/**
 The ids a plan creates: pairwise distinct exactly when no unnamed block hoists a key
 already taken, and archived once each by the plan that disables the workflow.
 */
module WorkflowIds {
  import opened Text
  import opened WorkflowBlockIds
  import opened WorkflowPlan
  import opened Workflows
  import opened Wrappers

  // ----- keys -----

  ghost predicate OptionsKeyed(options: seq<OptionSpec>) {
    forall i, j :: 0 <= i < j < |options| ==> options[i].key != options[j].key
  }

  ghost predicate SchemasKeyed(schemas: seq<SchemaSpec>) {
    && (forall i, j :: 0 <= i < j < |schemas| ==> schemas[i].key != schemas[j].key)
    && forall s :: s in schemas ==> Free(s.key) && OptionsKeyed(s.options)
  }

  ghost predicate ClassesKeyed(classes: seq<ClassSpec>) {
    forall i, j :: 0 <= i < j < |classes| ==> classes[i].key != classes[j].key
  }

  ghost predicate TemplateKeysDistinct(templates: seq<TemplateSpec>) {
    forall i, j :: 0 <= i < j < |templates| ==> templates[i].key != templates[j].key
  }

  ghost predicate TemplatesKeyed(templates: seq<TemplateSpec>) {
    TemplateKeysDistinct(templates) && forall t :: t in templates ==> Free(t.key) && BlocksKeyed(t.body)
  }

  ghost predicate NoneHoists(templates: seq<TemplateSpec>) {
    forall t :: t in templates ==> !Hoists(t.body)
  }

  ghost predicate Keyed(spec: WorkflowSpec) {
    ClassesKeyed(spec.classes) && SchemasKeyed(spec.schemas) && TemplatesKeyed(spec.templates)
  }

  // ----- the parts of the plan -----

  /** The ids of these keys, each under its own kind and stem. */
  ghost predicate OfStems(wf: string, kind: string, stems: seq<string>, ids: seq<Id>) {
    forall id :: id in ids ==> exists i :: 0 <= i < |stems| && Begins(wf, kind, stems[i], id)
  }

  ghost function SchemaKeys(schemas: seq<SchemaSpec>): seq<string> {
    seq(|schemas|, i requires 0 <= i < |schemas| => schemas[i].key)
  }

  ghost function TemplateKeys(templates: seq<TemplateSpec>): seq<string> {
    seq(|templates|, i requires 0 <= i < |templates| => templates[i].key)
  }

  ghost predicate OfKind(wf: string, kind: string, ids: seq<Id>) {
    forall id :: id in ids ==> exists stem :: Begins(wf, kind, stem, id)
  }

  lemma KindsApart(wf: string, k1: string, k2: string, a: seq<Id>, b: seq<Id>)
    requires Free(k1) && Free(k2) && k1 != k2 && OfKind(wf, k1, a) && OfKind(wf, k2, b)
    ensures forall id :: id in a ==> id !in b
  {
    hide EntityId, Free;
    forall id | id in a ensures id !in b {
      if id in b {
        var s1 :| Begins(wf, k1, s1, id);
        var s2 :| Begins(wf, k2, s2, id);
        var x :| Tail(x) && Stemmed(wf, k1, s1, x, id);
        var y :| Tail(y) && Stemmed(wf, k2, s2, y, id);
        EntityIdInjective(wf, k1, s1 + x, k2, s2 + y);
      }
    }
  }

  lemma ClassStepCreates(wf: string, steps: seq<Step>, c: ClassSpec)
    ensures CreatedBy(steps + [ClassStep(wf, c)]) == CreatedBy(steps) + [EntityId(wf, "class", c.key)]
  {
    hide EntityId;
    CreatedStep(steps, ClassStep(wf, c));
  }

  lemma {:induction false} ClassIdsDistinct(wf: string, classes: seq<ClassSpec>)
    requires ClassesKeyed(classes)
    ensures NoDuplicates(CreatedBy(AllClasses(wf, classes)))
    ensures forall id :: id in CreatedBy(AllClasses(wf, classes)) ==>
              exists i :: 0 <= i < |classes| && id == EntityId(wf, "class", classes[i].key)
  {
    hide EntityId, Free, CreatedBy, ClassStep;
    if classes == [] {
      NothingCreated();
    } else {
      var init, last := classes[..|classes| - 1], classes[|classes| - 1];
      var own := EntityId(wf, "class", last.key);
      assert forall k :: 0 <= k < |init| ==> init[k] == classes[k];
      ClassIdsDistinct(wf, init);
      ClassStepCreates(wf, AllClasses(wf, init), last);
      Kinds();
      forall id | id in CreatedBy(AllClasses(wf, init)) ensures id != own {
        var i :| 0 <= i < |init| && id == EntityId(wf, "class", init[i].key);
        if id == own { EntityIdInjective(wf, "class", init[i].key, "class", last.key); }
      }
      DistinctJoins(CreatedBy(AllClasses(wf, init)), [own]);
    }
  }

  lemma ClassIdsOfKind(wf: string, classes: seq<ClassSpec>, ids: seq<Id>)
    requires forall id :: id in ids ==> exists i :: 0 <= i < |classes| && id == EntityId(wf, "class", classes[i].key)
    ensures OfKind(wf, "class", ids)
  {
    hide EntityId, Begins;
    forall id | id in ids ensures exists stem :: Begins(wf, "class", stem, id) {
      var i :| 0 <= i < |classes| && id == EntityId(wf, "class", classes[i].key);
      BeginsItself(wf, "class", classes[i].key);
    }
  }

  /** A schema's own id and its options' ids. */
  lemma OneSchemaDistinct(wf: string, s: SchemaSpec)
    requires OptionsKeyed(s.options)
    ensures NoDuplicates(Created(SchemaStep(wf, s)))
    ensures forall id :: id in Created(SchemaStep(wf, s)) ==> Begins(wf, "schema", s.key, id)
  {
    hide EntityId, Free, ClassIdOf;
    var options := SchemaOptions(wf, s.key, s.options);
    Kinds();
    forall i | 0 <= i < |options|
      ensures options[i].id != SchemaIdOf(wf, s.key) && Begins(wf, "schema", s.key, options[i].id)
      ensures forall j :: 0 <= j < i ==> options[j].id != options[i].id
    {
      OptionId(wf, s, i);
      forall j | 0 <= j < i ensures options[j].id != options[i].id {
        if options[j].id == options[i].id {
          EntityIdInjective(wf, "schema", s.key + ":" + s.options[j].key, "schema", s.key + ":" + s.options[i].key);
          Cancel(s.key + ":", s.options[j].key, s.options[i].key);
        }
      }
    }
    BeginsItself(wf, "schema", s.key);
  }

  lemma OptionId(wf: string, s: SchemaSpec, i: nat)
    requires i < |s.options|
    ensures var id := SchemaOptions(wf, s.key, s.options)[i].id;
            id == EntityId(wf, "schema", s.key + ":" + s.options[i].key) &&
            id != SchemaIdOf(wf, s.key) && Begins(wf, "schema", s.key, id)
  {
    hide EntityId;
    var more := ":" + s.options[i].key;
    assert s.key + ":" + s.options[i].key == s.key + more;
    BeginsItself(wf, "schema", s.key + more);
    Kinds();
    BeginsShorter(wf, "schema", s.key, more, EntityId(wf, "schema", s.key + more));
    NotItself(wf, "schema", s.key, more, EntityId(wf, "schema", s.key + more));
  }

  lemma {:induction false} SchemaIdsDistinct(wf: string, schemas: seq<SchemaSpec>)
    requires SchemasKeyed(schemas)
    ensures NoDuplicates(CreatedBy(AllSchemas(wf, schemas)))
    ensures OfStems(wf, "schema", SchemaKeys(schemas), CreatedBy(AllSchemas(wf, schemas)))
  {
    hide SchemaStep, Created, Begins, Free, OptionsKeyed;
    if schemas != [] {
      var init, last := schemas[..|schemas| - 1], schemas[|schemas| - 1];
      var a, b := CreatedBy(AllSchemas(wf, init)), Created(SchemaStep(wf, last));
      assert forall k :: 0 <= k < |init| ==> init[k] == schemas[k];
      SchemaIdsDistinct(wf, init);
      OneSchemaDistinct(wf, last);
      CreatedStep(AllSchemas(wf, init), SchemaStep(wf, last));
      assert SchemaKeys(schemas) == SchemaKeys(init) + [last.key];
      forall id | id in a ensures id !in b {
        var i :| 0 <= i < |SchemaKeys(init)| && Begins(wf, "schema", SchemaKeys(init)[i], id);
        assert schemas[i] in schemas && last in schemas;
        Kinds();
        if id in b { StemsApartPlain(wf, "schema", SchemaKeys(init)[i], last.key, id); }
      }
      DistinctJoins(a, b);
      StemsGrow(wf, "schema", SchemaKeys(init), last.key, a, b);
    }
  }

  lemma StemsApartPlain(wf: string, kind: string, k1: string, k2: string, id: Id)
    requires Free(kind) && Free(k1) && Free(k2) && Begins(wf, kind, k1, id) && Begins(wf, kind, k2, id)
    ensures k1 == k2
  {
    assert "" + k1 == k1 && "" + k2 == k2;
    StemsApart(wf, kind, "", k1, k2, id);
  }

  lemma StemsGrow(wf: string, kind: string, stems: seq<string>, stem: string, a: seq<Id>, b: seq<Id>)
    requires OfStems(wf, kind, stems, a) && forall id :: id in b ==> Begins(wf, kind, stem, id)
    ensures OfStems(wf, kind, stems + [stem], a + b)
  {
    hide Begins;
    forall id | id in a + b ensures exists i :: 0 <= i < |stems + [stem]| && Begins(wf, kind, (stems + [stem])[i], id) {
      if id in a {
        var i :| 0 <= i < |stems| && Begins(wf, kind, stems[i], id);
        assert (stems + [stem])[i] == stems[i];
      } else {
        assert (stems + [stem])[|stems|] == stem;
      }
    }
  }

  lemma {:induction false} BindingsCreateNothing(wf: string, schemas: seq<SchemaSpec>)
    ensures CreatedBy(AllBindings(wf, schemas)) == []
  {
    hide ClassIdOf, SchemaIdOf;
    if schemas != [] {
      var init, last := schemas[..|schemas| - 1], schemas[|schemas| - 1];
      BindingsCreateNothing(wf, init);
      CreatedJoins(AllBindings(wf, init), BindingSteps(wf, last));
      if last.bindTo.Some? {
        CreatedOne(ClassPropertySet(ClassIdOf(wf, last.bindTo.value), SchemaIdOf(wf, last.key)));
      }
    }
  }

  lemma {:induction false} GraftsCreateNothing(wf: string, templateId: Id, grafts: seq<Graft>)
    ensures CreatedBy(GraftSteps(wf, templateId, grafts)) == []
  {
    hide SchemaIdOf;
    if grafts != [] {
      var init := grafts[..|grafts| - 1];
      GraftsCreateNothing(wf, templateId, init);
      var last := GraftStep(wf, templateId, grafts[|grafts| - 1]);
      assert GraftSteps(wf, templateId, grafts) == GraftSteps(wf, templateId, init) + [last];
      CreatedStep(GraftSteps(wf, templateId, init), last);
    }
  }

  /** A template's ids: its node, its blocks, and the element of its has-template value. */
  lemma TemplateCreates(wf: string, spec: WorkflowSpec, t: TemplateSpec)
    ensures CreatedBy(TemplateSteps(wf, spec, t)) ==
            [TemplateIdOf(wf, t.key)] + CreatedBy(BlockSteps(wf, t.key, t.body, TemplateIdOf(wf, t.key), "")) +
            [EntityId(wf, "template", t.key + ":hasTemplate")]
  {
    hide EntityId, ClassIdOf, BlockSteps, Grafts, GraftSteps, CreatedBy, TemplateIdOf;
    var id := TemplateIdOf(wf, t.key);
    var blocks, grafts := BlockSteps(wf, t.key, t.body, id, ""), GraftSteps(wf, id, Grafts(wf, t.key, t.body, ""));
    CreatedOne(TemplateStep(wf, spec, t));
    CreatedJoins([TemplateStep(wf, spec, t)], blocks);
    CreatedJoins([TemplateStep(wf, spec, t)] + blocks, grafts);
    CreatedJoins([TemplateStep(wf, spec, t)] + blocks + grafts, [HasTemplateStep(wf, t)]);
    CreatedOne(HasTemplateStep(wf, t));
    GraftsCreateNothing(wf, id, Grafts(wf, t.key, t.body, ""));
  }

  lemma ElementApart(wf: string, t: string, key: string, id: Id)
    requires Begins(wf, "template", t + "/" + key, id)
    ensures id != EntityId(wf, "template", t + ":hasTemplate")
  {
    hide EntityId;
    var x :| Tail(x) && Stemmed(wf, "template", t + "/" + key, x, id);
    Kinds();
    SlashNotColon(t, key + x);
    assert t + "/" + key + x == t + "/" + (key + x);
    if id == EntityId(wf, "template", t + ":hasTemplate") {
      EntityIdInjective(wf, "template", t + "/" + key + x, "template", t + ":hasTemplate");
    }
  }

  lemma SlashNotColon(t: string, rest: string)
    ensures t + "/" + rest != t + ":hasTemplate"
  {
    assert (t + "/" + rest)[|t|] == '/' && (t + ":hasTemplate")[|t|] == ':';
  }

  lemma OneTemplateDistinct(wf: string, spec: WorkflowSpec, t: TemplateSpec)
    requires BlocksKeyed(t.body) && !Hoists(t.body)
    ensures NoDuplicates(CreatedBy(TemplateSteps(wf, spec, t)))
    ensures forall id :: id in CreatedBy(TemplateSteps(wf, spec, t)) ==> Begins(wf, "template", t.key, id)
  {
    hide EntityId, BlockSteps, CreatedBy, TemplateSteps, BlocksKeyed, Begins, Free, Hoists, NoDuplicates;
    var id, element := TemplateIdOf(wf, t.key), EntityId(wf, "template", t.key + ":hasTemplate");
    var blocks := CreatedBy(BlockSteps(wf, t.key, t.body, id, ""));
    TemplateCreates(wf, spec, t);
    BlocksDistinctExactly(wf, t.key, t.body, id);
    Kinds();
    forall b | b in blocks ensures b != id && b != element && Begins(wf, "template", t.key, b) {
      var key :| Begins(wf, "template", t.key + "/" + key, b);
      Deeper(wf, t.key, key, b);
      ElementApart(wf, t.key, key, b);
    }
    OneDistinct(id);
    OneDistinct(element);
    BeginsItself(wf, "template", t.key);
    BeginsItself(wf, "template", t.key + ":hasTemplate");
    BeginsShorter(wf, "template", t.key, ":hasTemplate", element);
    NotItself(wf, "template", t.key, ":hasTemplate", element);
    DistinctJoins([id], blocks);
    DistinctJoins([id] + blocks, [element]);
  }

  lemma OneDistinct<T>(x: T)
    ensures NoDuplicates([x])
  {
  }

  lemma {:induction false} TemplateIdsDistinct(wf: string, spec: WorkflowSpec, templates: seq<TemplateSpec>)
    requires TemplatesKeyed(templates) && NoneHoists(templates)
    ensures NoDuplicates(CreatedBy(AllTemplates(wf, spec, templates)))
    ensures OfStems(wf, "template", TemplateKeys(templates), CreatedBy(AllTemplates(wf, spec, templates)))
  {
    hide TemplateSteps, Created, Begins, Free, BlocksKeyed, CreatedBy;
    if templates == [] {
      NothingCreated();
    } else {
      var init, last := templates[..|templates| - 1], templates[|templates| - 1];
      var a, b := CreatedBy(AllTemplates(wf, spec, init)), CreatedBy(TemplateSteps(wf, spec, last));
      assert forall k :: 0 <= k < |init| ==> init[k] == templates[k];
      TemplateIdsDistinct(wf, spec, init);
      OneTemplateDistinct(wf, spec, last);
      CreatedJoins(AllTemplates(wf, spec, init), TemplateSteps(wf, spec, last));
      assert TemplateKeys(templates) == TemplateKeys(init) + [last.key];
      forall id | id in a ensures id !in b {
        var i :| 0 <= i < |TemplateKeys(init)| && Begins(wf, "template", TemplateKeys(init)[i], id);
        assert templates[i] in templates && last in templates;
        Kinds();
        if id in b { StemsApartPlain(wf, "template", TemplateKeys(init)[i], last.key, id); }
      }
      DistinctJoins(a, b);
      StemsGrow(wf, "template", TemplateKeys(init), last.key, a, b);
    }
  }

  lemma NothingCreated()
    ensures CreatedBy([]) == []
  {
  }

  lemma StemsOfKind(wf: string, kind: string, stems: seq<string>, ids: seq<Id>)
    requires OfStems(wf, kind, stems, ids)
    ensures OfKind(wf, kind, ids)
  {
    hide Begins;
    forall id | id in ids ensures exists stem :: Begins(wf, kind, stem, id) {
      var i :| 0 <= i < |stems| && Begins(wf, kind, stems[i], id);
    }
  }

  lemma EnableCreates(wf: string, spec: WorkflowSpec)
    ensures CreatedBy(Enable(wf, spec)) ==
            [AnchorId(wf, spec)] + CreatedBy(AllClasses(wf, spec.classes)) + CreatedBy(AllSchemas(wf, spec.schemas)) +
            CreatedBy(AllTemplates(wf, spec, spec.templates))
  {
    hide CreatedBy, AllClasses, AllSchemas, AllBindings, AllTemplates, EntityId;
    var a, b, c, d, e := [AnchorStep(wf, spec)], AllClasses(wf, spec.classes), AllSchemas(wf, spec.schemas),
                         AllBindings(wf, spec.schemas), AllTemplates(wf, spec, spec.templates);
    CreatedOne(AnchorStep(wf, spec));
    CreatedJoins(a, b);
    CreatedJoins(a + b, c);
    CreatedJoins(a + b + c, d);
    CreatedJoins(a + b + c + d, e);
    BindingsCreateNothing(wf, spec.schemas);
  }

  lemma UnhoistedDistinct(wf: string, spec: WorkflowSpec)
    requires Keyed(spec) && NoneHoists(spec.templates)
    ensures NoDuplicates(CreatedBy(Enable(wf, spec)))
  {
    hide CreatedBy, AllClasses, AllSchemas, AllTemplates, EntityId, Enable, OfStems, OfKind, Free,
         ClassesKeyed, SchemasKeyed, TemplatesKeyed, NoneHoists;
    var a, b, c, d := [AnchorId(wf, spec)], CreatedBy(AllClasses(wf, spec.classes)),
                      CreatedBy(AllSchemas(wf, spec.schemas)), CreatedBy(AllTemplates(wf, spec, spec.templates));
    EnableCreates(wf, spec);
    AnchorOfKind(wf, spec);
    ClassIdsDistinct(wf, spec.classes);
    ClassIdsOfKind(wf, spec.classes, b);
    SchemaIdsDistinct(wf, spec.schemas);
    StemsOfKind(wf, "schema", SchemaKeys(spec.schemas), c);
    TemplateIdsDistinct(wf, spec, spec.templates);
    StemsOfKind(wf, "template", TemplateKeys(spec.templates), d);
    Kinds();
    KindsApart(wf, "tag", "class", a, b);
    DistinctJoins(a, b);
    KindsApart(wf, "tag", "schema", a, c);
    KindsApart(wf, "class", "schema", b, c);
    DistinctJoins(a + b, c);
    KindsApart(wf, "tag", "template", a, d);
    KindsApart(wf, "class", "template", b, d);
    KindsApart(wf, "schema", "template", c, d);
    DistinctJoins(a + b + c, d);
  }

  /** What a template creates is a stretch of what the templates create. */
  lemma {:induction false} TemplatePart(wf: string, spec: WorkflowSpec, templates: seq<TemplateSpec>, t: TemplateSpec)
      returns (before: seq<Id>, after: seq<Id>)
    requires t in templates
    ensures CreatedBy(AllTemplates(wf, spec, templates)) ==
            before + CreatedBy(BlockSteps(wf, t.key, t.body, TemplateIdOf(wf, t.key), "")) + after
  {
    hide TemplateSteps, CreatedBy, BlockSteps, EntityId, TemplateIdOf;
    var init, last := templates[..|templates| - 1], templates[|templates| - 1];
    CreatedJoins(AllTemplates(wf, spec, init), TemplateSteps(wf, spec, last));
    if t == last {
      TemplateCreates(wf, spec, t);
      before := CreatedBy(AllTemplates(wf, spec, init)) + [TemplateIdOf(wf, t.key)];
      after := [EntityId(wf, "template", t.key + ":hasTemplate")];
    } else {
      assert templates == init + [last];
      before, after := TemplatePart(wf, spec, init, t);
      after := after + CreatedBy(TemplateSteps(wf, spec, last));
    }
  }

  lemma HoistCollides(wf: string, spec: WorkflowSpec, t: TemplateSpec)
    requires t in spec.templates && Hoists(t.body)
    ensures !NoDuplicates(CreatedBy(Enable(wf, spec)))
  {
    hide CreatedBy, AllClasses, AllSchemas, AllTemplates, EntityId, Enable, NoDuplicates, Hoists, BlockSteps,
         TemplateIdOf;
    EnableCreates(wf, spec);
    RootCollides(wf, t.key, t.body, TemplateIdOf(wf, t.key));
    var before, after := TemplatePart(wf, spec, spec.templates, t);
    var front := [AnchorId(wf, spec)] + CreatedBy(AllClasses(wf, spec.classes)) +
                 CreatedBy(AllSchemas(wf, spec.schemas));
    var blocks := CreatedBy(BlockSteps(wf, t.key, t.body, TemplateIdOf(wf, t.key), ""));
    assert CreatedBy(Enable(wf, spec)) == front + before + blocks + after;
    if NoDuplicates(CreatedBy(Enable(wf, spec))) { PartOfDistinct(front + before, blocks, after); }
  }

  /**
   Whatever the nesting, the ids a plan creates are pairwise distinct exactly when no
   template has an unnamed root block that hoists a key already taken.
   */
  lemma CreatedIdsDistinct(wf: string, spec: WorkflowSpec)
    requires Keyed(spec)
    ensures NoDuplicates(CreatedBy(Enable(wf, spec))) <==> NoneHoists(spec.templates)
  {
    hide Keyed, Enable, CreatedBy, NoDuplicates, Hoists;
    if NoneHoists(spec.templates) {
      UnhoistedDistinct(wf, spec);
    } else {
      var t :| t in spec.templates && Hoists(t.body);
      HoistCollides(wf, spec, t);
    }
  }

  lemma AnchorOfKind(wf: string, spec: WorkflowSpec)
    ensures OfKind(wf, "tag", [AnchorId(wf, spec)])
  {
    BeginsItself(wf, "tag", spec.anchorKey);
  }

  // ----- disabling -----

  ghost function Archived(steps: seq<Step>): seq<Id> {
    if steps == [] then []
    else
      var last := steps[|steps| - 1];
      Archived(steps[..|steps| - 1]) + if last.ObjectUpdate? then [last.archivedId] else []
  }

  lemma {:induction false} ArchivedJoins(a: seq<Step>, b: seq<Step>)
    ensures Archived(a + b) == Archived(a) + Archived(b)
  {
    if b == [] {
      assert a + b == a;
    } else {
      ArchivedJoins(a, b[..|b| - 1]);
      assert (a + b)[..|a + b| - 1] == a + b[..|b| - 1];
    }
  }

  ghost predicate OnlyArchives(steps: seq<Step>) {
    forall s :: s in steps ==> s.ObjectUpdate? && !s.active
  }

  lemma {:induction false} ClassesArchived(wf: string, classes: seq<ClassSpec>)
    ensures Archived(ArchiveClasses(wf, classes)) == CreatedBy(AllClasses(wf, classes))
    ensures OnlyArchives(ArchiveClasses(wf, classes))
  {
    hide EntityId;
    if classes != [] {
      var init, last := classes[..|classes| - 1], classes[|classes| - 1];
      ClassesArchived(wf, init);
      CreatedStep(AllClasses(wf, init), ClassStep(wf, last));
      ArchivedJoins(ArchiveClasses(wf, init), [Archive(EntityId(wf, "class", last.key))]);
    }
  }

  lemma {:induction false} TemplatesArchived(wf: string, spec: WorkflowSpec, templates: seq<TemplateSpec>)
    requires TemplateKeysDistinct(templates)
    ensures OnlyArchives(ArchiveTemplates(wf, templates))
    ensures NoDuplicates(Archived(ArchiveTemplates(wf, templates)))
    ensures forall id :: id in Archived(ArchiveTemplates(wf, templates)) ==>
              id in CreatedBy(AllTemplates(wf, spec, templates)) &&
              exists i :: 0 <= i < |templates| && id == TemplateIdOf(wf, templates[i].key)
  {
    hide EntityId, TemplateSteps, CreatedBy, Free;
    if templates != [] {
      var init, last := templates[..|templates| - 1], templates[|templates| - 1];
      var own := TemplateIdOf(wf, last.key);
      assert forall k :: 0 <= k < |init| ==> init[k] == templates[k];
      TemplatesArchived(wf, spec, init);
      TemplateCreates(wf, spec, last);
      CreatedJoins(AllTemplates(wf, spec, init), TemplateSteps(wf, spec, last));
      ArchivedJoins(ArchiveTemplates(wf, init), [Archive(own)]);
      Kinds();
      forall id | id in Archived(ArchiveTemplates(wf, init)) ensures id != own {
        var i :| 0 <= i < |init| && id == TemplateIdOf(wf, init[i].key);
        if id == own { EntityIdInjective(wf, "template", init[i].key, "template", last.key); }
        assert init[i] == templates[i];
      }
      DistinctJoins(Archived(ArchiveTemplates(wf, init)), [own]);
    }
  }

  /**
   Disabling does nothing but archive, it archives only what enabling creates, and
   nothing twice: the anchor, the classes and the template nodes.
   */
  lemma DisableArchivesCreated(wf: string, spec: WorkflowSpec)
    requires ClassesKeyed(spec.classes) && TemplateKeysDistinct(spec.templates)
    ensures OnlyArchives(Disable(wf, spec)) && NoDuplicates(Archived(Disable(wf, spec)))
    ensures forall id :: id in Archived(Disable(wf, spec)) ==> id in CreatedBy(Enable(wf, spec))
  {
    hide EntityId, CreatedBy, Enable, AllClasses, AllTemplates, ArchiveClasses, ArchiveTemplates, OfKind, ClassesKeyed;
    var a, b, c := [Archive(AnchorId(wf, spec))], ArchiveClasses(wf, spec.classes),
                   ArchiveTemplates(wf, spec.templates);
    ClassesArchived(wf, spec.classes);
    TemplatesArchived(wf, spec, spec.templates);
    ArchivedJoins(a, b);
    ArchivedJoins(a + b, c);
    assert Archived(a) == Archived([]) + [AnchorId(wf, spec)] == [AnchorId(wf, spec)];
    EnableCreates(wf, spec);
    ClassIdsDistinct(wf, spec.classes);
    ClassIdsOfKind(wf, spec.classes, Archived(b));
    AnchorOfKind(wf, spec);
    TemplateRootsOfKind(wf, spec.templates, Archived(c));
    Kinds();
    KindsApart(wf, "tag", "class", Archived(a), Archived(b));
    DistinctJoins(Archived(a), Archived(b));
    KindsApart(wf, "tag", "template", Archived(a), Archived(c));
    KindsApart(wf, "class", "template", Archived(b), Archived(c));
    DistinctJoins(Archived(a) + Archived(b), Archived(c));
  }

  lemma TemplateRootsOfKind(wf: string, templates: seq<TemplateSpec>, ids: seq<Id>)
    requires forall id :: id in ids ==> exists i :: 0 <= i < |templates| && id == TemplateIdOf(wf, templates[i].key)
    ensures OfKind(wf, "template", ids)
  {
    hide EntityId, Begins;
    forall id | id in ids ensures exists stem :: Begins(wf, "template", stem, id) {
      var i :| 0 <= i < |templates| && id == TemplateIdOf(wf, templates[i].key);
      BeginsItself(wf, "template", templates[i].key);
    }
  }
}
