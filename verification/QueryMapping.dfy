/**
 The rewriting succeeds exactly on the trees of the version 1 grammar, and a node
 satisfies the rewritten tree exactly when it satisfies the original.
 */
module QueryMapping {
  import opened QueryAst
  import opened QueryMeaning
  import opened Wrappers

  // ----- the two tables -----

  /** A table entry and the reading of the type agree on form, key and relation. */
  predicate Agrees(spec: MemberShape, reading: Reading) {
    match spec
    case One(family, key) =>
      reading.AnyOfOne? && reading.key == key && FamilyRelation(Some(JString(family))) == Some(reading.r)
    case Many(family, key) =>
      reading.AnyOf? && reading.key == key && FamilyRelation(Some(JString(family))) == Some(reading.r)
    case Query(family) => reading.Matching? && FamilyRelation(Some(JString(family))) == Some(reading.r)
    case Self(family) => reading.Hosting? && FamilyRelation(Some(JString(family))) == Some(reading.r)
    case SetTest(family) => reading.NonEmpty? && FamilyRelation(Some(JString(family))) == Some(reading.r)
    case Exact => reading.Exactly?
  }

  /** The family names and the relations they stand for. */
  lemma FamilyNames()
    ensures FamilyRelation(Some(JString("class"))) == Some(InClass)
    ensures FamilyRelation(Some(JString("tags"))) == Some(HasTag)
    ensures FamilyRelation(Some(JString("links"))) == Some(LinkedWith)
    ensures FamilyRelation(Some(JString("referencePath"))) == Some(ReferenceChain)
    ensures FamilyRelation(Some(JString("parent"))) == Some(DirectParent)
    ensures FamilyRelation(Some(JString("child"))) == Some(DirectChild)
    ensures FamilyRelation(Some(JString("childPath"))) == Some(SubtreeRoot)
    ensures FamilyRelation(Some(JString("page"))) == Some(ContainingPage)
    ensures FamilyRelation(Some(JString("parentPath"))) == Some(StrictAncestor)
    ensures FamilyRelation(Some(JString("root"))) == Some(WorkspaceRoot)
  {
  }

  lemma ClassAndTagAgree(t: NodeType)
    requires t.Class? || t.ClassAny? || t.ClassAnyQuery? || t.ClassSelf? || t.ClassSet? || t.ClassExact? ||
             t.Tag? || t.TagAny? || t.TagAnyQuery? || t.TagSelf? || t.TagSet?
    ensures MemberSpec(t).Some? && MemberReading(t).Some? && Agrees(MemberSpec(t).value, MemberReading(t).value)
  {
    hide FamilyRelation;
    FamilyNames();
  }

  lemma LinkAndParentAgree(t: NodeType)
    requires t.LinkedTo? || t.LinkedToAny? || t.LinkedToQuery? || t.LinkedToSelf? || t.LinkSet? || t.ReferencePathOf? ||
             t.ReferencePathOfQuery? || t.ReferencePathOfSelf? || t.ParentOf? || t.ParentOfQuery? || t.ParentOfSelf?
    ensures MemberSpec(t).Some? && MemberReading(t).Some? && Agrees(MemberSpec(t).value, MemberReading(t).value)
  {
    hide FamilyRelation;
    FamilyNames();
  }

  lemma ChildAndSubtreeAgree(t: NodeType)
    requires t.ParentSet? || t.ChildOf? || t.ChildOfQuery? || t.ChildOfSelf? || t.ChildSet? || t.DescendantOf? ||
             t.DescendantOfAny? || t.DescendantOfQuery? || t.DescendantOfSelf? || t.DescendantSet?
    ensures MemberSpec(t).Some? && MemberReading(t).Some? && Agrees(MemberSpec(t).value, MemberReading(t).value)
  {
    hide FamilyRelation;
    FamilyNames();
  }

  lemma PageAncestorRootAgree(t: NodeType)
    requires t.PageOf? || t.PageOfQuery? || t.PageOfSelf? || t.PageSet? || t.AncestorIn? || t.AncestorInQuery? ||
             t.AncestorInSelf? || t.RootIn? || t.RootInQuery? || t.RootInSelf?
    ensures MemberSpec(t).Some? && MemberReading(t).Some? && Agrees(MemberSpec(t).value, MemberReading(t).value)
  {
    hide FamilyRelation;
    FamilyNames();
  }

  lemma NeitherReads(t: NodeType)
    requires MemberSpec(t).None? || MemberReading(t).None?
    ensures MemberSpec(t).None? && MemberReading(t).None?
  {
  }

  /** The table and the readings cover the same types and agree on each. */
  lemma TablesAgree(t: NodeType)
    ensures MemberSpec(t).Some? <==> MemberReading(t).Some?
    ensures MemberSpec(t).Some? ==> Agrees(MemberSpec(t).value, MemberReading(t).value)
  {
    hide Agrees;
    match t {
      case Class | ClassAny | ClassAnyQuery | ClassSelf | ClassSet | ClassExact | Tag | TagAny | TagAnyQuery |
           TagSelf | TagSet =>
        ClassAndTagAgree(t);
      case LinkedTo | LinkedToAny | LinkedToQuery | LinkedToSelf | LinkSet | ReferencePathOf |
           ReferencePathOfQuery | ReferencePathOfSelf | ParentOf | ParentOfQuery | ParentOfSelf =>
        LinkAndParentAgree(t);
      case ParentSet | ChildOf | ChildOfQuery | ChildOfSelf | ChildSet | DescendantOf | DescendantOfAny |
           DescendantOfQuery | DescendantOfSelf | DescendantSet =>
        ChildAndSubtreeAgree(t);
      case PageOf | PageOfQuery | PageOfSelf | PageSet | AncestorIn | AncestorInQuery | AncestorInSelf |
           RootIn | RootInQuery | RootInSelf =>
        PageAncestorRootAgree(t);
      case _ => NeitherReads(t);
    }
  }

  lemma TypedIsObject(j: Json)
    ensures !TypeOf(j).Unrecognised? ==> j.JObject?
  {
    hide ParseType;
  }

  /** Member, date, plain and structural types are apart, and every other type but the unrecognised is one of them. */
  lemma TypesApart(t: NodeType)
    ensures t.Group? || t.Not? || t.Unrecognised? ==> MemberReading(t).None? && DateSpec(t).None?
    ensures DateSpec(t).Some? ==> MemberReading(t).None?
  {
  }

  // ----- success -----

  /** The rewriting accepts a subtree exactly when it is of the grammar. */
  lemma {:induction false} AcceptsChild(j: Json)
    ensures MapChild(j).Some? <==> Grammar1(j, false)
    decreases j, 5
  {
    if TypeOf(j).Not? {
      TypesApart(TypeOf(j));
      if "child" in j.fields { AcceptsUnnegated(j.fields["child"]); }
    } else {
      AcceptsUnnegated(j);
    }
  }

  lemma {:induction false} AcceptsUnnegated(j: Json)
    ensures MapUnnegated(j).Some? <==> !TypeOf(j).Not? && Grammar1(j, false)
    decreases j, 4
  {
    hide MemberSpec, MemberReading, DateSpec, MapMember, MapDate, MapFlag, TypeOf, PlainChecked, MapField,
         Copy, Grammar1, Agrees;
    TypesApart(TypeOf(j));
    TablesAgree(TypeOf(j));
    if TypeOf(j).Group? {
      AcceptsGroup(j);
    } else if MemberReading(TypeOf(j)).Some? {
      AcceptsMember(MemberSpec(TypeOf(j)).value, j);
      assert MapConditionByType(j) == MapCondition(j) == MapMember(MemberSpec(TypeOf(j)).value, j);
    } else {
      AcceptsPlain(j);
      if !TypeOf(j).Not? { PlainGrammar(j, false); }
    }
  }

  lemma PlainGrammar(j: Json, ops: bool)
    requires !TypeOf(j).Group? && !TypeOf(j).Not? && MemberReading(TypeOf(j)).None?
    ensures Grammar1(j, ops) <==> PlainChecked(j) && (ops ==> PlainOps(j))
  {
    hide TypeOf, MemberReading, PlainChecked, PlainOps;
  }

  lemma AcceptsPlain(j: Json)
    requires !TypeOf(j).Group? && MemberReading(TypeOf(j)).None?
    ensures MapConditionByType(j).Some? <==> !TypeOf(j).Not? && PlainChecked(j)
  {
    hide TypeOf, MemberSpec, Agrees, MapDate, MapField, MapMember, Copy, Key, MapFlag;
    TablesAgree(TypeOf(j));
    FlagMaps(j, "isClass");
    FlagMaps(j, "isEmbedded");
  }

  lemma FlagMaps(j: Json, field: string)
    ensures MapFlag(j, field).Some? <==> Key(j, field).Some? && Key(j, field).value.JBool?
  {
  }

  lemma {:induction false} AcceptsMember(spec: MemberShape, j: Json)
    requires MemberSpec(TypeOf(j)) == Some(spec)
    requires MemberReading(TypeOf(j)).Some? && Agrees(spec, MemberReading(TypeOf(j)).value)
    requires !TypeOf(j).Group? && !TypeOf(j).Not?
    ensures MapMember(spec, j).Some? <==> Grammar1(j, false)
    decreases j, 1
  {
    hide TypeOf, MemberSpec, MemberReading, Member, FamilyRelation;
    TypedIsObject(j);
    TypesApart(TypeOf(j));
    if spec.Query? && j.JObject? && "root" in j.fields && TypeOf(j.fields["root"]).Group? {
      AcceptsGroup(j.fields["root"]);
    }
  }

  lemma {:induction false} AcceptsGroup(j: Json)
    requires TypeOf(j).Group?
    ensures MapGroup(j).Some? <==> Grammar1(j, false)
    decreases j, 0
  {
    hide TypeOf, IsLogic;
    TypedIsObject(j);
    if "children" in j.fields && j.fields["children"].JArray? {
      AcceptsChildren(j.fields["children"].items);
    }
  }

  lemma {:induction false} AcceptsChildren(items: seq<Json>)
    ensures MapChildren(items).Some? <==> forall i :: 0 <= i < |items| ==> Grammar1(items[i], false)
    decreases items, 0
  {
    hide MapChild, Grammar1;
    if items != [] {
      AcceptsChild(items[0]);
      AcceptsChildren(items[1..]);
    }
  }

  lemma {:induction false} OpsAreExtra(j: Json)
    ensures Grammar1(j, true) ==> Grammar1(j, false)
    decreases j
  {
    hide TypeOf, MemberReading, PlainChecked, PlainOps, IsLogic, Text, Texts;
    TypedIsObject(j);
    TypesApart(TypeOf(j));
    if Grammar1(j, true) {
      if TypeOf(j).Group? {
        forall i | 0 <= i < |j.fields["children"].items| ensures Grammar1(j.fields["children"].items[i], false) {
          OpsAreExtra(j.fields["children"].items[i]);
        }
      } else if TypeOf(j).Not? {
        OpsAreExtra(j.fields["child"]);
      } else if MemberReading(TypeOf(j)).Some? && MemberReading(TypeOf(j)).value.Matching? {
        OpsAreExtra(j.fields["root"]);
      }
    }
  }

  // ----- meaning -----

  /** A node satisfies the image of a subtree exactly when it satisfies the subtree. */
  lemma {:induction false} ChildMeans(j: Json, g: Graph, node: string)
    requires Grammar1(j, true)
    ensures MapChild(j).Some? && (Satisfies2(MapChild(j).value, g, node) <==> Satisfies1(j, g, node))
    decreases j, 5
  {
    hide Satisfies2, Grammar1;
    OpsAreExtra(j);
    AcceptsChild(j);
    if TypeOf(j).Not? {
      NotGrammar(j, true);
      UnnegatedMeans(j.fields["child"], g, node);
      var mapped := MapUnnegated(j.fields["child"]).value;
      NotReads(mapped, g, node);
    } else {
      UnnegatedMeans(j, g, node);
    }
  }

  lemma NotGrammar(j: Json, ops: bool)
    requires TypeOf(j).Not?
    ensures Grammar1(j, ops) <==>
              "child" in j.fields && !TypeOf(j.fields["child"]).Not? && Grammar1(j.fields["child"], ops)
  {
    hide TypeOf, MemberReading, PlainChecked, PlainOps, IsLogic;
  }

  lemma NotReads(mapped: Json, g: Graph, node: string)
    ensures Satisfies2(JObject(Tagged("not")["child" := mapped]), g, node) <==> !Satisfies2(mapped, g, node)
  {
    var j := JObject(Tagged("not")["child" := mapped]);
    assert Text(j, "type") == Some("not");
  }

  lemma PlainSatisfied(j: Json, g: Graph, node: string)
    ensures !TypeOf(j).Group? && !TypeOf(j).Not? && MemberReading(TypeOf(j)).None? ==>
              (Satisfies1(j, g, node) <==> Plain1(j, g, node))
  {
    hide TypeOf, MemberReading, Plain1;
  }

  lemma {:induction false} UnnegatedMeans(j: Json, g: Graph, node: string)
    requires !TypeOf(j).Not? && Grammar1(j, true)
    ensures MapUnnegated(j).Some? && (Satisfies2(MapUnnegated(j).value, g, node) <==> Satisfies1(j, g, node))
    decreases j, 4
  {
    hide MemberSpec, MemberReading, DateSpec, MapMember, MapDate, MapFlag, Satisfies2, Grammar1, Text,
         ParseType, TypeOf, Plain1, Member1, Agrees, PlainOps, PlainChecked;
    OpsAreExtra(j);
    AcceptsUnnegated(j);
    TypesApart(TypeOf(j));
    TablesAgree(TypeOf(j));
    PlainSatisfied(j, g, node);
    if TypeOf(j).Group? {
      GroupMeans(j, g, node);
    } else if MemberReading(TypeOf(j)).Some? {
      MemberMeans(MemberSpec(TypeOf(j)).value, j, g, node);
      assert MapConditionByType(j) == MapCondition(j) == MapMember(MemberSpec(TypeOf(j)).value, j);
    } else {
      PlainGrammar(j, true);
      if DateSpec(TypeOf(j)).Some? {
        DateMeans(j, g, node);
      } else {
        PlainMeans(j, g, node);
      }
    }
  }

  /** Reading a key of an object built from fixed keys and copies of others. */
  lemma CopiedKey(base: map<string, Json>, j: Json, keys: set<string>, key: string)
    requires base.Keys !! keys
    ensures Key(JObject(base + Copy(j, keys)), key) ==
            if key in keys then Key(j, key) else if key in base then Some(base[key]) else None
  {
  }

  /** The type of an image decides how it is read. */
  lemma PlainReads(t: string, d: Json, g: Graph, node: string)
    requires Key(d, "type") == Some(JString(t)) && t in {"content", "name", "property", "date", "nodeField"}
    ensures Satisfies2(d, g, node) <==> Plain2(t, d, g, node)
  {
    hide Plain2, Member2;
    assert Text(d, "type") == Some(t);
  }

  /** How a version 2 date condition is read, by its op. */
  lemma DateReads(d: Json, field: DateField, g: Graph, node: string)
    requires FieldOf(d) == Some(field)
    ensures Key(d, "op") == Some(JString("after")) ==>
              (Plain2("date", d, g, node) <==> g.after(field, Key(d, "timestamp"), node))
    ensures Key(d, "op") == Some(JString("before")) ==>
              (Plain2("date", d, g, node) <==> g.before(field, Key(d, "timestamp"), node))
    ensures Key(d, "op") == Some(JString("between")) ==>
              (Plain2("date", d, g, node) <==> g.between(field, Key(d, "from"), Key(d, "to"), node))
    ensures Key(d, "op") == Some(JString("within")) ==>
              (Plain2("date", d, g, node) <==> g.within(field, Key(d, "period"), node))
    ensures Key(d, "op") !in {Some(JString("after")), Some(JString("before")), Some(JString("between")),
                              Some(JString("within"))} ==>
              (Plain2("date", d, g, node) <==> g.compared(field, Key(d, "op"), Key(d, "timestamp"), node))
  {
    hide Key, FieldOf;
  }

  /** The keys of a date image: its field and op as given, the rest copied. */
  lemma DateKeys(field: string, op: string, j: Json)
    requires op in {"after", "before", "cmp", "between", "within"}
    ensures var d := MapDate(field, op, j);
            && Key(d, "type") == Some(JString("date")) && Key(d, "field") == Some(JString(field))
            && Key(d, "op") == (if op == "cmp" then Key(j, "op") else Some(JString(op)))
            && (op in {"after", "before", "cmp"} ==> Key(d, "timestamp") == Key(j, "timestamp"))
            && (op == "between" ==> Key(d, "from") == Key(j, "from") && Key(d, "to") == Key(j, "to"))
            && (op == "within" ==> Key(d, "period") == Key(j, "period"))
  {
    hide Copy, Key;
    var fixed := Tagged("date")["field" := JString(field)];
    if op == "cmp" {
      DateKey(fixed, j, {"op", "timestamp"}, field);
      CopiedKey(fixed, j, {"op", "timestamp"}, "op");
      CopiedKey(fixed, j, {"op", "timestamp"}, "timestamp");
    } else {
      var base := fixed["op" := JString(op)];
      var keys := if op == "between" then {"from", "to"} else if op == "within" then {"period"} else {"timestamp"};
      DateKey(base, j, keys, field);
      CopiedKey(base, j, keys, "op");
      CopiedKey(base, j, keys, "timestamp");
      CopiedKey(base, j, keys, "from");
      CopiedKey(base, j, keys, "to");
      CopiedKey(base, j, keys, "period");
    }
  }

  lemma DateKey(base: map<string, Json>, j: Json, keys: set<string>, field: string)
    requires base.Keys !! keys && "type" in base && "field" in base
    ensures Key(JObject(base + Copy(j, keys)), "type") == Some(base["type"])
    ensures Key(JObject(base + Copy(j, keys)), "field") == Some(base["field"])
  {
    hide Copy, Key;
    CopiedKey(base, j, keys, "type");
    CopiedKey(base, j, keys, "field");
  }

  lemma FieldNames(d: Json)
    ensures Key(d, "field") == Some(JString("created")) ==> FieldOf(d) == Some(Created)
    ensures Key(d, "field") == Some(JString("updated")) ==> FieldOf(d) == Some(Updated)
  {
  }

  lemma DateMeans(j: Json, g: Graph, node: string)
    requires DateSpec(TypeOf(j)).Some? && PlainOps(j)
    ensures var (field, op) := DateSpec(TypeOf(j)).value;
            Satisfies2(MapDate(field, op, j), g, node) <==> Plain1(j, g, node)
  {
    hide TypeOf, Copy, Key, Satisfies2, Plain2, MapDate, FieldOf;
    var (field, op) := DateSpec(TypeOf(j)).value;
    var d := MapDate(field, op, j);
    DateKeys(field, op, j);
    FieldNames(d);
    DateReads(d, if field == "created" then Created else Updated, g, node);
    PlainReads("date", d, g, node);
  }

  lemma OpValueMeans(t: string, j: Json, g: Graph, node: string)
    requires (t == "content" && TypeOf(j).Content? && PlainOps(j)) || (t == "name" && TypeOf(j).Name?)
    ensures Satisfies2(JObject(Tagged(t) + Copy(j, {"op", "value"})), g, node) <==> Plain1(j, g, node)
  {
    hide TypeOf, Copy, Key, Satisfies2;
    var base, keys := Tagged(t), {"op", "value"};
    CopiedKey(base, j, keys, "type");
    CopiedKey(base, j, keys, "op");
    CopiedKey(base, j, keys, "value");
    PlainReads(t, JObject(base + Copy(j, keys)), g, node);
  }

  /** How a version 2 property condition is read, by its op. */
  lemma PropertyReads(d: Json, g: Graph, node: string)
    ensures Key(d, "op") == Some(JString("between")) ==>
              (Plain2("property", d, g, node) <==>
               g.propertyBetween(Key(d, "schemaId"), Key(d, "from"), Key(d, "to"), node))
    ensures Key(d, "op") == Some(JString("within")) ==>
              (Plain2("property", d, g, node) <==> g.propertyWithin(Key(d, "schemaId"), Key(d, "period"), node))
    ensures Key(d, "op") !in {Some(JString("between")), Some(JString("within"))} ==>
              (Plain2("property", d, g, node) <==>
               g.property(Key(d, "schemaId"), Key(d, "op"), Key(d, "value"), Key(d, "includeDefaults"), node))
  {
    hide Key;
  }

  lemma PropertyMeans(j: Json, g: Graph, node: string)
    requires TypeOf(j).Property? && PlainOps(j)
    ensures Satisfies2(JObject(Tagged("property") + Copy(j, {"schemaId", "op", "value", "includeDefaults"})), g, node)
            <==> Plain1(j, g, node)
  {
    hide TypeOf, Copy, Key, Satisfies2, Plain2;
    var base, keys := Tagged("property"), {"schemaId", "op", "value", "includeDefaults"};
    CopiedKey(base, j, keys, "type");
    CopiedKey(base, j, keys, "schemaId");
    CopiedKey(base, j, keys, "op");
    CopiedKey(base, j, keys, "value");
    CopiedKey(base, j, keys, "includeDefaults");
    PlainReads("property", JObject(base + Copy(j, keys)), g, node);
    PropertyReads(JObject(base + Copy(j, keys)), g, node);
  }

  lemma PropertyBetweenMeans(j: Json, g: Graph, node: string)
    requires TypeOf(j).PropertyBetween?
    ensures Satisfies2(
              JObject(Tagged("property")["op" := JString("between")] + Copy(j, {"schemaId", "from", "to"})), g, node)
            <==> Plain1(j, g, node)
  {
    hide TypeOf, Copy, Key, Satisfies2, Plain2;
    var base, keys := Tagged("property")["op" := JString("between")], {"schemaId", "from", "to"};
    CopiedKey(base, j, keys, "type");
    CopiedKey(base, j, keys, "op");
    CopiedKey(base, j, keys, "schemaId");
    CopiedKey(base, j, keys, "from");
    CopiedKey(base, j, keys, "to");
    PlainReads("property", JObject(base + Copy(j, keys)), g, node);
    PropertyReads(JObject(base + Copy(j, keys)), g, node);
  }

  lemma PropertyWithinMeans(j: Json, g: Graph, node: string)
    requires TypeOf(j).PropertyWithin?
    ensures Satisfies2(
              JObject(Tagged("property")["op" := JString("within")] + Copy(j, {"schemaId", "period"})), g, node)
            <==> Plain1(j, g, node)
  {
    hide TypeOf, Copy, Key, Satisfies2, Plain2;
    var base, keys := Tagged("property")["op" := JString("within")], {"schemaId", "period"};
    CopiedKey(base, j, keys, "type");
    CopiedKey(base, j, keys, "op");
    CopiedKey(base, j, keys, "schemaId");
    CopiedKey(base, j, keys, "period");
    PlainReads("property", JObject(base + Copy(j, keys)), g, node);
    PropertyReads(JObject(base + Copy(j, keys)), g, node);
  }

  /** How a version 2 node-field condition is read. */
  lemma NodeFieldReads(d: Json, g: Graph, node: string)
    ensures Key(d, "field") in {Some(JString("coverAsset")), Some(JString("bannerAsset")),
                                 Some(JString("aliasedNode"))} ==>
              (Plain2("nodeField", d, g, node) <==>
                g.wireField(Key(d, "field").value.s, Key(d, "op"), Key(d, "value"), node))
    ensures Key(d, "field") == Some(JString("isClass")) && Key(d, "op") == Some(JString("eq")) ==>
              (Plain2("nodeField", d, g, node) <==>
                Key(d, "value") == Some(JString(if g.isClass(node) then "true" else "false")))
    ensures Key(d, "field") == Some(JString("isEmbedded")) && Key(d, "op") == Some(JString("eq")) ==>
              (Plain2("nodeField", d, g, node) <==>
                Key(d, "value") == Some(JString(if g.isEmbedded(node) then "true" else "false")))
  {
    hide Key;
  }

  lemma FieldKeys(field: string, j: Json)
    ensures var d := MapField(j, field);
            && Key(d, "type") == Some(JString("nodeField")) && Key(d, "field") == Some(JString(field))
            && Key(d, "op") == Key(j, "op") && Key(d, "value") == Key(j, "value")
  {
    hide Copy, Key;
    var base, keys := Tagged("nodeField")["field" := JString(field)], {"op", "value"};
    CopiedKey(base, j, keys, "type");
    CopiedKey(base, j, keys, "field");
    CopiedKey(base, j, keys, "op");
    CopiedKey(base, j, keys, "value");
  }

  /** How a version 1 wire-field condition is read. */
  lemma WireFieldReads(field: string, j: Json, g: Graph, node: string)
    requires (field == "coverAsset" && TypeOf(j).CoverAsset?) || (field == "bannerAsset" && TypeOf(j).BannerAsset?) ||
             (field == "aliasedNode" && TypeOf(j).AliasedNode?)
    ensures Plain1(j, g, node) <==> g.wireField(field, Key(j, "op"), Key(j, "value"), node)
  {
    hide TypeOf, Key;
  }

  lemma FieldMeans(field: string, j: Json, g: Graph, node: string)
    requires (field == "coverAsset" && TypeOf(j).CoverAsset?) || (field == "bannerAsset" && TypeOf(j).BannerAsset?) ||
             (field == "aliasedNode" && TypeOf(j).AliasedNode?)
    ensures Satisfies2(MapField(j, field), g, node) <==> Plain1(j, g, node)
  {
    hide TypeOf, MapField, Key, Satisfies2, Plain1, Plain2;
    FieldKeys(field, j);
    PlainReads("nodeField", MapField(j, field), g, node);
    NodeFieldReads(MapField(j, field), g, node);
    WireFieldReads(field, j, g, node);
  }

  lemma FlagKeys(field: string, j: Json)
    requires Key(j, field).Some? && Key(j, field).value.JBool?
    ensures MapFlag(j, field).Some?
    ensures var d := MapFlag(j, field).value;
            && Key(d, "type") == Some(JString("nodeField")) && Key(d, "field") == Some(JString(field))
            && Key(d, "op") == Some(JString("eq"))
            && Key(d, "value") == Some(JString(if Key(j, field).value.b then "true" else "false"))
  {
  }

  lemma FlagMeans(field: string, j: Json, g: Graph, node: string)
    requires (field == "isClass" && TypeOf(j).IsClass?) || (field == "isEmbedded" && TypeOf(j).IsEmbedded?)
    requires Key(j, field).Some? && Key(j, field).value.JBool?
    ensures MapFlag(j, field).Some? && (Satisfies2(MapFlag(j, field).value, g, node) <==> Plain1(j, g, node))
  {
    hide TypeOf, Satisfies2, Key, MapFlag, Plain2;
    FlagKeys(field, j);
    var d := MapFlag(j, field).value;
    PlainReads("nodeField", d, g, node);
    NodeFieldReads(d, g, node);
  }

  lemma PlainMeans(j: Json, g: Graph, node: string)
    requires DateSpec(TypeOf(j)).None? && MemberReading(TypeOf(j)).None? && MemberSpec(TypeOf(j)).None?
    requires PlainChecked(j) && PlainOps(j) && !TypeOf(j).Group? && !TypeOf(j).Not?
    ensures MapCondition(j).Some? && (Satisfies2(MapCondition(j).value, g, node) <==> Plain1(j, g, node))
  {
    hide TypeOf, Copy, MemberSpec, Satisfies2, MapFlag, MapField, Key, Plain1;
    match TypeOf(j) {
      case Content => OpValueMeans("content", j, g, node);
      case ContentSet => ContentSetMeans(j, g, node);
      case Name => OpValueMeans("name", j, g, node);
      case Property => PropertyMeans(j, g, node);
      case PropertyBetween => PropertyBetweenMeans(j, g, node);
      case PropertyWithin => PropertyWithinMeans(j, g, node);
      case IsClass => FlagMeans("isClass", j, g, node);
      case IsEmbedded => FlagMeans("isEmbedded", j, g, node);
      case CoverAsset => FieldMeans("coverAsset", j, g, node);
      case BannerAsset => FieldMeans("bannerAsset", j, g, node);
      case AliasedNode => FieldMeans("aliasedNode", j, g, node);
      case _ =>
    }
  }

  lemma ContentSetMeans(j: Json, g: Graph, node: string)
    requires TypeOf(j).ContentSet?
    ensures Satisfies2(JObject(Tagged("content")["op" := JString("exists")]), g, node) <==> Plain1(j, g, node)
  {
    hide TypeOf, Satisfies2;
    var d := JObject(Tagged("content")["op" := JString("exists")]);
    PlainReads("content", d, g, node);
  }

  lemma MemberReads(family: string, op: string, target: Option<Json>, g: Graph, node: string)
    requires target.Some? || op == "exists"
    ensures var d := JObject(if target.Some? then Member(family, op)["target" := target.value] else Member(family, op));
            && d.fields["type"] == JString("member")
            && Key(d, "op") == Some(JString(op)) && Key(d, "family") == Some(JString(family))
            && (target.Some? ==> "target" in d.fields && d.fields["target"] == target.value)
            && (Satisfies2(d, g, node) <==> Member2(d, g, node))
  {
    hide Member2;
    var d := JObject(if target.Some? then Member(family, op)["target" := target.value] else Member(family, op));
    assert Text(d, "type") == Some("member");
  }

  lemma {:induction false} MemberMeans(spec: MemberShape, j: Json, g: Graph, node: string)
    requires MemberSpec(TypeOf(j)) == Some(spec)
    requires MemberReading(TypeOf(j)).Some? && Agrees(spec, MemberReading(TypeOf(j)).value)
    requires !TypeOf(j).Group? && !TypeOf(j).Not? && Grammar1(j, true)
    ensures MapMember(spec, j).Some? && (Satisfies2(MapMember(spec, j).value, g, node) <==> Satisfies1(j, g, node))
    decreases j, 1
  {
    hide TypeOf, MemberSpec, MemberReading, FamilyRelation, Satisfies2, Member, Text, Texts, IdsTarget, InTarget;
    OpsAreExtra(j);
    AcceptsMember(spec, j);
    match spec {
      case One(family, key) =>
        var target := IdsTarget([JString(Text(j, key).value)]);
        MemberReads(family, "in", Some(target), g, node);
        IdsReads(MemberReading(TypeOf(j)).value.r, [JString(Text(j, key).value)], g, node);
        OneId(MemberReading(TypeOf(j)).value.r, Text(j, key).value, g, node);
      case Many(family, key) =>
        MemberReads(family, "in", Some(IdsTarget(Texts(j, key).value)), g, node);
        IdsReads(MemberReading(TypeOf(j)).value.r, Texts(j, key).value, g, node);
      case Query(family) =>
        var root := j.fields["root"];
        forall m ensures MapGroup(root).Some? && (Satisfies2(MapGroup(root).value, g, m) <==> Satisfies1(root, g, m)) {
          GroupMeans(root, g, m);
        }
        var target := JObject(map["mode" := JString("query"), "root" := MapGroup(root).value]);
        MemberReads(family, "in", Some(target), g, node);
        QueryReads(MemberReading(TypeOf(j)).value.r, MapGroup(root).value, g, node);
      case Self(family) =>
        MemberReads(family, "in", Some(JObject(map["mode" := JString("self")])), g, node);
        SelfReads(MemberReading(TypeOf(j)).value.r, g, node);
      case SetTest(family) => MemberReads(family, "exists", None, g, node);
      case Exact =>
        var id := Text(j, "classId").value;
        MemberReads("class", "exact", Some(IdsTarget([JString(id)])), g, node);
        ExactReads(JString(id), g, node);
    }
  }

  lemma IdsReads(r: Relation, ids: seq<Json>, g: Graph, node: string)
    ensures InTarget(r, IdsTarget(ids), g, node) <==> AnyRelated(g, r, node, ids)
  {
    var target := IdsTarget(ids);
    assert Key(target, "mode") == Some(JString("ids")) && Key(target, "ids") == Some(JArray(ids));
  }

  lemma OneId(r: Relation, id: string, g: Graph, node: string)
    ensures AnyRelated(g, r, node, [JString(id)]) <==> g.related(r, node, id)
  {
    var ids := [JString(id)];
    if g.related(r, node, id) { assert ids[0].s == id; }
  }

  lemma QueryReads(r: Relation, root: Json, g: Graph, node: string)
    ensures InTarget(r, JObject(map["mode" := JString("query"), "root" := root]), g, node) <==>
            exists m :: m in g.nodes && g.related(r, node, m) && Satisfies2(root, g, m)
  {
    hide Satisfies2;
    var target := JObject(map["mode" := JString("query"), "root" := root]);
    assert Key(target, "mode") == Some(JString("query")) && target.fields["root"] == root;
  }

  lemma SelfReads(r: Relation, g: Graph, node: string)
    ensures InTarget(r, JObject(map["mode" := JString("self")]), g, node) <==> g.related(r, node, g.host)
  {
    assert Key(JObject(map["mode" := JString("self")]), "mode") == Some(JString("self"));
  }

  lemma ExactReads(id: Json, g: Graph, node: string)
    ensures Key(IdsTarget([id]), "ids") == Some(JArray([id]))
    ensures FamilyRelation(Some(JString("class"))) == Some(InClass)
  {
  }

  lemma {:induction false} GroupMeans(j: Json, g: Graph, node: string)
    requires TypeOf(j).Group? && Grammar1(j, true)
    ensures MapGroup(j).Some? && (Satisfies2(MapGroup(j).value, g, node) <==> Satisfies1(j, g, node))
    decreases j, 0
  {
    hide TypeOf, Text, IsLogic, MapChild, MapChildren, Satisfies2, PlainOps, PlainChecked, MemberReading,
         Plain1, Member1;
    OpsAreExtra(j);
    AcceptsGroup(j);
    TypedIsObject(j);
    LogicKey(j);
    var items := j.fields["children"].items;
    ChildrenMean(items, g, node);
    GroupReads(j.fields["logic"], MapChildren(items).value, g, node);
  }

  lemma LogicKey(j: Json)
    requires IsLogic(Key(j, "logic"))
    ensures j.JObject? && "logic" in j.fields
  {
  }

  lemma GroupReads(logic: Json, children: seq<Json>, g: Graph, node: string)
    ensures Satisfies2(JObject(Tagged("group")["logic" := logic]["children" := JArray(children)]), g, node) <==>
            if logic == JString("and") then forall i :: 0 <= i < |children| ==> Satisfies2(children[i], g, node)
            else exists i :: 0 <= i < |children| && Satisfies2(children[i], g, node)
  {
    var d := JObject(Tagged("group")["logic" := logic]["children" := JArray(children)]);
    assert Text(d, "type") == Some("group") && Key(d, "logic") == Some(logic);
    assert d.fields["children"].items == children;
  }

  lemma {:induction false} ChildrenMean(items: seq<Json>, g: Graph, node: string)
    requires forall i :: 0 <= i < |items| ==> Grammar1(items[i], true)
    ensures MapChildren(items).Some? && |MapChildren(items).value| == |items|
    ensures forall i :: 0 <= i < |items| ==>
              (Satisfies2(MapChildren(items).value[i], g, node) <==> Satisfies1(items[i], g, node))
    decreases items, 0
  {
    hide Grammar1, MapChild, Satisfies1, Satisfies2;
    if items != [] {
      ChildMeans(items[0], g, node);
      ChildrenMean(items[1..], g, node);
      assert forall i :: 0 < i < |items| ==> items[i] == items[1..][i - 1];
    }
  }

  // ----- the whole document -----

  /** A document the rewriting is meant for: version 1, a scope, a root group of the grammar. */
  predicate Document1(ast: Json, ops: bool) {
    && Key(ast, "version") == Some(JNumber(1))
    && Key(ast, "scope").Some? && Key(ast, "scope").value.JObject? && Key(ast, "scope").value.fields != map[]
    && "root" in ast.fields && TypeOf(ast.fields["root"]).Group? && Grammar1(ast.fields["root"], ops)
  }

  /** The rewriting succeeds exactly on version 1 documents, and what it accepts the guard accepts. */
  lemma SucceedsExactly(ast: Json)
    ensures MapQueryAst(ast).Some? <==> Document1(ast, false)
    ensures MapQueryAst(ast).Some? ==> IsQueryAstV1(ast)
  {
    hide Grammar1, MapGroup;
    if ast.JObject? && "root" in ast.fields && TypeOf(ast.fields["root"]).Group? {
      AcceptsGroup(ast.fields["root"]);
      GroupHasChildren(ast.fields["root"]);
    }
  }

  lemma GroupHasChildren(j: Json)
    requires TypeOf(j).Group?
    ensures Key(j, "type") == Some(JString("group"))
    ensures MapGroup(j).Some? ==> Key(j, "children").Some? && Key(j, "children").value.JArray?
  {
    hide ParseMember, ParseDate;
    match Key(j, "type") {
      case Some(JString(s)) =>
        MemberIsNoGroup(s);
        DateIsNoGroup(s);
      case _ =>
    }
  }

  lemma MemberIsNoGroup(s: string)
    ensures ParseMember(s) != Group
  {
    hide Is;
  }

  lemma DateIsNoGroup(s: string)
    ensures ParseDate(s) != Group
  {
    hide Is;
  }

  /**
   Scope, sort and aggregation pass through; the root means what it meant; the version moves
   on, so a second rewriting is refused.
   */
  lemma DocumentMeans(ast: Json, g: Graph, node: string)
    requires Document1(ast, true)
    ensures MapQueryAst(ast).Some?
    ensures var image := MapQueryAst(ast).value;
            && Key(image, "version") == Some(JNumber(2))
            && Key(image, "scope") == Key(ast, "scope")
            && Key(image, "sort") == Key(ast, "sort") && Key(image, "aggregation") == Key(ast, "aggregation")
            && Key(image, "root").Some?
            && (Satisfies2(Key(image, "root").value, g, node) <==> Satisfies1(ast.fields["root"], g, node))
            && MapQueryAst(image).None? && !IsQueryAstV1(image)
  {
    hide TypeOf, Grammar1, MapGroup, Satisfies1, Satisfies2, Copy;
    OpsAreExtra(ast.fields["root"]);
    SucceedsExactly(ast);
    GroupMeans(ast.fields["root"], g, node);
    var base := map["version" := JNumber(2), "scope" := Key(ast, "scope").value,
                    "root" := MapGroup(ast.fields["root"]).value];
    var keys := {"sort", "aggregation"};
    assert MapQueryAst(ast).value == JObject(base + Copy(ast, keys));
    CopiedKey(base, ast, keys, "version");
    CopiedKey(base, ast, keys, "scope");
    CopiedKey(base, ast, keys, "root");
    CopiedKey(base, ast, keys, "sort");
    CopiedKey(base, ast, keys, "aggregation");
  }

  /** Any image is refused by the rewriting. */
  lemma ImageRefused(ast: Json)
    requires MapQueryAst(ast).Some?
    ensures MapQueryAst(MapQueryAst(ast).value).None?
  {
    hide ExpectGroup, Copy;
    var base := map["version" := JNumber(2)];
    var keys := {"sort", "aggregation"};
    assert Key(MapQueryAst(ast).value, "version") == Some(JNumber(2)) by { VersionKept(ast, keys); }
  }

  lemma VersionKept(ast: Json, keys: set<string>)
    requires "version" !in keys
    ensures "version" !in Copy(ast, keys)
  {
  }
}
