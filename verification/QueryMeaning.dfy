/**
 What the trees of the two query grammars mean over a graph.

 A version 1 condition is read by its type name alone; a version 2 condition by its
 type, family, op and target. The two readings share nothing but the graph.
 */
module QueryMeaning {
  import opened QueryAst
  import opened Wrappers

  /** The references of a node a condition may test. */
  datatype Relation =
    | InClass | HasTag | LinkedWith | ReferenceChain | DirectParent | DirectChild | SubtreeRoot | ContainingPage
    | StrictAncestor | WorkspaceRoot

  datatype DateField = Created | Updated

  /** One relation per family, its emptiness read, and the tests of the other conditions. */
  datatype Graph = Graph(
    nodes: set<string>,
    host: string,
    related: (Relation, string, string) -> bool,
    nonEmpty: (Relation, string) -> bool,
    exactClass: (string, string) -> bool,
    content: (Option<Json>, Option<Json>, string) -> bool,
    hasContent: string -> bool,
    name: (Option<Json>, Option<Json>, string) -> bool,
    property: (Option<Json>, Option<Json>, Option<Json>, Option<Json>, string) -> bool,
    propertyBetween: (Option<Json>, Option<Json>, Option<Json>, string) -> bool,
    propertyWithin: (Option<Json>, Option<Json>, string) -> bool,
    compared: (DateField, Option<Json>, Option<Json>, string) -> bool,
    after: (DateField, Option<Json>, string) -> bool,
    before: (DateField, Option<Json>, string) -> bool,
    between: (DateField, Option<Json>, Option<Json>, string) -> bool,
    within: (DateField, Option<Json>, string) -> bool,
    isClass: string -> bool,
    isEmbedded: string -> bool,
    wireField: (string, Option<Json>, Option<Json>, string) -> bool)

  ghost predicate AnyRelated(g: Graph, r: Relation, node: string, ids: seq<Json>) {
    exists i :: 0 <= i < |ids| && ids[i].JString? && g.related(r, node, ids[i].s)
  }

  // ----- version 1 -----

  /** What a member condition of version 1 says, by its type name. */
  datatype Reading =
    | AnyOfOne(r: Relation, key: string)
    | AnyOf(r: Relation, key: string)
    | Matching(r: Relation)
    | Hosting(r: Relation)
    | NonEmpty(r: Relation)
    | Exactly

  function MemberReading(t: NodeType): Option<Reading> {
    match t
    case Class => Some(AnyOfOne(InClass, "classId"))
    case ClassAny => Some(AnyOf(InClass, "classIds"))
    case ClassAnyQuery => Some(Matching(InClass))
    case ClassSelf => Some(Hosting(InClass))
    case ClassSet => Some(NonEmpty(InClass))
    case ClassExact => Some(Exactly)
    case Tag => Some(AnyOfOne(HasTag, "tagId"))
    case TagAny => Some(AnyOf(HasTag, "tagIds"))
    case TagAnyQuery => Some(Matching(HasTag))
    case TagSelf => Some(Hosting(HasTag))
    case TagSet => Some(NonEmpty(HasTag))
    case LinkedTo => Some(AnyOfOne(LinkedWith, "nodeId"))
    case LinkedToAny => Some(AnyOf(LinkedWith, "nodeIds"))
    case LinkedToQuery => Some(Matching(LinkedWith))
    case LinkedToSelf => Some(Hosting(LinkedWith))
    case LinkSet => Some(NonEmpty(LinkedWith))
    case ReferencePathOf => Some(AnyOf(ReferenceChain, "nodeIds"))
    case ReferencePathOfQuery => Some(Matching(ReferenceChain))
    case ReferencePathOfSelf => Some(Hosting(ReferenceChain))
    case ParentOf => Some(AnyOf(DirectParent, "nodeIds"))
    case ParentOfQuery => Some(Matching(DirectParent))
    case ParentOfSelf => Some(Hosting(DirectParent))
    case ParentSet => Some(NonEmpty(DirectParent))
    case ChildOf => Some(AnyOf(DirectChild, "nodeIds"))
    case ChildOfQuery => Some(Matching(DirectChild))
    case ChildOfSelf => Some(Hosting(DirectChild))
    case ChildSet => Some(NonEmpty(DirectChild))
    case DescendantOf => Some(AnyOfOne(SubtreeRoot, "nodeId"))
    case DescendantOfAny => Some(AnyOf(SubtreeRoot, "nodeIds"))
    case DescendantOfQuery => Some(Matching(SubtreeRoot))
    case DescendantOfSelf => Some(Hosting(SubtreeRoot))
    case DescendantSet => Some(NonEmpty(SubtreeRoot))
    case PageOf => Some(AnyOf(ContainingPage, "nodeIds"))
    case PageOfQuery => Some(Matching(ContainingPage))
    case PageOfSelf => Some(Hosting(ContainingPage))
    case PageSet => Some(NonEmpty(ContainingPage))
    case AncestorIn => Some(AnyOf(StrictAncestor, "nodeIds"))
    case AncestorInQuery => Some(Matching(StrictAncestor))
    case AncestorInSelf => Some(Hosting(StrictAncestor))
    case RootIn => Some(AnyOf(WorkspaceRoot, "nodeIds"))
    case RootInQuery => Some(Matching(WorkspaceRoot))
    case RootInSelf => Some(Hosting(WorkspaceRoot))
    case _ => None
  }

  ghost predicate Member1(reading: Reading, c: Json, g: Graph, node: string)
    decreases c, 0
  {
    match reading
    case AnyOfOne(r, key) => Text(c, key).Some? && g.related(r, node, Text(c, key).value)
    case AnyOf(r, key) => Texts(c, key).Some? && AnyRelated(g, r, node, Texts(c, key).value)
    case Matching(r) =>
      c.JObject? && "root" in c.fields &&
      exists m :: m in g.nodes && g.related(r, node, m) && Satisfies1(c.fields["root"], g, m)
    case Hosting(r) => g.related(r, node, g.host)
    case NonEmpty(r) => g.nonEmpty(r, node)
    case Exactly => Text(c, "classId").Some? && g.exactClass(node, Text(c, "classId").value)
  }

  ghost predicate Plain1(c: Json, g: Graph, node: string) {
    match TypeOf(c)
    case Content => g.content(Key(c, "op"), Key(c, "value"), node)
    case ContentSet => g.hasContent(node)
    case Name => g.name(Key(c, "op"), Key(c, "value"), node)
    case Property => g.property(Key(c, "schemaId"), Key(c, "op"), Key(c, "value"), Key(c, "includeDefaults"), node)
    case PropertyBetween => g.propertyBetween(Key(c, "schemaId"), Key(c, "from"), Key(c, "to"), node)
    case PropertyWithin => g.propertyWithin(Key(c, "schemaId"), Key(c, "period"), node)
    case CreatedAfter => g.after(Created, Key(c, "timestamp"), node)
    case CreatedBefore => g.before(Created, Key(c, "timestamp"), node)
    case CreatedCmp => g.compared(Created, Key(c, "op"), Key(c, "timestamp"), node)
    case CreatedBetween => g.between(Created, Key(c, "from"), Key(c, "to"), node)
    case CreatedWithin => g.within(Created, Key(c, "period"), node)
    case UpdatedAfter => g.after(Updated, Key(c, "timestamp"), node)
    case UpdatedBefore => g.before(Updated, Key(c, "timestamp"), node)
    case UpdatedCmp => g.compared(Updated, Key(c, "op"), Key(c, "timestamp"), node)
    case UpdatedBetween => g.between(Updated, Key(c, "from"), Key(c, "to"), node)
    case UpdatedWithin => g.within(Updated, Key(c, "period"), node)
    case IsClass => Key(c, "isClass") == Some(JBool(g.isClass(node)))
    case IsEmbedded => Key(c, "isEmbedded") == Some(JBool(g.isEmbedded(node)))
    case CoverAsset => g.wireField("coverAsset", Key(c, "op"), Key(c, "value"), node)
    case BannerAsset => g.wireField("bannerAsset", Key(c, "op"), Key(c, "value"), node)
    case AliasedNode => g.wireField("aliasedNode", Key(c, "op"), Key(c, "value"), node)
    case _ => false
  }

  /** A node satisfies a version 1 tree: a group, a negation or a condition. */
  ghost predicate Satisfies1(j: Json, g: Graph, node: string)
    decreases j, 1
  {
    if TypeOf(j).Group? then
      "children" in j.fields && j.fields["children"].JArray? &&
      if Key(j, "logic") == Some(JString("and")) then
        forall i :: 0 <= i < |j.fields["children"].items| ==> Satisfies1(j.fields["children"].items[i], g, node)
      else
        exists i :: 0 <= i < |j.fields["children"].items| && Satisfies1(j.fields["children"].items[i], g, node)
    else if TypeOf(j).Not? then "child" in j.fields && !Satisfies1(j.fields["child"], g, node)
    else if MemberReading(TypeOf(j)).Some? then Member1(MemberReading(TypeOf(j)).value, j, g, node)
    else Plain1(j, g, node)
  }

  // ----- version 2 -----

  function FamilyRelation(family: Option<Json>): Option<Relation> {
    if family == Some(JString("class")) then Some(InClass)
    else if family == Some(JString("tags")) then Some(HasTag)
    else if family == Some(JString("links")) then Some(LinkedWith)
    else if family == Some(JString("referencePath")) then Some(ReferenceChain)
    else if family == Some(JString("parent")) then Some(DirectParent)
    else if family == Some(JString("child")) then Some(DirectChild)
    else if family == Some(JString("childPath")) then Some(SubtreeRoot)
    else if family == Some(JString("page")) then Some(ContainingPage)
    else if family == Some(JString("parentPath")) then Some(StrictAncestor)
    else if family == Some(JString("root")) then Some(WorkspaceRoot)
    else None
  }

  ghost predicate InTarget(r: Relation, target: Json, g: Graph, node: string)
    decreases target, 0
  {
    var mode := Key(target, "mode");
    if mode == Some(JString("ids")) then
      match Key(target, "ids") case Some(JArray(ids)) => AnyRelated(g, r, node, ids) case _ => false
    else if mode == Some(JString("query")) then
      "root" in target.fields &&
      exists m :: m in g.nodes && g.related(r, node, m) && Satisfies2(target.fields["root"], g, m)
    else mode == Some(JString("self")) && g.related(r, node, g.host)
  }

  ghost predicate Member2(c: Json, g: Graph, node: string)
    requires c.JObject?
    decreases c, 0
  {
    var op, family := Key(c, "op"), FamilyRelation(Key(c, "family"));
    family.Some? &&
    if op == Some(JString("in")) then "target" in c.fields && InTarget(family.value, c.fields["target"], g, node)
    else if op == Some(JString("not-in")) then
      "target" in c.fields && !InTarget(family.value, c.fields["target"], g, node)
    else if op == Some(JString("exists")) then g.nonEmpty(family.value, node)
    else if op == Some(JString("not-exists")) then !g.nonEmpty(family.value, node)
    else
      op == Some(JString("exact")) && family.value.InClass? && "target" in c.fields &&
      match Key(c.fields["target"], "ids")
      case Some(JArray(ids)) => |ids| == 1 && ids[0].JString? && g.exactClass(node, ids[0].s)
      case _ => false
  }

  function FieldOf(c: Json): Option<DateField> {
    if Key(c, "field") == Some(JString("created")) then Some(Created)
    else if Key(c, "field") == Some(JString("updated")) then Some(Updated)
    else None
  }

  ghost predicate Plain2(t: string, c: Json, g: Graph, node: string) {
    var op := Key(c, "op");
    if t == "content" then
      if op == Some(JString("exists")) then g.hasContent(node) else g.content(op, Key(c, "value"), node)
    else if t == "name" then g.name(op, Key(c, "value"), node)
    else if t == "property" then
      if op == Some(JString("between")) then g.propertyBetween(Key(c, "schemaId"), Key(c, "from"), Key(c, "to"), node)
      else if op == Some(JString("within")) then g.propertyWithin(Key(c, "schemaId"), Key(c, "period"), node)
      else g.property(Key(c, "schemaId"), op, Key(c, "value"), Key(c, "includeDefaults"), node)
    else if t == "date" then
      match FieldOf(c)
      case None => false
      case Some(field) =>
        if op == Some(JString("after")) then g.after(field, Key(c, "timestamp"), node)
        else if op == Some(JString("before")) then g.before(field, Key(c, "timestamp"), node)
        else if op == Some(JString("between")) then g.between(field, Key(c, "from"), Key(c, "to"), node)
        else if op == Some(JString("within")) then g.within(field, Key(c, "period"), node)
        else g.compared(field, op, Key(c, "timestamp"), node)
    else
      t == "nodeField" &&
      match Key(c, "field")
      case Some(JString(field)) =>
        if field == "isClass" then
          op == Some(JString("eq")) && Key(c, "value") == Some(JString(if g.isClass(node) then "true" else "false"))
        else if field == "isEmbedded" then
          op == Some(JString("eq")) && Key(c, "value") == Some(JString(if g.isEmbedded(node) then "true" else "false"))
        else g.wireField(field, op, Key(c, "value"), node)
      case _ => false
  }

  /** A node satisfies a version 2 tree. */
  ghost predicate Satisfies2(j: Json, g: Graph, node: string)
    decreases j, 1
  {
    match Text(j, "type")
    case None => false
    case Some(t) =>
      if t == "group" then
        "children" in j.fields && j.fields["children"].JArray? &&
        if Key(j, "logic") == Some(JString("and")) then
          forall i :: 0 <= i < |j.fields["children"].items| ==> Satisfies2(j.fields["children"].items[i], g, node)
        else
          exists i :: 0 <= i < |j.fields["children"].items| && Satisfies2(j.fields["children"].items[i], g, node)
      else if t == "not" then "child" in j.fields && !Satisfies2(j.fields["child"], g, node)
      else if t == "member" then Member2(j, g, node)
      else Plain2(t, j, g, node)
  }

  // ----- the version 1 grammar -----

  /** A plain or date condition; the two flags need a boolean under their own name. */
  predicate PlainChecked(c: Json) {
    match TypeOf(c)
    case IsClass => Key(c, "isClass").Some? && Key(c, "isClass").value.JBool?
    case IsEmbedded => Key(c, "isEmbedded").Some? && Key(c, "isEmbedded").value.JBool?
    case Unrecognised => false
    case _ => true
  }

  /** The comparisons version 1 kept in types of their own are not ops of the plain ones. */
  predicate PlainOps(c: Json) {
    var op := Key(c, "op");
    match TypeOf(c)
    case Content => op != Some(JString("exists"))
    case Property => op != Some(JString("between")) && op != Some(JString("within"))
    case CreatedCmp | UpdatedCmp =>
      op != Some(JString("after")) && op != Some(JString("before")) &&
      op != Some(JString("between")) && op != Some(JString("within"))
    case _ => true
  }

  /**
   A condition, group or negation of version 1: known type, the fields its type demands,
   negations directly around a condition or a group, nested queries likewise. With ops
   set, the ops of version 1 as well.
   */
  predicate Grammar1(j: Json, ops: bool)
    decreases j, 1
  {
    if TypeOf(j).Group? then
      && IsLogic(Key(j, "logic"))
      && "children" in j.fields && j.fields["children"].JArray?
      && forall i :: 0 <= i < |j.fields["children"].items| ==> Grammar1(j.fields["children"].items[i], ops)
    else if TypeOf(j).Not? then
      "child" in j.fields && !TypeOf(j.fields["child"]).Not? && Grammar1(j.fields["child"], ops)
    else if MemberReading(TypeOf(j)).Some? then
      match MemberReading(TypeOf(j)).value
      case AnyOfOne(_, key) => Text(j, key).Some?
      case AnyOf(_, key) => Texts(j, key).Some?
      case Matching(_) => "root" in j.fields && TypeOf(j.fields["root"]).Group? && Grammar1(j.fields["root"], ops)
      case Hosting(_) => true
      case NonEmpty(_) => true
      case Exactly => Text(j, "classId").Some?
    else PlainChecked(j) && (ops ==> PlainOps(j))
  }
}
