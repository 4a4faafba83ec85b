/**
 The one-time rewriting of version 1 query trees into version 2, on JSON values, and
 what the trees of the two grammars mean over a graph.
 */
module QueryAst {
  import opened Wrappers

  datatype Json =
    | JNull
    | JBool(b: bool)
    | JNumber(n: int)
    | JString(s: string)
    | JArray(items: seq<Json>)
    | JObject(fields: map<string, Json>)

  /** The value of an object's key; absent for a missing key and for anything but an object. */
  function Key(j: Json, key: string): Option<Json> {
    if j.JObject? && key in j.fields then Some(j.fields[key]) else None
  }

  /** A key holding a non-empty string. */
  function Text(j: Json, key: string): Option<string> {
    match Key(j, key)
    case Some(JString(s)) => if s == "" then None else Some(s)
    case _ => None
  }

  predicate AllStrings(items: seq<Json>) {
    forall i :: 0 <= i < |items| ==> items[i].JString?
  }

  /** A key holding a non-empty array of strings. */
  function Texts(j: Json, key: string): Option<seq<Json>> {
    match Key(j, key)
    case Some(JArray(items)) => if items != [] && AllStrings(items) then Some(items) else None
    case _ => None
  }

  /** Copies of the named keys that are present. */
  function Copy(j: Json, keys: set<string>): map<string, Json> {
    if j.JObject? then map k | k in keys && k in j.fields :: j.fields[k] else map[]
  }

  function Tagged(kind: string): map<string, Json> {
    map["type" := JString(kind)]
  }

  // ----- node types -----

  /** The `type` names of version 1: structure, member conditions, plain conditions, dates. */
  datatype NodeType =
    | Group | Not
    | Class | ClassAny | ClassAnyQuery | ClassSelf | ClassSet | ClassExact
    | Tag | TagAny | TagAnyQuery | TagSelf | TagSet | LinkedTo
    | LinkedToAny | LinkedToQuery | LinkedToSelf | LinkSet | ReferencePathOf | ReferencePathOfQuery
    | ReferencePathOfSelf | ParentOf | ParentOfQuery | ParentOfSelf | ParentSet | ChildOf
    | ChildOfQuery | ChildOfSelf | ChildSet | DescendantOf | DescendantOfAny | DescendantOfQuery
    | DescendantOfSelf | DescendantSet | PageOf | PageOfQuery | PageOfSelf | PageSet
    | AncestorIn | AncestorInQuery | AncestorInSelf | RootIn | RootInQuery | RootInSelf
    | Content | ContentSet | Name | Property | PropertyBetween | PropertyWithin
    | IsClass | IsEmbedded | CoverAsset | BannerAsset | AliasedNode
    | CreatedAfter | CreatedBefore | CreatedCmp | CreatedBetween | CreatedWithin | UpdatedAfter
    | UpdatedBefore | UpdatedCmp | UpdatedBetween | UpdatedWithin
    | Unrecognised

  /** The name is this one. */
  predicate Is(s: string, name: string) {
    s == name
  }

  function ParseType(s: string): NodeType {
    if Is(s, "group") then Group
    else if Is(s, "not") then Not
    else if Is(s, "content") then Content
    else if Is(s, "contentSet") then ContentSet
    else if Is(s, "name") then Name
    else if Is(s, "property") then Property
    else if Is(s, "propertyBetween") then PropertyBetween
    else if Is(s, "propertyWithin") then PropertyWithin
    else if Is(s, "isClass") then IsClass
    else if Is(s, "isEmbedded") then IsEmbedded
    else if Is(s, "coverAsset") then CoverAsset
    else if Is(s, "bannerAsset") then BannerAsset
    else if Is(s, "aliasedNode") then AliasedNode
    else ParseDate(s)
  }

  function ParseDate(s: string): NodeType {
    if Is(s, "createdAfter") then CreatedAfter
    else if Is(s, "createdBefore") then CreatedBefore
    else if Is(s, "createdCmp") then CreatedCmp
    else if Is(s, "createdBetween") then CreatedBetween
    else if Is(s, "createdWithin") then CreatedWithin
    else if Is(s, "updatedAfter") then UpdatedAfter
    else if Is(s, "updatedBefore") then UpdatedBefore
    else if Is(s, "updatedCmp") then UpdatedCmp
    else if Is(s, "updatedBetween") then UpdatedBetween
    else if Is(s, "updatedWithin") then UpdatedWithin
    else ParseMember(s)
  }

  function ParseMember(s: string): NodeType {
    if Is(s, "class") then Class
    else if Is(s, "classAny") then ClassAny
    else if Is(s, "classAnyQuery") then ClassAnyQuery
    else if Is(s, "classSelf") then ClassSelf
    else if Is(s, "classSet") then ClassSet
    else if Is(s, "classExact") then ClassExact
    else if Is(s, "tag") then Tag
    else if Is(s, "tagAny") then TagAny
    else if Is(s, "tagAnyQuery") then TagAnyQuery
    else if Is(s, "tagSelf") then TagSelf
    else if Is(s, "tagSet") then TagSet
    else ParseLink(s)
  }

  function ParseLink(s: string): NodeType {
    if Is(s, "linkedTo") then LinkedTo
    else if Is(s, "linkedToAny") then LinkedToAny
    else if Is(s, "linkedToQuery") then LinkedToQuery
    else if Is(s, "linkedToSelf") then LinkedToSelf
    else if Is(s, "linkSet") then LinkSet
    else if Is(s, "referencePathOf") then ReferencePathOf
    else if Is(s, "referencePathOfQuery") then ReferencePathOfQuery
    else if Is(s, "referencePathOfSelf") then ReferencePathOfSelf
    else if Is(s, "parentOf") then ParentOf
    else if Is(s, "parentOfQuery") then ParentOfQuery
    else if Is(s, "parentOfSelf") then ParentOfSelf
    else ParseBelow(s)
  }

  function ParseBelow(s: string): NodeType {
    if Is(s, "parentSet") then ParentSet
    else if Is(s, "childOf") then ChildOf
    else if Is(s, "childOfQuery") then ChildOfQuery
    else if Is(s, "childOfSelf") then ChildOfSelf
    else if Is(s, "childSet") then ChildSet
    else if Is(s, "descendantOf") then DescendantOf
    else if Is(s, "descendantOfAny") then DescendantOfAny
    else if Is(s, "descendantOfQuery") then DescendantOfQuery
    else if Is(s, "descendantOfSelf") then DescendantOfSelf
    else if Is(s, "descendantSet") then DescendantSet
    else ParseAround(s)
  }

  function ParseAround(s: string): NodeType {
    if Is(s, "pageOf") then PageOf
    else if Is(s, "pageOfQuery") then PageOfQuery
    else if Is(s, "pageOfSelf") then PageOfSelf
    else if Is(s, "pageSet") then PageSet
    else if Is(s, "ancestorIn") then AncestorIn
    else if Is(s, "ancestorInQuery") then AncestorInQuery
    else if Is(s, "ancestorInSelf") then AncestorInSelf
    else if Is(s, "rootIn") then RootIn
    else if Is(s, "rootInQuery") then RootInQuery
    else if Is(s, "rootInSelf") then RootInSelf
    else Unrecognised
  }

  /** The type of a tree node: an object's non-empty `type` string, if it is one of version 1. */
  function TypeOf(j: Json): NodeType {
    match Text(j, "type")
    case None => Unrecognised
    case Some(s) => ParseType(s)
  }

  // ----- the mapping -----

  datatype MemberShape =
    | One(family: string, idKey: string)
    | Many(family: string, idsKey: string)
    | Query(family: string)
    | Self(family: string)
    | SetTest(family: string)
    | Exact

  /** Every version 1 member condition and its shape. */
  function MemberSpec(t: NodeType): Option<MemberShape> {
    match t
    case Class => Some(One("class", "classId"))
    case ClassAny => Some(Many("class", "classIds"))
    case ClassAnyQuery => Some(Query("class"))
    case ClassSelf => Some(Self("class"))
    case ClassSet => Some(SetTest("class"))
    case ClassExact => Some(Exact)
    case Tag => Some(One("tags", "tagId"))
    case TagAny => Some(Many("tags", "tagIds"))
    case TagAnyQuery => Some(Query("tags"))
    case TagSelf => Some(Self("tags"))
    case TagSet => Some(SetTest("tags"))
    case LinkedTo => Some(One("links", "nodeId"))
    case LinkedToAny => Some(Many("links", "nodeIds"))
    case LinkedToQuery => Some(Query("links"))
    case LinkedToSelf => Some(Self("links"))
    case LinkSet => Some(SetTest("links"))
    case ReferencePathOf => Some(Many("referencePath", "nodeIds"))
    case ReferencePathOfQuery => Some(Query("referencePath"))
    case ReferencePathOfSelf => Some(Self("referencePath"))
    case ParentOf => Some(Many("parent", "nodeIds"))
    case ParentOfQuery => Some(Query("parent"))
    case ParentOfSelf => Some(Self("parent"))
    case ParentSet => Some(SetTest("parent"))
    case ChildOf => Some(Many("child", "nodeIds"))
    case ChildOfQuery => Some(Query("child"))
    case ChildOfSelf => Some(Self("child"))
    case ChildSet => Some(SetTest("child"))
    case DescendantOf => Some(One("childPath", "nodeId"))
    case DescendantOfAny => Some(Many("childPath", "nodeIds"))
    case DescendantOfQuery => Some(Query("childPath"))
    case DescendantOfSelf => Some(Self("childPath"))
    case DescendantSet => Some(SetTest("childPath"))
    case PageOf => Some(Many("page", "nodeIds"))
    case PageOfQuery => Some(Query("page"))
    case PageOfSelf => Some(Self("page"))
    case PageSet => Some(SetTest("page"))
    case AncestorIn => Some(Many("parentPath", "nodeIds"))
    case AncestorInQuery => Some(Query("parentPath"))
    case AncestorInSelf => Some(Self("parentPath"))
    case RootIn => Some(Many("root", "nodeIds"))
    case RootInQuery => Some(Query("root"))
    case RootInSelf => Some(Self("root"))
    case _ => None
  }

  function IdsTarget(ids: seq<Json>): Json {
    JObject(map["mode" := JString("ids"), "ids" := JArray(ids)])
  }

  function Member(family: string, op: string): map<string, Json> {
    map["type" := JString("member"), "family" := JString(family), "op" := JString(op)]
  }

  function MapMember(spec: MemberShape, c: Json): Option<Json>
    decreases c, 1
  {
    match spec
    case One(family, idKey) =>
      (match Text(c, idKey)
       case None => None
       case Some(id) => Some(JObject(Member(family, "in")["target" := IdsTarget([JString(id)])])))
    case Many(family, idsKey) =>
      (match Texts(c, idsKey)
       case None => None
       case Some(ids) => Some(JObject(Member(family, "in")["target" := IdsTarget(ids)])))
    case Query(family) =>
      if !c.JObject? || "root" !in c.fields then None else
      (match ExpectGroup(c.fields["root"])
       case None => None
       case Some(root) =>
         Some(JObject(Member(family, "in")["target" := JObject(map["mode" := JString("query"), "root" := root])])))
    case Self(family) => Some(JObject(Member(family, "in")["target" := JObject(map["mode" := JString("self")])]))
    case SetTest(family) => Some(JObject(Member(family, "exists")))
    case Exact =>
      (match Text(c, "classId")
       case None => None
       case Some(id) => Some(JObject(Member("class", "exact")["target" := IdsTarget([JString(id)])])))
  }

  function MapFlag(c: Json, field: string): Option<Json> {
    match Key(c, field)
    case Some(JBool(b)) =>
      Some(JObject(Tagged("nodeField")["field" := JString(field)]["op" := JString("eq")]
                   ["value" := JString(if b then "true" else "false")]))
    case _ => None
  }

  function MapField(c: Json, field: string): Json {
    JObject(Tagged("nodeField")["field" := JString(field)] + Copy(c, {"op", "value"}))
  }

  function MapCondition(c: Json): Option<Json>
    decreases c, 2
  {
    var spec := MemberSpec(TypeOf(c));
    if spec.Some? then MapMember(spec.value, c)
    else
      match TypeOf(c)
      case Content => Some(JObject(Tagged("content") + Copy(c, {"op", "value"})))
      case ContentSet => Some(JObject(Tagged("content")["op" := JString("exists")]))
      case Name => Some(JObject(Tagged("name") + Copy(c, {"op", "value"})))
      case Property => Some(JObject(Tagged("property") + Copy(c, {"schemaId", "op", "value", "includeDefaults"})))
      case PropertyBetween =>
        Some(JObject(Tagged("property")["op" := JString("between")] + Copy(c, {"schemaId", "from", "to"})))
      case PropertyWithin =>
        Some(JObject(Tagged("property")["op" := JString("within")] + Copy(c, {"schemaId", "period"})))
      case IsClass => MapFlag(c, "isClass")
      case IsEmbedded => MapFlag(c, "isEmbedded")
      case CoverAsset => Some(MapField(c, "coverAsset"))
      case BannerAsset => Some(MapField(c, "bannerAsset"))
      case AliasedNode => Some(MapField(c, "aliasedNode"))
      case _ => None
  }

  /** The date conditions: the field they read and the comparison they make. */
  function DateSpec(t: NodeType): Option<(string, string)> {
    match t
    case CreatedAfter => Some(("created", "after"))
    case CreatedBefore => Some(("created", "before"))
    case CreatedCmp => Some(("created", "cmp"))
    case CreatedBetween => Some(("created", "between"))
    case CreatedWithin => Some(("created", "within"))
    case UpdatedAfter => Some(("updated", "after"))
    case UpdatedBefore => Some(("updated", "before"))
    case UpdatedCmp => Some(("updated", "cmp"))
    case UpdatedBetween => Some(("updated", "between"))
    case UpdatedWithin => Some(("updated", "within"))
    case _ => None
  }

  function MapDate(field: string, op: string, c: Json): Json {
    var mapped := Tagged("date")["field" := JString(field)];
    JObject(
      if op == "cmp" then mapped + Copy(c, {"op", "timestamp"})
      else
        mapped["op" := JString(op)] +
        Copy(c, if op == "between" then {"from", "to"} else if op == "within" then {"period"} else {"timestamp"}))
  }

  function MapConditionByType(c: Json): Option<Json>
    decreases c, 3
  {
    match DateSpec(TypeOf(c))
    case Some((field, op)) => Some(MapDate(field, op, c))
    case None => MapCondition(c)
  }

  /** The part of a tree below a negation, or a child that is none. */
  function MapUnnegated(j: Json): Option<Json>
    decreases j, 4
  {
    if TypeOf(j).Group? then MapGroup(j) else MapConditionByType(j)
  }

  function MapChild(child: Json): Option<Json>
    decreases child, 5
  {
    if !TypeOf(child).Not? then MapUnnegated(child)
    else if "child" !in child.fields then None
    else
      match MapUnnegated(child.fields["child"])
      case None => None
      case Some(mapped) => Some(JObject(Tagged("not")["child" := mapped]))
  }

  function MapChildren(children: seq<Json>): Option<seq<Json>>
    decreases children, 0
  {
    if children == [] then Some([])
    else
      match MapChild(children[0])
      case None => None
      case Some(first) =>
        match MapChildren(children[1..])
        case None => None
        case Some(rest) => Some([first] + rest)
  }

  predicate IsLogic(j: Option<Json>) {
    j == Some(JString("and")) || j == Some(JString("or"))
  }

  function MapGroup(group: Json): Option<Json>
    decreases group, 0
  {
    if !IsLogic(Key(group, "logic")) then None
    else if "children" !in group.fields || !group.fields["children"].JArray? then None
    else
      match MapChildren(group.fields["children"].items)
      case None => None
      case Some(children) =>
        Some(JObject(Tagged("group")["logic" := group.fields["logic"]]["children" := JArray(children)]))
  }

  function ExpectGroup(value: Json): Option<Json>
    decreases value, 1
  {
    if TypeOf(value).Group? then MapGroup(value) else None
  }

  /** The whole document: version, scope, root, and the two optional parts carried over. */
  function MapQueryAst(ast: Json): Option<Json> {
    if Key(ast, "version") != Some(JNumber(1)) then None
    else
      match Key(ast, "scope")
      case Some(JObject(scope)) =>
        if scope == map[] || "root" !in ast.fields then None else
        (match ExpectGroup(ast.fields["root"])
         case None => None
         case Some(root) =>
           Some(JObject(map["version" := JNumber(2), "scope" := JObject(scope), "root" := root]
                        + Copy(ast, {"sort", "aggregation"}))))
      case _ => None
  }

  /** The structural guard device-side migrations use. */
  predicate IsQueryAstV1(ast: Json) {
    && Key(ast, "version") == Some(JNumber(1))
    && (match Key(ast, "scope") case Some(JObject(_)) => true case _ => false)
    && "root" in ast.fields
    && Key(ast.fields["root"], "type") == Some(JString("group"))
    && (match Key(ast.fields["root"], "children") case Some(JArray(_)) => true case _ => false)
  }
}
