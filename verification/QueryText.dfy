/**
 What a version 1 query tree says, read off its JSON text: the type names as they are
 written, the keys a condition of that name needs, and the nodes that satisfy it. The
 rewriting is measured against this reading, which shares no table with it.
 */
module QueryText {
  import opened QueryAst
  import opened QueryMapping
  import opened QueryMeaning
  import opened Wrappers

  // ----- the type names -----

  /** The member conditions by name: the relation they test and where they say of what. */
  function MemberNamed(t: string): Option<Reading> {
    if Is(t, "class") then Some(AnyOfOne(InClass, "classId"))
    else if Is(t, "classAny") then Some(AnyOf(InClass, "classIds"))
    else if Is(t, "classAnyQuery") then Some(Matching(InClass))
    else if Is(t, "classSelf") then Some(Hosting(InClass))
    else if Is(t, "classSet") then Some(NonEmpty(InClass))
    else if Is(t, "classExact") then Some(Exactly)
    else if Is(t, "tag") then Some(AnyOfOne(HasTag, "tagId"))
    else if Is(t, "tagAny") then Some(AnyOf(HasTag, "tagIds"))
    else if Is(t, "tagAnyQuery") then Some(Matching(HasTag))
    else if Is(t, "tagSelf") then Some(Hosting(HasTag))
    else if Is(t, "tagSet") then Some(NonEmpty(HasTag))
    else LinkNamed(t)
  }

  function LinkNamed(t: string): Option<Reading> {
    if Is(t, "linkedTo") then Some(AnyOfOne(LinkedWith, "nodeId"))
    else if Is(t, "linkedToAny") then Some(AnyOf(LinkedWith, "nodeIds"))
    else if Is(t, "linkedToQuery") then Some(Matching(LinkedWith))
    else if Is(t, "linkedToSelf") then Some(Hosting(LinkedWith))
    else if Is(t, "linkSet") then Some(NonEmpty(LinkedWith))
    else if Is(t, "referencePathOf") then Some(AnyOf(ReferenceChain, "nodeIds"))
    else if Is(t, "referencePathOfQuery") then Some(Matching(ReferenceChain))
    else if Is(t, "referencePathOfSelf") then Some(Hosting(ReferenceChain))
    else if Is(t, "parentOf") then Some(AnyOf(DirectParent, "nodeIds"))
    else if Is(t, "parentOfQuery") then Some(Matching(DirectParent))
    else if Is(t, "parentOfSelf") then Some(Hosting(DirectParent))
    else BelowNamed(t)
  }

  function BelowNamed(t: string): Option<Reading> {
    if Is(t, "parentSet") then Some(NonEmpty(DirectParent))
    else if Is(t, "childOf") then Some(AnyOf(DirectChild, "nodeIds"))
    else if Is(t, "childOfQuery") then Some(Matching(DirectChild))
    else if Is(t, "childOfSelf") then Some(Hosting(DirectChild))
    else if Is(t, "childSet") then Some(NonEmpty(DirectChild))
    else if Is(t, "descendantOf") then Some(AnyOfOne(SubtreeRoot, "nodeId"))
    else if Is(t, "descendantOfAny") then Some(AnyOf(SubtreeRoot, "nodeIds"))
    else if Is(t, "descendantOfQuery") then Some(Matching(SubtreeRoot))
    else if Is(t, "descendantOfSelf") then Some(Hosting(SubtreeRoot))
    else if Is(t, "descendantSet") then Some(NonEmpty(SubtreeRoot))
    else AroundNamed(t)
  }

  function AroundNamed(t: string): Option<Reading> {
    if Is(t, "pageOf") then Some(AnyOf(ContainingPage, "nodeIds"))
    else if Is(t, "pageOfQuery") then Some(Matching(ContainingPage))
    else if Is(t, "pageOfSelf") then Some(Hosting(ContainingPage))
    else if Is(t, "pageSet") then Some(NonEmpty(ContainingPage))
    else if Is(t, "ancestorIn") then Some(AnyOf(StrictAncestor, "nodeIds"))
    else if Is(t, "ancestorInQuery") then Some(Matching(StrictAncestor))
    else if Is(t, "ancestorInSelf") then Some(Hosting(StrictAncestor))
    else if Is(t, "rootIn") then Some(AnyOf(WorkspaceRoot, "nodeIds"))
    else if Is(t, "rootInQuery") then Some(Matching(WorkspaceRoot))
    else if Is(t, "rootInSelf") then Some(Hosting(WorkspaceRoot))
    else None
  }

  // ----- the written grammar -----

  /** A string that is not empty. */
  predicate IsText(j: Option<Json>) {
    match j case Some(JString(s)) => s != "" case _ => false
  }

  /** A list of strings that is not empty. */
  predicate IsTexts(j: Option<Json>) {
    match j
    case Some(JArray(items)) => items != [] && forall i :: 0 <= i < |items| ==> items[i].JString?
    case _ => false
  }

  predicate IsFlag(j: Option<Json>) {
    match j case Some(JBool(_)) => true case _ => false
  }

  predicate NoneOf(op: Option<Json>, names: seq<string>) {
    forall i :: 0 <= i < |names| ==> op != Some(JString(names[i]))
  }

  predicate TypeIs(j: Json, t: string) {
    Key(j, "type") == Some(JString(t))
  }

  /** What a condition on content, names, properties or node fields tests. */
  datatype PlainTest =
    | ContentTest | AnyContent | NameTest
    | PropertyTest | PropertyRange | PropertyPeriod
    | ClassFlag | EmbeddedFlag | WireField(field: string)

  /** The conditions on content, names, properties and node fields by name. */
  function PlainNamed(t: string): Option<PlainTest> {
    if Is(t, "content") then Some(ContentTest)
    else if Is(t, "contentSet") then Some(AnyContent)
    else if Is(t, "name") then Some(NameTest)
    else if Is(t, "property") then Some(PropertyTest)
    else if Is(t, "propertyBetween") then Some(PropertyRange)
    else if Is(t, "propertyWithin") then Some(PropertyPeriod)
    else if Is(t, "isClass") then Some(ClassFlag)
    else if Is(t, "isEmbedded") then Some(EmbeddedFlag)
    else if Is(t, "coverAsset") then Some(WireField("coverAsset"))
    else if Is(t, "bannerAsset") then Some(WireField("bannerAsset"))
    else if Is(t, "aliasedNode") then Some(WireField("aliasedNode"))
    else None
  }

  /** What a date condition compares the date with. */
  datatype DateTest = After | Before | Compared | Between | Within

  /** The date conditions by name: the date of the node they read and the test. */
  function DateNamed(t: string): Option<(DateField, DateTest)> {
    if Is(t, "createdAfter") then Some((Created, After))
    else if Is(t, "createdBefore") then Some((Created, Before))
    else if Is(t, "createdCmp") then Some((Created, Compared))
    else if Is(t, "createdBetween") then Some((Created, Between))
    else if Is(t, "createdWithin") then Some((Created, Within))
    else if Is(t, "updatedAfter") then Some((Updated, After))
    else if Is(t, "updatedBefore") then Some((Updated, Before))
    else if Is(t, "updatedCmp") then Some((Updated, Compared))
    else if Is(t, "updatedBetween") then Some((Updated, Between))
    else if Is(t, "updatedWithin") then Some((Updated, Within))
    else None
  }

  predicate WrittenPlain(test: PlainTest, j: Json, ops: bool) {
    match test
    case ContentTest => ops ==> NoneOf(Key(j, "op"), ["exists"])
    case PropertyTest => ops ==> NoneOf(Key(j, "op"), ["between", "within"])
    case ClassFlag => IsFlag(Key(j, "isClass"))
    case EmbeddedFlag => IsFlag(Key(j, "isEmbedded"))
    case _ => true
  }

  predicate WrittenDate(test: DateTest, j: Json, ops: bool) {
    test.Compared? && ops ==> NoneOf(Key(j, "op"), ["after", "before", "between", "within"])
  }

  /**
   A version 1 tree as its text has it: a known type name, the keys that name needs, no
   negation directly in a negation, nested queries that are groups. With ops set, the plain
   types keep to the ops of version 1.
   */
  predicate Written(j: Json, ops: bool)
    decreases j, 1
  {
    match Key(j, "type")
    case Some(JString(t)) =>
      if t == "group" then
        && (Key(j, "logic") == Some(JString("and")) || Key(j, "logic") == Some(JString("or")))
        && "children" in j.fields && j.fields["children"].JArray?
        && forall i :: 0 <= i < |j.fields["children"].items| ==> Written(j.fields["children"].items[i], ops)
      else if t == "not" then
        "child" in j.fields && !TypeIs(j.fields["child"], "not") && Written(j.fields["child"], ops)
      else if PlainNamed(t).Some? then WrittenPlain(PlainNamed(t).value, j, ops)
      else if DateNamed(t).Some? then WrittenDate(DateNamed(t).value.1, j, ops)
      else
        (match MemberNamed(t)
         case None => false
         case Some(reading) => WrittenMember(reading, j, ops))
    case _ => false
  }

  predicate WrittenMember(reading: Reading, j: Json, ops: bool)
    requires j.JObject?
    decreases j, 0
  {
    match reading
    case AnyOfOne(_, key) => IsText(Key(j, key))
    case AnyOf(_, key) => IsTexts(Key(j, key))
    case Matching(_) => "root" in j.fields && TypeIs(j.fields["root"], "group") && Written(j.fields["root"], ops)
    case Hosting(_) | NonEmpty(_) => true
    case Exactly => IsText(Key(j, "classId"))
  }

  // ----- what it says -----

  ghost predicate MeetsPlain(test: PlainTest, j: Json, g: Graph, node: string) {
    match test
    case ContentTest => g.content(Key(j, "op"), Key(j, "value"), node)
    case AnyContent => g.hasContent(node)
    case NameTest => g.name(Key(j, "op"), Key(j, "value"), node)
    case PropertyTest => g.property(Key(j, "schemaId"), Key(j, "op"), Key(j, "value"), Key(j, "includeDefaults"), node)
    case PropertyRange => g.propertyBetween(Key(j, "schemaId"), Key(j, "from"), Key(j, "to"), node)
    case PropertyPeriod => g.propertyWithin(Key(j, "schemaId"), Key(j, "period"), node)
    case ClassFlag => Key(j, "isClass") == Some(JBool(g.isClass(node)))
    case EmbeddedFlag => Key(j, "isEmbedded") == Some(JBool(g.isEmbedded(node)))
    case WireField(field) => g.wireField(field, Key(j, "op"), Key(j, "value"), node)
  }

  ghost predicate MeetsDate(field: DateField, test: DateTest, j: Json, g: Graph, node: string) {
    match test
    case After => g.after(field, Key(j, "timestamp"), node)
    case Before => g.before(field, Key(j, "timestamp"), node)
    case Compared => g.compared(field, Key(j, "op"), Key(j, "timestamp"), node)
    case Between => g.between(field, Key(j, "from"), Key(j, "to"), node)
    case Within => g.within(field, Key(j, "period"), node)
  }

  /** A node satisfies a version 1 tree as its text has it. */
  ghost predicate Meets(j: Json, g: Graph, node: string)
    decreases j, 1
  {
    match Key(j, "type")
    case Some(JString(t)) =>
      if t == "group" then
        "children" in j.fields && j.fields["children"].JArray? &&
        if Key(j, "logic") == Some(JString("and")) then
          forall i :: 0 <= i < |j.fields["children"].items| ==> Meets(j.fields["children"].items[i], g, node)
        else
          exists i :: 0 <= i < |j.fields["children"].items| && Meets(j.fields["children"].items[i], g, node)
      else if t == "not" then "child" in j.fields && !Meets(j.fields["child"], g, node)
      else if PlainNamed(t).Some? then MeetsPlain(PlainNamed(t).value, j, g, node)
      else if DateNamed(t).Some? then MeetsDate(DateNamed(t).value.0, DateNamed(t).value.1, j, g, node)
      else
        (match MemberNamed(t)
         case None => false
         case Some(reading) => MeetsMember(reading, j, g, node))
    case _ => false
  }

  ghost predicate MeetsMember(reading: Reading, j: Json, g: Graph, node: string)
    requires j.JObject?
    decreases j, 0
  {
    match reading
    case AnyOfOne(r, key) =>
      (match Key(j, key) case Some(JString(id)) => id != "" && g.related(r, node, id) case _ => false)
    case AnyOf(r, key) =>
      IsTexts(Key(j, key)) && exists i :: 0 <= i < |j.fields[key].items| && g.related(r, node, j.fields[key].items[i].s)
    case Matching(r) =>
      "root" in j.fields && exists m :: m in g.nodes && g.related(r, node, m) && Meets(j.fields["root"], g, m)
    case Hosting(r) => g.related(r, node, g.host)
    case NonEmpty(r) => g.nonEmpty(r, node)
    case Exactly =>
      (match Key(j, "classId") case Some(JString(id)) => id != "" && g.exactClass(node, id) case _ => false)
  }

  // ----- the names are read as they are written -----

  /** The tables compare names whole. */
  lemma NamesAreWhole(s: string, name: string)
    ensures Is(s, name) <==> s == name
  {
  }

  lemma MemberNames(t: string)
    ensures MemberNamed(t) == MemberReading(ParseMember(t))
  {
    hide Is;
    LinkNames(t);
    hide LinkNamed, ParseLink;
  }

  lemma LinkNames(t: string)
    ensures LinkNamed(t) == MemberReading(ParseLink(t))
  {
    hide Is;
    BelowNames(t);
    hide BelowNamed, ParseBelow;
  }

  lemma BelowNames(t: string)
    ensures BelowNamed(t) == MemberReading(ParseBelow(t))
  {
    hide Is;
    AroundNames(t);
    hide AroundNamed, ParseAround;
  }

  lemma AroundNames(t: string)
    ensures AroundNamed(t) == MemberReading(ParseAround(t))
  {
    hide Is;
  }

  /** The plain conditions by the type they are read as. */
  function PlainOf(u: NodeType): Option<PlainTest> {
    match u
    case Content => Some(ContentTest)
    case ContentSet => Some(AnyContent)
    case Name => Some(NameTest)
    case Property => Some(PropertyTest)
    case PropertyBetween => Some(PropertyRange)
    case PropertyWithin => Some(PropertyPeriod)
    case IsClass => Some(ClassFlag)
    case IsEmbedded => Some(EmbeddedFlag)
    case CoverAsset => Some(WireField("coverAsset"))
    case BannerAsset => Some(WireField("bannerAsset"))
    case AliasedNode => Some(WireField("aliasedNode"))
    case _ => None
  }

  lemma PlainIsRead(t: string)
    requires !Is(t, "group") && !Is(t, "not")
    ensures PlainNamed(t).Some? ==> PlainNamed(t) == PlainOf(ParseType(t))
    ensures PlainNamed(t).None? ==> ParseType(t) == ParseDate(t)
  {
    hide Is;
    hide ParseDate;
  }

  lemma EmptyName()
    ensures ParseType("") == Unrecognised
  {
    EmptyMember();
    hide ParseMember;
  }

  lemma EmptyMember()
    ensures ParseMember("") == Unrecognised
  {
  }

  lemma TypeByName(j: Json, t: string)
    requires TypeIs(j, t)
    ensures TypeOf(j) == ParseType(t)
  {
    EmptyName();
    hide ParseType;
  }

  /** The date conditions by the type they are read as. */
  function DateOf(u: NodeType): Option<(DateField, DateTest)> {
    match u
    case CreatedAfter => Some((Created, After))
    case CreatedBefore => Some((Created, Before))
    case CreatedCmp => Some((Created, Compared))
    case CreatedBetween => Some((Created, Between))
    case CreatedWithin => Some((Created, Within))
    case UpdatedAfter => Some((Updated, After))
    case UpdatedBefore => Some((Updated, Before))
    case UpdatedCmp => Some((Updated, Compared))
    case UpdatedBetween => Some((Updated, Between))
    case UpdatedWithin => Some((Updated, Within))
    case _ => None
  }

  lemma DateIsRead(t: string)
    ensures DateNamed(t).Some? ==> DateNamed(t) == DateOf(ParseDate(t))
    ensures DateNamed(t).None? ==> ParseDate(t) == ParseMember(t)
  {
    hide Is;
    hide ParseMember;
  }

  /** Plain, date and member types are apart. */
  lemma ReadApart(u: NodeType)
    ensures PlainOf(u).Some? || DateOf(u).Some? ==> MemberReading(u).None? && !u.Group? && !u.Not?
  {
  }

  lemma PlainByType(j: Json, g: Graph, node: string)
    requires PlainOf(TypeOf(j)).Some?
    ensures MeetsPlain(PlainOf(TypeOf(j)).value, j, g, node) <==> Plain1(j, g, node)
  {
    hide TypeOf, Key;
  }

  lemma DateByType(j: Json, g: Graph, node: string)
    requires DateOf(TypeOf(j)).Some?
    ensures MeetsDate(DateOf(TypeOf(j)).value.0, DateOf(TypeOf(j)).value.1, j, g, node) <==> Plain1(j, g, node)
  {
    hide TypeOf, Key;
  }

  lemma PlainMeaning(t: string, j: Json, g: Graph, node: string)
    requires TypeIs(j, t) && t != "group" && t != "not" && PlainNamed(t).Some?
    ensures MeetsPlain(PlainNamed(t).value, j, g, node) <==> Plain1(j, g, node)
  {
    hide ParseType, PlainNamed, TypeOf, Key, Plain1, MeetsPlain, PlainOf;
    TypeByName(j, t);
    PlainIsRead(t);
    PlainByType(j, g, node);
  }

  lemma DateMeaning(t: string, j: Json, g: Graph, node: string)
    requires TypeIs(j, t) && t != "group" && t != "not" && PlainNamed(t).None? && DateNamed(t).Some?
    ensures MeetsDate(DateNamed(t).value.0, DateNamed(t).value.1, j, g, node) <==> Plain1(j, g, node)
  {
    hide ParseType, ParseDate, PlainNamed, DateNamed, TypeOf, Key, Plain1, MeetsDate, DateOf;
    TypeByName(j, t);
    PlainIsRead(t);
    DateIsRead(t);
    DateByType(j, g, node);
  }

  lemma PlainWriting(t: string, j: Json, ops: bool)
    requires TypeIs(j, t) && t != "group" && t != "not" && PlainNamed(t).Some?
    ensures WrittenPlain(PlainNamed(t).value, j, ops) <==> PlainChecked(j) && (ops ==> PlainOps(j))
  {
    TypeByName(j, t);
    PlainIsRead(t);
    NoneOfMeans(Key(j, "op"));
    hide ParseType, PlainNamed, TypeOf, Key, NoneOf;
  }

  lemma DateWriting(t: string, j: Json, ops: bool)
    requires TypeIs(j, t) && t != "group" && t != "not" && PlainNamed(t).None? && DateNamed(t).Some?
    ensures WrittenDate(DateNamed(t).value.1, j, ops) <==> PlainChecked(j) && (ops ==> PlainOps(j))
  {
    TypeByName(j, t);
    PlainIsRead(t);
    DateIsRead(t);
    NoneOfMeans(Key(j, "op"));
    hide ParseType, ParseDate, PlainNamed, DateNamed, TypeOf, Key, NoneOf;
  }

  lemma NoneOfMeans(op: Option<Json>)
    ensures NoneOf(op, ["exists"]) <==> op != Some(JString("exists"))
    ensures NoneOf(op, ["between", "within"]) <==> op != Some(JString("between")) && op != Some(JString("within"))
    ensures NoneOf(op, ["after", "before", "between", "within"]) <==>
            op != Some(JString("after")) && op != Some(JString("before")) &&
            op != Some(JString("between")) && op != Some(JString("within"))
  {
    var names := ["after", "before", "between", "within"];
    assert names[0] == "after" && names[1] == "before" && names[2] == "between" && names[3] == "within";
    var two := ["between", "within"];
    assert two[0] == "between" && two[1] == "within";
    assert ["exists"][0] == "exists";
  }

  // ----- the two readings are one -----

  lemma TextAt(j: Json, key: string)
    ensures IsText(Key(j, key)) <==> Text(j, key).Some?
    ensures Text(j, key).Some? ==> Key(j, key) == Some(JString(Text(j, key).value)) && Text(j, key).value != ""
    ensures IsTexts(Key(j, key)) <==> Texts(j, key).Some?
    ensures Texts(j, key).Some? ==>
              Key(j, key) == Some(JArray(Texts(j, key).value)) && AllStrings(Texts(j, key).value)
  {
  }

  lemma NamedIs(j: Json, t: string)
    requires TypeIs(j, t)
    ensures TypeOf(j).Group? <==> t == "group"
    ensures t != "group" ==> (TypeOf(j).Not? <==> t == "not")
    ensures t != "group" && t != "not" ==>
              MemberReading(TypeOf(j)) == if PlainNamed(t).None? && DateNamed(t).None? then MemberNamed(t) else None
    ensures t == "group" || t == "not" ==> MemberReading(TypeOf(j)).None?
  {
    TypeByName(j, t);
    if t != "group" && t != "not" {
      PlainIsRead(t);
      DateIsRead(t);
      MemberNames(t);
      MemberIsNoGroup(t);
      MemberIsNoNot(t);
      ReadApart(ParseType(t));
      hide ParseType, ParseMember, ParseDate, MemberNamed, MemberReading, TypeOf, PlainNamed, DateNamed, PlainOf,
           DateOf;
    } else {
      hide ParseDate, TypeOf;
    }
  }

  lemma MemberIsNoNot(s: string)
    ensures ParseMember(s) != Not
  {
    hide Is;
  }

  lemma Untyped(j: Json)
    requires forall t :: !TypeIs(j, t)
    ensures TypeOf(j) == Unrecognised && forall ops :: !Written(j, ops)
    ensures forall g, node :: !Meets(j, g, node)
  {
    match Key(j, "type") {
      case Some(JString(t)) => assert TypeIs(j, t);
      case _ =>
    }
  }

  lemma ChildType(j: Json)
    ensures TypeIs(j, "group") <==> TypeOf(j).Group?
    ensures TypeIs(j, "not") <==> TypeOf(j).Not?
  {
    hide TypeOf, Key;
    if t :| TypeIs(j, t) {
      NamedIs(j, t);
      NamedApart();
    } else {
      Untyped(j);
    }
  }

  lemma NamedApart()
    ensures "group" != "not"
  {
    assert |"group"| != |"not"|;
  }

  /** A name of no table is no type of version 1. */
  lemma NoName(j: Json, t: string)
    requires TypeIs(j, t) && t != "group" && t != "not"
    requires PlainNamed(t).None? && DateNamed(t).None? && MemberNamed(t).None?
    ensures TypeOf(j) == Unrecognised
  {
    TypeByName(j, t);
    PlainIsRead(t);
    DateIsRead(t);
    MemberNames(t);
    MemberIsMember(t);
    hide ParseType, ParseMember, ParseDate, MemberNamed, MemberReading, TypeOf, PlainNamed, DateNamed, PlainOf, DateOf;
  }

  predicate ClassOrTagType(u: NodeType) {
    || u.Class? || u.ClassAny? || u.ClassAnyQuery? || u.ClassSelf? || u.ClassSet? || u.ClassExact? || u.Tag?
    || u.TagAny? || u.TagAnyQuery? || u.TagSelf? || u.TagSet?
  }

  predicate LinkOrParentType(u: NodeType) {
    || u.LinkedTo? || u.LinkedToAny? || u.LinkedToQuery? || u.LinkedToSelf? || u.LinkSet?
    || u.ReferencePathOf? || u.ReferencePathOfQuery? || u.ReferencePathOfSelf? || u.ParentOf?
    || u.ParentOfQuery? || u.ParentOfSelf?
  }

  predicate ChildOrSubtreeType(u: NodeType) {
    || u.ParentSet? || u.ChildOf? || u.ChildOfQuery? || u.ChildOfSelf? || u.ChildSet? || u.DescendantOf?
    || u.DescendantOfAny? || u.DescendantOfQuery? || u.DescendantOfSelf? || u.DescendantSet?
  }

  predicate PageOrRootType(u: NodeType) {
    || u.PageOf? || u.PageOfQuery? || u.PageOfSelf? || u.PageSet? || u.AncestorIn? || u.AncestorInQuery?
    || u.AncestorInSelf? || u.RootIn? || u.RootInQuery? || u.RootInSelf?
  }

  lemma MemberReads(s: string)
    ensures ClassOrTagType(ParseMember(s)) || ParseMember(s) == ParseLink(s)
  {
    hide Is;
    hide ParseLink;
  }

  lemma LinkReads(s: string)
    ensures LinkOrParentType(ParseLink(s)) || ParseLink(s) == ParseBelow(s)
  {
    hide Is;
    hide ParseBelow;
  }

  lemma BelowReads(s: string)
    ensures ChildOrSubtreeType(ParseBelow(s)) || ParseBelow(s) == ParseAround(s)
  {
    hide Is;
    hide ParseAround;
  }

  lemma AroundReads(s: string)
    ensures PageOrRootType(ParseAround(s)) || ParseAround(s) == Unrecognised
  {
    hide Is;
  }

  lemma MemberTypesRead(u: NodeType)
    requires ClassOrTagType(u) || LinkOrParentType(u) || ChildOrSubtreeType(u) || PageOrRootType(u)
    ensures MemberReading(u).Some?
  {
  }

  lemma MemberIsMember(s: string)
    ensures MemberReading(ParseMember(s)).None? ==> ParseMember(s).Unrecognised?
  {
    hide ParseMember, ParseLink, ParseBelow, ParseAround, ClassOrTagType, LinkOrParentType, ChildOrSubtreeType,
         PageOrRootType, MemberReading;
    MemberReads(s);
    LinkReads(s);
    BelowReads(s);
    AroundReads(s);
    var u := ParseMember(s);
    if u != Unrecognised { MemberTypesRead(u); }
  }

  lemma MemberWriting(reading: Reading, j: Json, ops: bool)
    requires j.JObject?
    requires "root" in j.fields ==>
               (Written(j.fields["root"], ops) <==> Grammar1(j.fields["root"], ops)) &&
               (TypeIs(j.fields["root"], "group") <==> TypeOf(j.fields["root"]).Group?)
    ensures WrittenMember(reading, j, ops) <==>
            match reading
            case AnyOfOne(_, key) => Text(j, key).Some?
            case AnyOf(_, key) => Texts(j, key).Some?
            case Matching(_) => "root" in j.fields && TypeOf(j.fields["root"]).Group? && Grammar1(j.fields["root"], ops)
            case Hosting(_) => true
            case NonEmpty(_) => true
            case Exactly => Text(j, "classId").Some?
  {
    hide IsText, IsTexts, Text, Texts, Key, TypeOf, Written, Grammar1;
    match reading
    case AnyOfOne(_, key) => TextAt(j, key);
    case AnyOf(_, key) => TextAt(j, key);
    case Exactly => TextAt(j, "classId");
    case _ =>
  }

  /** The written grammar is the grammar the rewriting was checked against. */
  lemma {:induction false} WrittenIsGrammar(j: Json, ops: bool)
    ensures Written(j, ops) <==> Grammar1(j, ops)
    decreases j
  {
    hide TypeOf, ParseType, MemberNamed, MemberReading, PlainNamed, DateNamed, WrittenPlain, WrittenDate,
         PlainOps, IsText, IsTexts, Text, Texts;
    if t :| TypeIs(j, t) {
      NamedIs(j, t);
      if t == "group" {
        if "children" in j.fields && j.fields["children"].JArray? {
          forall i | 0 <= i < |j.fields["children"].items|
            ensures Written(j.fields["children"].items[i], ops) <==> Grammar1(j.fields["children"].items[i], ops)
          {
            WrittenIsGrammar(j.fields["children"].items[i], ops);
          }
        }
      } else if t == "not" {
        if "child" in j.fields {
          WrittenIsGrammar(j.fields["child"], ops);
          ChildType(j.fields["child"]);
        }
      } else if PlainNamed(t).Some? {
        PlainWriting(t, j, ops);
      } else if DateNamed(t).Some? {
        DateWriting(t, j, ops);
      } else if MemberNamed(t).None? {
        NoName(j, t);
      } else {
        if "root" in j.fields {
          WrittenIsGrammar(j.fields["root"], ops);
          ChildType(j.fields["root"]);
        }
        MemberWriting(MemberNamed(t).value, j, ops);
      }
    } else {
      Untyped(j);
      UnreadType();
    }
  }

  lemma UnreadType()
    ensures MemberReading(Unrecognised).None?
  {
  }

  lemma MemberMeaning(reading: Reading, j: Json, g: Graph, node: string)
    requires j.JObject?
    requires "root" in j.fields ==>
               forall m :: Meets(j.fields["root"], g, m) <==> Satisfies1(j.fields["root"], g, m)
    ensures MeetsMember(reading, j, g, node) <==> Member1(reading, j, g, node)
  {
    hide IsText, IsTexts, Text, Texts, Meets, Satisfies1;
    match reading
    case AnyOfOne(_, key) =>
      TextAt(j, key);
      TextRead(j, key);
    case AnyOf(r, key) =>
      TextAt(j, key);
      if Texts(j, key).Some? { AnyRead(r, j, key, g, node); }
    case Exactly =>
      TextAt(j, "classId");
      TextRead(j, "classId");
    case _ =>
  }

  lemma TextRead(j: Json, key: string)
    ensures Text(j, key) == match Key(j, key) case Some(JString(s)) => if s != "" then Some(s) else None case _ => None
  {
  }

  lemma AnyRead(r: Relation, j: Json, key: string, g: Graph, node: string)
    requires Texts(j, key).Some?
    ensures AnyRelated(g, r, node, Texts(j, key).value) <==>
            exists i :: 0 <= i < |j.fields[key].items| && g.related(r, node, j.fields[key].items[i].s)
  {
  }

  /** A node meets a tree as its text has it exactly when it satisfies the tree as the rewriting reads it. */
  lemma {:induction false} MeetsIsSatisfies(j: Json, g: Graph, node: string)
    ensures Meets(j, g, node) <==> Satisfies1(j, g, node)
    decreases j
  {
    hide TypeOf, ParseType, MemberNamed, MemberReading, PlainNamed, DateNamed, MeetsPlain, MeetsDate, Plain1,
         IsText, IsTexts, Text, Texts, MeetsMember, Member1;
    if t :| TypeIs(j, t) {
      NamedIs(j, t);
      if t == "group" {
        if "children" in j.fields && j.fields["children"].JArray? {
          forall i | 0 <= i < |j.fields["children"].items|
            ensures Meets(j.fields["children"].items[i], g, node) <==>
                    Satisfies1(j.fields["children"].items[i], g, node)
          {
            MeetsIsSatisfies(j.fields["children"].items[i], g, node);
          }
        }
      } else if t == "not" {
        if "child" in j.fields { MeetsIsSatisfies(j.fields["child"], g, node); }
      } else if PlainNamed(t).Some? {
        PlainMeaning(t, j, g, node);
      } else if DateNamed(t).Some? {
        DateMeaning(t, j, g, node);
      } else if MemberNamed(t).None? {
        NoName(j, t);
        UnreadMeaning(j, g, node);
      } else {
        if "root" in j.fields {
          forall m ensures Meets(j.fields["root"], g, m) <==> Satisfies1(j.fields["root"], g, m) {
            MeetsIsSatisfies(j.fields["root"], g, m);
          }
        }
        MemberMeaning(MemberNamed(t).value, j, g, node);
      }
    } else {
      Untyped(j);
      UnreadType();
      UnreadMeaning(j, g, node);
    }
  }

  lemma UnreadMeaning(j: Json, g: Graph, node: string)
    requires TypeOf(j) == Unrecognised
    ensures !Plain1(j, g, node)
  {
  }

  // ----- the rewriting, measured against the text -----

  /** A document of version 1 as its text has it. */
  predicate WrittenDocument(ast: Json, ops: bool) {
    && Key(ast, "version") == Some(JNumber(1))
    && (match Key(ast, "scope") case Some(JObject(scope)) => scope != map[] case _ => false)
    && "root" in ast.fields && TypeIs(ast.fields["root"], "group") && Written(ast.fields["root"], ops)
  }

  lemma DocumentAgrees(ast: Json, ops: bool)
    ensures WrittenDocument(ast, ops) <==> Document1(ast, ops)
  {
    hide Written, Grammar1, TypeOf;
    if ast.JObject? && "root" in ast.fields {
      ChildType(ast.fields["root"]);
      WrittenIsGrammar(ast.fields["root"], ops);
    }
  }

  /** The rewriting succeeds exactly on documents of version 1, and those pass the guard. */
  lemma SucceedsExactly(ast: Json)
    ensures MapQueryAst(ast).Some? <==> WrittenDocument(ast, false)
    ensures MapQueryAst(ast).Some? ==> IsQueryAstV1(ast)
  {
    hide MapQueryAst, IsQueryAstV1, WrittenDocument, Document1;
    QueryMapping.SucceedsExactly(ast);
    DocumentAgrees(ast, false);
  }

  /** A child is rewritten exactly when its text is of the grammar. */
  lemma AcceptsChild(j: Json)
    ensures MapChild(j).Some? <==> Written(j, false)
  {
    hide MapChild, Written, Grammar1;
    QueryMapping.AcceptsChild(j);
    WrittenIsGrammar(j, false);
  }

  /** The image of a child is satisfied by exactly the nodes its text speaks of. */
  lemma ChildMeans(j: Json, g: Graph, node: string)
    requires Written(j, true)
    ensures MapChild(j).Some? && (Satisfies2(MapChild(j).value, g, node) <==> Meets(j, g, node))
  {
    hide MapChild, Written, Grammar1, Satisfies1, Satisfies2, Meets;
    WrittenIsGrammar(j, true);
    QueryMapping.ChildMeans(j, g, node);
    MeetsIsSatisfies(j, g, node);
  }

  /** So is the image of a group. */
  lemma GroupMeans(j: Json, g: Graph, node: string)
    requires TypeIs(j, "group") && Written(j, true)
    ensures MapGroup(j).Some? && (Satisfies2(MapGroup(j).value, g, node) <==> Meets(j, g, node))
  {
    hide MapGroup, Written, Grammar1, Satisfies1, Satisfies2, Meets, TypeOf;
    ChildType(j);
    WrittenIsGrammar(j, true);
    QueryMapping.GroupMeans(j, g, node);
    MeetsIsSatisfies(j, g, node);
  }

  /**
   A document of version 1 is rewritten to one of version 2 with the same scope, sort and
   aggregation, whose root is satisfied by exactly the nodes the text of the root speaks of;
   a second rewriting is refused.
   */
  lemma DocumentMeans(ast: Json, g: Graph, node: string)
    requires WrittenDocument(ast, true)
    ensures MapQueryAst(ast).Some?
    ensures var image := MapQueryAst(ast).value;
            && Key(image, "version") == Some(JNumber(2))
            && Key(image, "scope") == Key(ast, "scope")
            && Key(image, "sort") == Key(ast, "sort") && Key(image, "aggregation") == Key(ast, "aggregation")
            && Key(image, "root").Some?
            && (Satisfies2(Key(image, "root").value, g, node) <==> Meets(ast.fields["root"], g, node))
            && MapQueryAst(image).None?
  {
    DocumentAgrees(ast, true);
    hide MapQueryAst, Written, Grammar1, Satisfies1, Satisfies2, Meets, Document1;
    QueryMapping.DocumentMeans(ast, g, node);
    MeetsIsSatisfies(ast.fields["root"], g, node);
  }
}
