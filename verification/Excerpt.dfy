/**
 The one-line excerpt of a block's content: a walk over nested tokens that stops at the
 first line break or at the length budget.
 */
module Excerpt {
  import opened Wrappers

  const DISPLAY_NAME_MAX: nat := 80

  datatype Token =
    | Text(text: string)
    | TypedLink(text: string)
    | Mention(customLabel: Option<string>, targetNodeId: string)
    | ClassLink(displayText: Option<string>, classId: Option<string>)
    | Math(expression: string)
    | Quote(children: seq<Token>)
    | Heading(children: seq<Token>)
    | HardBreak
    | Proseless

  /** The optional name lookups; an absent one resolves nothing. */
  datatype Names = Names(className: string -> Option<string>, mentionName: string -> Option<string>)

  datatype Excerpt = Excerpt(text: string, truncated: bool, cutOffset: nat)

  function ChipLabel(displayText: Option<string>, classId: Option<string>, names: Names): string {
    if displayText.Some? then displayText.value
    else if classId.Some? then OrEmpty(names.className(classId.value))
    else ""
  }

  function MentionLabel(customLabel: Option<string>, targetNodeId: string, names: Names): Option<string> {
    if customLabel.Some? then customLabel else names.mentionName(targetNodeId)
  }

  function OrEmpty(s: Option<string>): string {
    if s.Some? then s.value else ""
  }

  // ----- the simple form -----

  /** A character of the prose, or a line break. */
  type Flow = seq<Option<char>>

  function Chars(s: string): Flow {
    seq(|s|, i requires 0 <= i < |s| => Some(s[i]))
  }

  /** Everything the tokens contribute, to the very end. */
  function Flat(tokens: seq<Token>, names: Names): Flow {
    if tokens == [] then [] else Flat(tokens[..|tokens| - 1], names) + FlatToken(tokens[|tokens| - 1], names)
  }

  function FlatToken(token: Token, names: Names): Flow {
    match token
    case Text(text) => Chars(text)
    case TypedLink(text) => Chars(text)
    case Mention(customLabel, target) => Chars(OrEmpty(MentionLabel(customLabel, target, names)))
    case ClassLink(displayText, classId) => Chars(ChipLabel(displayText, classId, names))
    case Math(expression) => Chars(expression)
    case Quote(children) => Flat(children, names)
    case Heading(children) => Flat(children, names)
    case HardBreak => [None]
    case Proseless => []
  }

  /** The text before the first line break. */
  function Line(flow: Flow): string {
    if flow == [] || flow[0].None? then "" else [flow[0].value] + Line(flow[1..])
  }

  predicate HasBreak(flow: Flow) {
    None in flow
  }

  function Cut(s: string): string {
    if |s| > DISPLAY_NAME_MAX then s[..DISPLAY_NAME_MAX] else s
  }

  /** Flatten everything, take the text before the first break, cut it at the budget. */
  function Simple(tokens: seq<Token>, names: Names): Excerpt {
    var flow := Flat(tokens, names);
    var truncated := HasBreak(flow) || |Line(flow)| > DISPLAY_NAME_MAX;
    Excerpt(Cut(Line(flow)), truncated, if truncated then |Cut(Line(flow))| else 0)
  }

  // ----- how the flow composes -----

  lemma {:induction false} LineOfChars(s: string)
    ensures Line(Chars(s)) == s && !HasBreak(Chars(s))
  {
    if s != [] {
      LineOfChars(s[1..]);
      assert Chars(s)[1..] == Chars(s[1..]);
      assert s == [s[0]] + s[1..];
    }
  }

  lemma {:induction false} LineJoins(a: Flow, b: Flow)
    ensures Line(a + b) == if HasBreak(a) then Line(a) else Line(a) + Line(b)
  {
    if a == [] {
      assert a + b == b;
    } else {
      LineJoins(a[1..], b);
      assert (a + b)[1..] == a[1..] + b;
      assert a == [a[0]] + a[1..];
    }
  }

  lemma {:induction false} FlatPrefix(tokens: seq<Token>, n: nat, names: Names)
    requires n <= |tokens|
    ensures Flat(tokens[..n], names) <= Flat(tokens, names)
    decreases |tokens|
  {
    if n == |tokens| {
      assert tokens[..n] == tokens;
    } else {
      FlatPrefix(tokens[..|tokens| - 1], n, names);
      assert tokens[..|tokens| - 1][..n] == tokens[..n];
    }
  }

  /** A break or an overrun among the first tokens decides the excerpt of all of them. */
  lemma DecidedEarly(before: string, flow: Flow, part: Flow)
    requires part <= flow
    requires HasBreak(part) || |before + Line(part)| > DISPLAY_NAME_MAX
    ensures HasBreak(flow) || |before + Line(flow)| > DISPLAY_NAME_MAX
    ensures Cut(before + Line(flow)) == Cut(before + Line(part))
  {
    var rest := flow[|part|..];
    assert flow == part + rest;
    LineJoins(part, rest);
    if HasBreak(part) { assert None in flow; }
  }

  // ----- the walk -----

  class Walker {
    const names: Names
    var prose: string
    var truncated: bool
    var cutOffset: nat

    constructor (names: Names)
      ensures this.names == names && prose == "" && !truncated && cutOffset == 0
    {
      this.names, prose, truncated, cutOffset := names, "", false, 0;
    }

    /** Nothing decided yet. */
    predicate Open()
      reads this
    {
      !truncated && cutOffset == 0 && |prose| <= DISPLAY_NAME_MAX
    }

    /** What the walk over `flow` leaves behind when it began with `before`. */
    ghost predicate Walked(before: string, flow: Flow, stopped: bool)
      reads this
    {
      if stopped then
        && (HasBreak(flow) || |before + Line(flow)| > DISPLAY_NAME_MAX)
        && prose == Cut(before + Line(flow)) && truncated && cutOffset == |prose|
      else
        !HasBreak(flow) && prose == before + Line(flow) && Open()
    }

    /** What is known between two tokens, before the budget is looked at. */
    ghost predicate Appended(before: string, flow: Flow)
      reads this
    {
      !HasBreak(flow) && prose == before + Line(flow) && !truncated && cutOffset == 0
    }

    lemma Appends(before: string, flow: Flow, s: string, now: string)
      requires !HasBreak(flow) && now == before + Line(flow) + s
      ensures !HasBreak(flow + Chars(s)) && now == before + Line(flow + Chars(s))
    {
      LineOfChars(s);
      LineJoins(flow, Chars(s));
    }

    /** The walk over nested tokens; true once the cut is decided. */
    method Walk(tokens: seq<Token>) returns (stopped: bool)
      requires Open()
      modifies this
      ensures Walked(old(prose), Flat(tokens, names), stopped)
      decreases tokens
    {
      hide Line, Chars, FlatToken, HasBreak;
      ghost var before := prose;
      NothingYet(prose);
      assert tokens[..0] == [];
      for n := 0 to |tokens|
        invariant Walked(before, Flat(tokens[..n], names), false)
      {
        ghost var flow := Flat(tokens[..n], names);
        assert tokens[..n + 1][..n] == tokens[..n];
        FlatPrefix(tokens, n + 1, names);
        stopped := Step(tokens[n], tokens, before, flow);
        if !stopped && |prose| > DISPLAY_NAME_MAX {
          truncated := true;
          cutOffset := DISPLAY_NAME_MAX;
          prose := prose[..DISPLAY_NAME_MAX];
          stopped := true;
        }
        if stopped {
          DecidedEarly(before, Flat(tokens, names), Flat(tokens[..n + 1], names));
          return;
        }
      }
      assert tokens[..|tokens|] == tokens;
      stopped := false;
    }

    lemma NothingYet(before: string)
      ensures !HasBreak([]) && before == before + Line([])
    {
    }

    /** The contribution of one token. */
    method Step(token: Token, ghost tokens: seq<Token>, ghost before: string, ghost flow: Flow) returns (stopped: bool)
      requires token in tokens && Walked(before, flow, false)
      modifies this
      ensures if stopped then Walked(before, flow + FlatToken(token, names), true)
              else Appended(before, flow + FlatToken(token, names))
      decreases tokens, 0
    {
      hide Line, Chars, HasBreak, Flat;
      stopped := false;
      match token {
        case Text(text) =>
          Appends(before, flow, text, prose + text);
          prose := prose + text;
        case TypedLink(text) =>
          Appends(before, flow, text, prose + text);
          prose := prose + text;
        case Mention(customLabel, target) =>
          var shown := MentionLabel(customLabel, target, names);
          Appends(before, flow, OrEmpty(shown), prose + OrEmpty(shown));
          if shown.Some? && shown.value != "" { prose := prose + shown.value; }
        case ClassLink(displayText, classId) =>
          var shown := ChipLabel(displayText, classId, names);
          Appends(before, flow, shown, prose + shown);
          prose := prose + shown;
        case Math(expression) =>
          Appends(before, flow, expression, prose + expression);
          prose := prose + expression;
        case Quote(children) =>
          stopped := Walk(children);
          Nested(before, flow, Flat(children, names));
        case Heading(children) =>
          stopped := Walk(children);
          Nested(before, flow, Flat(children, names));
        case HardBreak =>
          Breaks(before, flow);
          truncated := true;
          cutOffset := |prose|;
          stopped := true;
        case Proseless =>
          assert flow + [] == flow;
      }
    }

    lemma Nested(before: string, flow: Flow, inner: Flow)
      requires !HasBreak(flow)
      ensures HasBreak(flow + inner) <==> HasBreak(inner)
      ensures before + Line(flow + inner) == before + Line(flow) + Line(inner)
    {
      LineJoins(flow, inner);
    }

    lemma Breaks(before: string, flow: Flow)
      requires !HasBreak(flow)
      ensures HasBreak(flow + [None]) && Line(flow + [None]) == Line(flow)
    {
      LineJoins(flow, [None]);
    }
  }

  /** The early-exit walk gives the excerpt of the simple form; without content it is empty. */
  method ExcerptOf(ast: Option<seq<Token>>, names: Names) returns (e: Excerpt)
    ensures e == if ast.None? then Excerpt("", false, 0) else Simple(ast.value, names)
  {
    if ast.None? { return Excerpt("", false, 0); }
    var walker := new Walker(names);
    var stopped := walker.Walk(ast.value);
    assert "" + Line(Flat(ast.value, names)) == Line(Flat(ast.value, names));
    e := Excerpt(walker.prose, walker.truncated, walker.cutOffset);
  }

  // ----- what callers read off the excerpt -----

  /** The block's prose with the line breaks left out: the coordinate system of the cut. */
  function Prose(flow: Flow): string {
    if flow == [] then "" else (if flow[0].None? then "" else [flow[0].value]) + Prose(flow[1..])
  }

  lemma {:induction false} LineHeadsProse(flow: Flow)
    ensures Line(flow) <= Prose(flow)
    ensures !HasBreak(flow) ==> Line(flow) == Prose(flow)
  {
    if flow != [] {
      LineHeadsProse(flow[1..]);
      assert flow == [flow[0]] + flow[1..];
    }
  }

  /**
   The excerpt is the head of the block's prose; an excerpt that is not truncated is all
   of it, on one line and within the budget, and a truncated one ends at the cut.
   */
  lemma ExcerptIsHead(tokens: seq<Token>, names: Names)
    ensures var e, flow := Simple(tokens, names), Flat(tokens, names);
            && e.text <= Prose(flow) && |e.text| <= 80
            && (!e.truncated <==> !HasBreak(flow) && |Prose(flow)| <= 80)
            && (!e.truncated ==> e.text == Prose(flow))
            && (e.truncated ==> e.text == Prose(flow)[..e.cutOffset])
  {
    LineHeadsProse(Flat(tokens, names));
  }

  // ----- what the tokens say -----

  /** The tokens in reading order, those of quotes and headings in their place. */
  function Leaves(tokens: seq<Token>): seq<Token>
    decreases tokens
  {
    if tokens == [] then []
    else
      var first := tokens[0];
      (if first.Quote? || first.Heading? then Leaves(first.children) else [first]) + Leaves(tokens[1..])
  }

  /**
   What a leaf says: its own words. A mention is called by its label, or else by the name of its
   target; a class chip by its wording, or else by the name of its class; unnamed they are silent.
   */
  function Says(leaf: Token, names: Names): Flow {
    match leaf
    case Text(words) => seq(|words|, i requires 0 <= i < |words| => Some(words[i]))
    case TypedLink(words) => seq(|words|, i requires 0 <= i < |words| => Some(words[i]))
    case Math(words) => seq(|words|, i requires 0 <= i < |words| => Some(words[i]))
    case Mention(Some(words), _) => seq(|words|, i requires 0 <= i < |words| => Some(words[i]))
    case Mention(None, target) =>
      (match names.mentionName(target)
       case None => []
       case Some(words) => seq(|words|, i requires 0 <= i < |words| => Some(words[i])))
    case ClassLink(Some(words), _) => seq(|words|, i requires 0 <= i < |words| => Some(words[i]))
    case ClassLink(None, None) => []
    case ClassLink(None, Some(id)) =>
      (match names.className(id)
       case None => []
       case Some(words) => seq(|words|, i requires 0 <= i < |words| => Some(words[i])))
    case HardBreak => [None]
    case _ => []
  }

  function AllSay(leaves: seq<Token>, names: Names): Flow {
    if leaves == [] then [] else Says(leaves[0], names) + AllSay(leaves[1..], names)
  }

  lemma {:induction false} AllSayJoins(a: seq<Token>, b: seq<Token>, names: Names)
    ensures AllSay(a + b, names) == AllSay(a, names) + AllSay(b, names)
  {
    hide Says;
    if a == [] {
      assert a + b == b;
    } else {
      AllSayJoins(a[1..], b, names);
      assert (a + b)[1..] == a[1..] + b;
    }
  }

  lemma LeafSays(leaf: Token, names: Names)
    requires !leaf.Quote? && !leaf.Heading?
    ensures FlatToken(leaf, names) == Says(leaf, names)
  {
    assert Chars("") == [];
  }

  lemma {:induction false} FlatHeads(tokens: seq<Token>, names: Names)
    requires tokens != []
    ensures Flat(tokens, names) == FlatToken(tokens[0], names) + Flat(tokens[1..], names)
    decreases |tokens|
  {
    hide FlatToken;
    var n := |tokens| - 1;
    if n == 0 {
      assert tokens[..0] == [] && tokens[1..] == [];
    } else {
      FlatHeads(tokens[..n], names);
      assert tokens[..n][1..] == tokens[1..][..n - 1];
    }
  }

  /** The walk's flow is what the leaves say, one after the other, however they are nested. */
  lemma {:induction false} FlatIsSaid(tokens: seq<Token>, names: Names)
    ensures Flat(tokens, names) == AllSay(Leaves(tokens), names)
    decreases tokens
  {
    if tokens != [] {
      var first := tokens[0];
      hide Says;
      FlatHeads(tokens, names);
      FlatIsSaid(tokens[1..], names);
      if first.Quote? || first.Heading? {
        FlatIsSaid(first.children, names);
        AllSayJoins(Leaves(first.children), Leaves(tokens[1..]), names);
      } else {
        LeafSays(first, names);
        assert ([first] + Leaves(tokens[1..]))[1..] == Leaves(tokens[1..]);
      }
    }
  }
}
