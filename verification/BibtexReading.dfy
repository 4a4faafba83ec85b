/**
 Documents as people write them, put together from pieces: braced, quoted and bare values,
 repeated fields, comments, skipped constructs, stray text and garbled fields. Reading such
 a document gives what its pieces say.
 */
module BibtexReading {
  import opened Bibtex
  import opened BibtexRoundTrip
  import opened Text
  import opened Wrappers

  // ----- the pieces -----

  /** Whitespace, or a percent comment with its line break. */
  datatype Noise = Blank(c: char) | Remark(text: string)

  datatype Value = Braced(text: string) | Quoted(text: string) | Bare(text: string)

  /** A piece of an entry's body. Commas are stray characters like others. */
  datatype Item =
    | Assigned(gap: seq<Noise>, name: string, beforeEquals: seq<Noise>, beforeValue: seq<Noise>, value: Value)
    | Stray(gap: seq<Noise>, c: char)
    | Garbled(gap: seq<Noise>, name: string, beforeJunk: seq<Noise>, junk: string)

  datatype Body = BracedBody(text: string) | QuotedBody(text: string) | LineBody(text: string)

  /** A piece of a document. An entry that is not closed ends the document. */
  datatype Chunk =
    | Gap(noise: seq<Noise>)
    | Written(kind: string, beforeBrace: seq<Noise>, beforeKey: seq<Noise>, key: string, items: seq<Item>,
              beforeEnd: seq<Noise>, closed: bool)
    | Skipped(kind: string, beforeBody: seq<Noise>, body: Body)
    | Prose(text: string)
    | LoneAt(c: char)
    | Mention(name: string, after: seq<Noise>)

  // ----- their text -----

  function PieceText(n: Noise): string {
    match n case Blank(c) => [c] case Remark(text) => "%" + text + "\n"
  }

  function NoiseText(noise: seq<Noise>): string {
    if noise == [] then "" else PieceText(noise[0]) + NoiseText(noise[1..])
  }

  function ValueText(v: Value): string {
    match v
    case Braced(text) => "{" + text + "}"
    case Quoted(text) => "\"" + text + "\""
    case Bare(text) => text
  }

  function ItemText(item: Item): string {
    match item
    case Assigned(gap, name, n1, n2, value) =>
      NoiseText(gap) + (name + (NoiseText(n1) + ("=" + (NoiseText(n2) + ValueText(value)))))
    case Stray(gap, c) => NoiseText(gap) + [c]
    case Garbled(gap, name, n1, junk) => NoiseText(gap) + (name + (NoiseText(n1) + junk))
  }

  function ItemsText(items: seq<Item>): string {
    if items == [] then "" else ItemText(items[0]) + ItemsText(items[1..])
  }

  function EndText(noise: seq<Noise>, closed: bool): string {
    NoiseText(noise) + if closed then "}" else ""
  }

  function BodyText(body: Body): string {
    match body
    case BracedBody(text) => "{" + text + "}"
    case QuotedBody(text) => "\"" + text + "\""
    case LineBody(text) => text
  }

  function ChunkText(chunk: Chunk): string {
    match chunk
    case Gap(noise) => NoiseText(noise)
    case Written(kind, n1, n2, key, items, n3, closed) =>
      "@" + (kind + (NoiseText(n1) + ("{" + (NoiseText(n2) + (key + (ItemsText(items) + EndText(n3, closed)))))))
    case Skipped(kind, n1, body) => "@" + (kind + (NoiseText(n1) + BodyText(body)))
    case Prose(text) => text
    case LoneAt(c) => "@" + [c]
    case Mention(name, after) => "@" + (name + NoiseText(after))
  }

  function DocumentText(chunks: seq<Chunk>): string {
    if chunks == [] then "" else ChunkText(chunks[0]) + DocumentText(chunks[1..])
  }

  // ----- what they say -----

  /** How many braces are open at the end of the text. */
  function Level(s: string): int {
    if s == [] then 0
    else Level(s[..|s| - 1]) + if s[|s| - 1] == '{' then 1 else if s[|s| - 1] == '}' then -1 else 0
  }

  /** Every closing brace has its opening one before it, and none stays open. */
  ghost predicate Balanced(s: string) {
    Level(s) == 0 && forall i :: 0 <= i <= |s| ==> Level(s[..i]) >= 0
  }

  /** The text without its braces. */
  function Unbraced(s: string): string {
    if s == [] then [] else (if s[0] == '{' || s[0] == '}' then [] else [s[0]]) + Unbraced(s[1..])
  }

  function ValueSays(v: Value): string {
    match v
    case Braced(text) => Unbraced(text)
    case Quoted(text) => text
    case Bare(text) => Trim(text)
  }

  /** The fields an entry's body assigns: names in the order they first come, each with its last value. */
  function FieldsSaid(items: seq<Item>): seq<Field> {
    if items == [] then []
    else
      var before, last := FieldsSaid(items[..|items| - 1]), items[|items| - 1];
      if !last.Assigned? then before
      else
        var place := PlaceOf(before, Lower(last.name));
        if place.None? then before + [Field(Lower(last.name), ValueSays(last.value))]
        else before[place.value := Field(Lower(last.name), ValueSays(last.value))]
  }

  function PlaceOf(fields: seq<Field>, name: string): (r: Option<nat>)
    ensures r.Some? ==> r.value < |fields| && fields[r.value].name == name
    ensures r.None? ==> forall i :: 0 <= i < |fields| ==> fields[i].name != name
  {
    if fields == [] then None
    else if fields[|fields| - 1].name == name then Some(|fields| - 1)
    else PlaceOf(fields[..|fields| - 1], name)
  }

  function EntriesSaid(chunks: seq<Chunk>): seq<Entry> {
    if chunks == [] then []
    else
      (match chunks[0]
       case Written(kind, _, _, key, items, _, _) => [Entry(Lower(kind), key, FieldsSaid(items))]
       case _ => []) + EntriesSaid(chunks[1..])
  }

  // ----- which pieces may stand where -----

  predicate WellPiece(n: Noise) {
    match n case Blank(c) => IsSpace(c) case Remark(text) => '\n' !in text
  }

  predicate WellNoise(noise: seq<Noise>) {
    forall n :: n in noise ==> WellPiece(n)
  }

  /** A text that begins with neither whitespace nor a comment. */
  predicate Firm(s: string) {
    s != "" ==> !IsSpace(s[0]) && s[0] != '%'
  }

  predicate Ends(s: string) {
    s == "" || s[0] == ',' || s[0] == '}'
  }

  /** A bare value has no comma and no closing brace outside braces of its own, and ends at one. */
  ghost predicate WellValue(v: Value, rest: string) {
    match v
    case Braced(text) => Balanced(text)
    case Quoted(text) => '"' !in text
    case Bare(text) =>
      && Balanced(text) && (forall i :: 0 <= i < |text| && text[i] == ',' ==> Level(text[..i]) > 0)
      && Firm(text) && (text == "" || (text[0] != '{' && text[0] != '"'))
      && Ends(rest)
  }

  predicate WellName(name: string) {
    name != "" && IsNameStart(name[0]) && AllNameChars(name)
  }

  /** After a name without noise no further name character may follow. */
  predicate NameStops(noise: seq<Noise>, rest: string) {
    noise == [] ==> rest == "" || !IsNameChar(rest[0])
  }

  ghost predicate WellItem(item: Item, rest: string) {
    match item
    case Assigned(gap, name, n1, n2, value) =>
      WellNoise(gap) && WellName(name) && WellNoise(n1) && WellNoise(n2) && WellValue(value, rest)
    case Stray(gap, c) => WellNoise(gap) && c != '}' && !IsNameStart(c) && !IsSpace(c) && c != '%'
    case Garbled(gap, name, n1, junk) =>
      && WellNoise(gap) && WellName(name) && WellNoise(n1) && NameStops(n1, junk + rest)
      && Firm(junk + rest) && !Starts(junk + rest, '=') && ',' !in junk && '}' !in junk && Ends(rest)
  }

  ghost predicate WellItems(items: seq<Item>, rest: string) {
    items == [] || (WellItem(items[0], ItemsText(items[1..]) + rest) && WellItems(items[1..], rest))
  }

  ghost predicate WellBody(body: Body, noise: seq<Noise>, rest: string) {
    match body
    case BracedBody(text) => Balanced(text)
    case QuotedBody(text) => '"' !in text
    case LineBody(text) =>
      && text != "" && Firm(text) && text[0] != '{' && text[0] != '"' && '\n' !in text && NameStops(noise, text)
      && (rest == "" || rest[0] == '\n')
  }

  /** The kinds that open no entry. */
  predicate IsSkipped(kind: string) {
    var k := Lower(kind);
    k == "comment" || k == "string" || k == "preamble" || k == "i" || k == "include"
  }

  ghost predicate WellChunk(chunk: Chunk, rest: string) {
    match chunk
    case Gap(noise) => WellNoise(noise)
    case Written(kind, n1, n2, key, items, n3, closed) =>
      var behind := ItemsText(items) + (EndText(n3, closed) + rest);
      && kind != "" && AllNameChars(kind) && !IsSkipped(kind) && AllNameChars(key)
      && WellNoise(n1) && WellNoise(n2) && WellNoise(n3)
      && (closed || rest == "") && (behind != "" ==> !IsNameChar(behind[0])) && (key == "" ==> Firm(behind))
      && WellItems(items, EndText(n3, closed) + rest)
    case Skipped(kind, n1, body) =>
      && kind != "" && AllNameChars(kind) && IsSkipped(kind) && WellNoise(n1) && WellBody(body, n1, rest)
    case Prose(text) => text != "" && Firm(text) && '@' !in text && (rest == "" || rest[0] == '@')
    case LoneAt(c) => !IsNameChar(c)
    case Mention(name, after) =>
      && name != "" && AllNameChars(name) && !IsSkipped(name) && WellNoise(after)
      && Firm(rest) && !Starts(rest, '{') && NameStops(after, rest)
  }

  ghost predicate WellWritten(chunks: seq<Chunk>) {
    chunks == [] || (WellChunk(chunks[0], DocumentText(chunks[1..])) && WellWritten(chunks[1..]))
  }

  // ----- noise -----

  lemma SkipRemark(text: string, rest: string)
    requires '\n' !in text
    ensures SkipNoise("%" + text + "\n" + rest) == SkipNoise(rest)
  {
    var s := "%" + text + "\n" + rest;
    assert s[1..] == text + ("\n" + rest);
    LineEnds(text, "\n" + rest);
    SkipSpace('\n', rest);
    assert !IsSpace('%');
  }

  lemma {:induction false} LineEnds(text: string, rest: string)
    requires '\n' !in text && Starts(rest, '\n')
    ensures SkipLine(text + rest) == rest
  {
    if text == "" {
      assert text + rest == rest;
    } else {
      assert text[0] in text && forall c :: c in text[1..] ==> c in text;
      LineEnds(text[1..], rest);
      assert (text + rest)[1..] == text[1..] + rest;
    }
  }

  lemma SkipPiece(n: Noise, rest: string)
    requires WellPiece(n)
    ensures SkipNoise(PieceText(n) + rest) == SkipNoise(rest)
  {
    hide SkipNoise, IsSpace;
    match n
    case Blank(c) => SkipSpace(c, rest);
    case Remark(text) => SkipRemark(text, rest);
  }

  lemma {:induction false} SkipNoiseText(noise: seq<Noise>, rest: string)
    requires WellNoise(noise)
    ensures SkipNoise(NoiseText(noise) + rest) == SkipNoise(rest)
  {
    hide SkipNoise, WellPiece, PieceText;
    if noise == [] {
      assert NoiseText(noise) + rest == rest;
    } else {
      var first, more := noise[0], noise[1..];
      assert first in noise && forall n :: n in more ==> n in noise;
      SkipNoiseText(more, rest);
      SkipPiece(first, NoiseText(more) + rest);
      assert NoiseText(noise) + rest == PieceText(first) + (NoiseText(more) + rest);
    }
  }

  lemma {:induction false} SkipTwice(s: string)
    ensures Firm(SkipNoise(s)) && SkipNoise(SkipNoise(s)) == SkipNoise(s)
    decreases |s|
  {
    if s != "" && IsSpace(s[0]) {
      SkipTwice(s[1..]);
    } else if Starts(s, '%') {
      SkipTwice(SkipLine(s[1..]));
    }
  }

  // ----- braces -----

  lemma {:induction false} LevelJoins(a: string, b: string)
    ensures Level(a + b) == Level(a) + Level(b)
  {
    if b == "" {
      assert a + b == a;
    } else {
      LevelJoins(a, b[..|b| - 1]);
      assert (a + b)[..|a + b| - 1] == a + b[..|b| - 1];
    }
  }

  /** Read from a depth, the text keeps open what is open there. */
  ghost predicate Keeps(s: string, depth: int, least: int) {
    depth + Level(s) == least && forall i :: 0 <= i <= |s| ==> depth + Level(s[..i]) >= least
  }

  lemma LevelFirst(s: string)
    requires s != ""
    ensures Level([s[0]]) == if s[0] == '{' then 1 else if s[0] == '}' then -1 else 0
    ensures Level(s) == Level([s[0]]) + Level(s[1..])
    ensures forall i :: 0 <= i < |s| ==> Level(s[..i + 1]) == Level([s[0]]) + Level(s[1..][..i])
  {
    assert [s[0]][..0] == [] && s == [s[0]] + s[1..];
    LevelJoins([s[0]], s[1..]);
    forall i | 0 <= i < |s| ensures Level(s[..i + 1]) == Level([s[0]]) + Level(s[1..][..i]) {
      assert s[..i + 1] == [s[0]] + s[1..][..i];
      LevelJoins([s[0]], s[1..][..i]);
    }
  }

  lemma KeepsOn(s: string, depth: int, least: int)
    requires s != "" && Keeps(s, depth, least)
    ensures Keeps(s[1..], depth + Level([s[0]]), least)
    ensures depth >= least && depth + Level([s[0]]) >= least
  {
    LevelFirst(s);
    assert s[..0] == [] && s[..1] == [s[0]];
    forall i | 0 <= i <= |s[1..]| ensures depth + Level([s[0]]) + Level(s[1..][..i]) >= least {
      assert Level(s[..i + 1]) == Level([s[0]]) + Level(s[1..][..i]);
    }
  }

  lemma ReadStep(s: string, depth: nat, next: nat)
    requires s != "" && depth >= 1 && next >= 1
    requires next == depth + if s[0] == '{' then 1 else if s[0] == '}' then -1 else 0
    ensures var (value, rest) := ReadBraced(s[1..], next);
            ReadBraced(s, depth) == ((if s[0] == '{' || s[0] == '}' then [] else [s[0]]) + value, rest)
  {
    var value := ReadBraced(s[1..], next).0;
    assert [] + value == value;
  }

  lemma {:induction false} ReadBracedText(text: string, rest: string, depth: nat)
    requires depth >= 1 && Keeps(text, depth, 1)
    ensures ReadBraced(text + "}" + rest, depth) == (Unbraced(text), rest)
    decreases |text|
  {
    var s := text + "}" + rest;
    if text == "" {
      assert s[0] == '}' && s[1..] == rest;
    } else {
      hide ReadBraced;
      KeepsOn(text, depth, 1);
      LevelFirst(text);
      var next := depth + Level([text[0]]);
      ReadBracedText(text[1..], rest, next);
      assert s[0] == text[0] && s[1..] == text[1..] + "}" + rest;
      ReadStep(s, depth, next);
    }
  }

  lemma SkipClosing(s: string)
    requires Starts(s, '}')
    ensures SkipBraces(s, 1) == s[1..]
  {
  }

  lemma SkipStep(s: string, depth: int, next: int)
    requires s != "" && next >= 1
    requires next == depth + if s[0] == '{' then 1 else if s[0] == '}' then -1 else 0
    ensures SkipBraces(s, depth) == SkipBraces(s[1..], next)
  {
  }

  lemma {:induction false} SkipBracedText(text: string, rest: string, depth: int)
    requires depth >= 1 && Keeps(text, depth, 1)
    ensures SkipBraces(text + "}" + rest, depth) == rest
    decreases |text|
  {
    var s := text + "}" + rest;
    if text == "" {
      assert depth == 1 && s[0] == '}' && s[1..] == rest;
      SkipClosing(s);
    } else {
      hide SkipBraces;
      KeepsOn(text, depth, 1);
      LevelFirst(text);
      var next := depth + Level([text[0]]);
      SkipBracedText(text[1..], rest, next);
      assert s[0] == text[0] && s[1..] == text[1..] + "}" + rest;
      SkipStep(s, depth, next);
    }
  }

  lemma BalancedKeeps(s: string)
    requires Balanced(s)
    ensures Keeps(s, 1, 1) && Keeps(s, 0, 0)
  {
  }

  // ----- values -----

  lemma {:induction false} ReadQuotedText(text: string, rest: string)
    requires '"' !in text
    ensures ReadQuoted(text + "\"" + rest) == (text, rest)
  {
    var s := text + "\"" + rest;
    if text == "" {
      assert s[1..] == rest;
    } else {
      assert text[0] in text && forall c :: c in text[1..] ==> c in text;
      ReadQuotedText(text[1..], rest);
      assert s[1..] == text[1..] + "\"" + rest;
      assert text == [text[0]] + text[1..];
    }
  }

  ghost predicate CommasInside(text: string, depth: int) {
    forall i :: 0 <= i < |text| && text[i] == ',' ==> depth + Level(text[..i]) > 0
  }

  lemma CommasOn(text: string, depth: int)
    requires text != "" && CommasInside(text, depth)
    ensures CommasInside(text[1..], depth + Level([text[0]]))
    ensures text[0] == ',' ==> depth > 0
  {
    LevelFirst(text);
    assert text[..0] == [];
    forall i | 0 <= i < |text[1..]| && text[1..][i] == ','
      ensures depth + Level([text[0]]) + Level(text[1..][..i]) > 0
    {
      assert text[i + 1] == ',' && Level(text[..i + 1]) == Level([text[0]]) + Level(text[1..][..i]);
    }
  }

  lemma BareStep(s: string, depth: nat, next: nat)
    requires s != "" && (depth == 0 ==> s[0] != '}' && s[0] != ',')
    requires next == depth + if s[0] == '{' then 1 else if s[0] == '}' then -1 else 0
    ensures ReadBare(s, depth) == ([s[0]] + ReadBare(s[1..], next).0, ReadBare(s[1..], next).1)
  {
  }

  lemma {:induction false} ReadBareText(text: string, rest: string, depth: nat)
    requires Keeps(text, depth, 0) && CommasInside(text, depth) && Ends(rest)
    ensures ReadBare(text + rest, depth) == (text, rest)
    decreases |text|
  {
    if text == "" {
      assert text + rest == rest && Level("") == 0;
    } else {
      hide ReadBare;
      KeepsOn(text, depth, 0);
      CommasOn(text, depth);
      LevelFirst(text);
      var next := depth + Level([text[0]]);
      ReadBareText(text[1..], rest, next);
      assert (text + rest)[0] == text[0] && (text + rest)[1..] == text[1..] + rest;
      BareStep(text + rest, depth, next);
      assert text == [text[0]] + text[1..];
    }
  }

  lemma BracedReads(s: string, text: string, rest: string)
    requires SkipNoise(s) == "{" + text + "}" + rest && Balanced(text)
    ensures ReadValue(s) == (Unbraced(text), rest)
  {
    hide SkipNoise, ReadBraced, Level, Unbraced;
    assert ("{" + text + "}" + rest)[1..] == text + "}" + rest;
    BalancedKeeps(text);
    ReadBracedText(text, rest, 1);
  }

  lemma QuotedReads(s: string, text: string, rest: string)
    requires SkipNoise(s) == "\"" + text + "\"" + rest && '"' !in text
    ensures ReadValue(s) == (text, rest)
  {
    hide SkipNoise, ReadQuoted;
    assert ("\"" + text + "\"" + rest)[1..] == text + "\"" + rest;
    ReadQuotedText(text, rest);
  }

  lemma BareReads(s: string, text: string, rest: string)
    requires SkipNoise(s) == text + rest && WellValue(Bare(text), rest)
    ensures ReadValue(s) == (Trim(text), rest)
  {
    hide SkipNoise, ReadBare, Level, Trim;
    BalancedKeeps(text);
    ReadBareText(text, rest, 0);
    assert text == "" ==> text + rest == rest;
    assert text != "" ==> (text + rest)[0] == text[0];
  }

  /** A value reads as what it says, behind any noise, and reading goes on right behind it. */
  lemma ValueReads(noise: seq<Noise>, v: Value, rest: string)
    requires WellNoise(noise) && WellValue(v, rest)
    ensures ReadValue(NoiseText(noise) + (ValueText(v) + rest)) == (ValueSays(v), rest)
  {
    hide ReadValue, Level, Balanced, NoiseText, Unbraced, Trim;
    var s := ValueText(v) + rest;
    SkipNoiseText(noise, s);
    ValueIsFirm(v, rest);
    SkipNothing(s);
    match v
    case Braced(text) => BracedReads(NoiseText(noise) + s, text, rest);
    case Quoted(text) => QuotedReads(NoiseText(noise) + s, text, rest);
    case Bare(text) => BareReads(NoiseText(noise) + s, text, rest);
  }

  lemma ValueIsFirm(v: Value, rest: string)
    requires WellValue(v, rest)
    ensures Firm(ValueText(v) + rest)
  {
    hide Level, Balanced;
    match v
    case Bare(text) =>
      assert text == "" ==> text + rest == rest;
      assert text != "" ==> (text + rest)[0] == text[0];
    case _ =>
  }

  /** A value that is not closed before the end of the text is what there is of it. */
  lemma UnclosedQuoted(text: string)
    requires '"' !in text
    ensures ReadValue("\"" + text) == (text, "")
  {
    hide ReadQuoted;
    SkipNothing("\"" + text);
    hide SkipNoise;
    assert ("\"" + text)[1..] == text;
    UnclosedQuote(text);
  }

  lemma UnclosedBraced(text: string)
    requires forall i :: 0 <= i <= |text| ==> Level(text[..i]) >= 0
    ensures ReadValue("{" + text) == (Unbraced(text), "")
  {
    hide ReadBraced, Level, Unbraced;
    SkipNothing("{" + text);
    hide SkipNoise;
    assert ("{" + text)[1..] == text;
    UnclosedBrace(text, 1);
  }

  lemma {:induction false} UnclosedQuote(text: string)
    requires '"' !in text
    ensures ReadQuoted(text) == (text, "")
  {
    if text != "" {
      assert text[0] in text && forall c :: c in text[1..] ==> c in text;
      UnclosedQuote(text[1..]);
      assert text == [text[0]] + text[1..];
    }
  }

  lemma {:induction false} UnclosedBrace(text: string, depth: nat)
    requires depth >= 1 && forall i :: 0 <= i <= |text| ==> depth + Level(text[..i]) >= 1
    ensures ReadBraced(text, depth) == (Unbraced(text), "")
    decreases |text|
  {
    if text != "" {
      LevelFirst(text);
      assert text[..1] == [text[0]] && depth + Level(text[..1]) >= 1;
      var next := depth + Level([text[0]]);
      forall i | 0 <= i <= |text[1..]| ensures next + Level(text[1..][..i]) >= 1 {
        assert Level(text[..i + 1]) == Level([text[0]]) + Level(text[1..][..i]);
      }
      hide Level, ReadBraced;
      UnclosedBrace(text[1..], next);
      ReadStep(text, depth, next);
    } else {
      hide Level;
    }
  }

  // ----- bodies -----

  /** The fields read so far with the item's added. */
  function After(seen: seq<Field>, item: Item): seq<Field> {
    if item.Assigned? then Put(seen, Lower(item.name), ValueSays(item.value)) else seen
  }

  function Collected(seen: seq<Field>, items: seq<Item>): seq<Field>
    decreases |items|
  {
    if items == [] then seen else Collected(After(seen, items[0]), items[1..])
  }

  /** Only the text behind noise matters to the field loop. */
  lemma FieldsBehind(s: string, t: string, seen: seq<Field>)
    requires SkipNoise(s) == SkipNoise(t)
    ensures ParseFields(s, seen) == ParseFields(t, seen)
  {
    hide SkipNoise, ReadName, ReadValue, SkipGarbled, Put, Lower;
  }

  lemma FieldsSkip(s: string, seen: seq<Field>)
    requires s != "" && Firm(s) && s[0] != '}' && !IsNameStart(s[0])
    ensures ParseFields(s, seen) == ParseFields(s[1..], seen)
  {
    SkipNothing(s);
    hide SkipNoise, ReadName, ReadValue, SkipGarbled, Put, Lower;
  }

  /** A comma, or the noise before what comes, makes no difference behind a value. */
  lemma CommaNoMatter(s: string, seen: seq<Field>)
    ensures var v := SkipNoise(s);
            ParseFields(s, seen) == (if Starts(v, ',') then ParseFields(v[1..], seen)
                                     else if Starts(v, '}') then (seen, v[1..]) else ParseFields(v, seen))
  {
    SkipTwice(s);
    var v := SkipNoise(s);
    FieldsBehind(s, v, seen);
    CommaIsStray();
    if Starts(v, ',') { FieldsSkip(v, seen); }
    if Starts(v, '}') { FieldsClose(v, seen); }
  }

  lemma CommaIsStray()
    ensures !IsNameStart(',') && !IsSpace(',')
  {
  }

  lemma FieldsClose(s: string, seen: seq<Field>)
    requires Starts(s, '}')
    ensures ParseFields(s, seen) == (seen, s[1..])
  {
    SkipNothing(s);
    hide SkipNoise;
  }

  lemma NameReads(name: string, rest: string)
    requires AllNameChars(name) && (rest == "" || !IsNameChar(rest[0]))
    ensures ReadName(name + rest) == (name, rest)
  {
    ReadNameBack(name, rest);
  }

  lemma NoiseIsNoName(noise: seq<Noise>, rest: string)
    requires WellNoise(noise) && NameStops(noise, rest)
    ensures NoiseText(noise) + rest == "" || !IsNameChar((NoiseText(noise) + rest)[0])
  {
    var s := NoiseText(noise) + rest;
    if noise != [] {
      assert noise[0] in noise;
      assert s[0] == PieceText(noise[0])[0];
      SpaceIsNoName();
    } else {
      assert s == rest;
    }
  }

  lemma SpaceIsNoName()
    ensures forall c :: IsSpace(c) || c == '%' || c == '=' ==> !IsNameChar(c)
  {
  }

  lemma FirmName(name: string, rest: string)
    requires WellName(name)
    ensures SkipNoise(name + rest) == name + rest && (name + rest)[0] == name[0] && name[0] != '}'
  {
    NameIsNotNoise(name[0]);
    SkipNothing(name + rest);
  }

  lemma StrayReads(gap: seq<Noise>, c: char, rest: string, seen: seq<Field>)
    requires WellItem(Stray(gap, c), rest)
    ensures ParseFields(ItemText(Stray(gap, c)) + rest, seen) == ParseFields(rest, seen)
  {
    hide ParseFields, SkipNoise, NoiseText;
    var s := [c] + rest;
    assert ItemText(Stray(gap, c)) + rest == NoiseText(gap) + s;
    SkipNoiseText(gap, s);
    FieldsBehind(NoiseText(gap) + s, s, seen);
    FieldsSkip(s, seen);
    assert s[1..] == rest;
  }

  /** A field, whatever its delimiter, gives its value to its name. */
  lemma AssignedReads(item: Item, rest: string, seen: seq<Field>)
    requires item.Assigned? && WellItem(item, rest)
    ensures ParseFields(ItemText(item) + rest, seen) ==
            ParseFields(rest, Put(seen, Lower(item.name), ValueSays(item.value)))
  {
    hide ParseFields, SkipNoise, NoiseText, ReadName, ReadValue, WellValue, ValueText, ValueSays, Put, Lower,
         IsNameStart;
    var Assigned(gap, name, n1, n2, value) := item;
    var u := NoiseText(n2) + (ValueText(value) + rest);
    var afterName := NoiseText(n1) + ("=" + u);
    var s := name + afterName;
    assert ItemText(item) + rest == NoiseText(gap) + s;
    SkipNoiseText(gap, s);
    SkipNoiseText(n1, "=" + u);
    SkipNothing("=" + u);
    FirmName(name, afterName);
    SpaceIsNoName();
    NoiseIsNoName(n1, "=" + u);
    NameReads(name, afterName);
    ValueReads(n2, value, rest);
    FieldStep(NoiseText(gap) + s, s, name, u, ValueSays(value), rest, seen);
    CommaNoMatter(rest, Put(seen, Lower(name), ValueSays(value)));
  }

  lemma {:induction false} JunkSkipped(junk: string, rest: string, seen: seq<Field>)
    requires ',' !in junk && '}' !in junk && Ends(rest)
    ensures SkipGarbled(junk + rest) == if Starts(rest, ',') then rest[1..] else rest
  {
    if junk == "" {
      assert junk + rest == rest;
    } else {
      assert junk[0] in junk && forall c :: c in junk[1..] ==> c in junk;
      JunkSkipped(junk[1..], rest, seen);
      assert (junk + rest)[1..] == junk[1..] + rest;
    }
  }

  /** One turn of the field loop over a name that no equals sign follows. */
  lemma GarbledStep(s: string, t: string, u: string, seen: seq<Field>)
    requires SkipNoise(s) == t && t != [] && IsNameStart(t[0]) && t[0] != '}'
    requires SkipNoise(ReadName(t).1) == u && !Starts(u, '=')
    ensures ParseFields(s, seen) == ParseFields(SkipGarbled(u), seen)
  {
    hide SkipNoise, ReadName, ReadValue, Put, Lower, SkipGarbled;
    NameNotEmpty(t);
  }

  lemma NameNotEmpty(t: string)
    requires t != [] && IsNameStart(t[0])
    ensures ReadName(t).0 != []
  {
  }

  lemma GarbledReads(item: Item, rest: string, seen: seq<Field>)
    requires item.Garbled? && WellItem(item, rest)
    ensures ParseFields(ItemText(item) + rest, seen) == ParseFields(rest, seen)
  {
    hide ParseFields, SkipNoise, NoiseText, ReadName, SkipGarbled, IsNameStart;
    var Garbled(gap, name, n1, junk) := item;
    var u := junk + rest;
    var afterName := NoiseText(n1) + u;
    var s := name + afterName;
    assert ItemText(item) + rest == NoiseText(gap) + s;
    SkipNoiseText(gap, s);
    SkipNoiseText(n1, u);
    SkipNothing(u);
    FirmName(name, afterName);
    NoiseIsNoName(n1, u);
    NameReads(name, afterName);
    GarbledStep(NoiseText(gap) + s, s, u, seen);
    JunkSkipped(junk, rest, seen);
    CommaIsStray();
    if Starts(rest, ',') { FieldsSkip(rest, seen); }
  }

  lemma ItemReads(item: Item, rest: string, seen: seq<Field>)
    requires WellItem(item, rest)
    ensures ParseFields(ItemText(item) + rest, seen) == ParseFields(rest, After(seen, item))
  {
    hide ParseFields, ItemText, WellItem;
    match item
    case Assigned(_, _, _, _, _) => AssignedReads(item, rest, seen);
    case Stray(gap, c) => StrayReads(gap, c, rest, seen);
    case Garbled(_, _, _, _) => GarbledReads(item, rest, seen);
  }

  lemma {:induction false} ItemsRead(items: seq<Item>, rest: string, seen: seq<Field>)
    requires WellItems(items, rest)
    ensures ParseFields(ItemsText(items) + rest, seen) == ParseFields(rest, Collected(seen, items))
  {
    hide ParseFields, ItemText, WellItem, After;
    if items == [] {
      assert ItemsText(items) + rest == rest;
    } else {
      var more := ItemsText(items[1..]) + rest;
      assert ItemsText(items) + rest == ItemText(items[0]) + more;
      ItemReads(items[0], more, seen);
      ItemsRead(items[1..], rest, After(seen, items[0]));
    }
  }

  /** The end of a body: a closing brace behind noise, or the end of the text. */
  lemma EndReads(noise: seq<Noise>, closed: bool, rest: string, seen: seq<Field>)
    requires WellNoise(noise) && (closed || rest == "")
    ensures ParseFields(EndText(noise, closed) + rest, seen) == (seen, rest)
  {
    hide ParseFields, SkipNoise, NoiseText;
    var end := (if closed then "}" else "") + rest;
    assert EndText(noise, closed) + rest == NoiseText(noise) + end;
    SkipNoiseText(noise, end);
    FieldsBehind(NoiseText(noise) + end, end, seen);
    if closed {
      FieldsClose(end, seen);
      assert end[1..] == rest;
    } else {
      assert end == "";
      FieldsEnd(seen);
    }
  }

  lemma FieldsEnd(seen: seq<Field>)
    ensures ParseFields("", seen) == (seen, "")
  {
  }

  // ----- repeated names -----

  lemma {:induction false} CollectedLast(seen: seq<Field>, items: seq<Item>)
    requires items != []
    ensures Collected(seen, items) == After(Collected(seen, items[..|items| - 1]), items[|items| - 1])
    decreases |items|
  {
    hide After;
    if |items| > 1 {
      var init := items[..|items| - 1];
      CollectedLast(After(seen, items[0]), items[1..]);
      assert items[1..][..|items[1..]| - 1] == init[1..];
    } else {
      assert items[..|items| - 1] == [] && items[1..] == [];
    }
  }

  lemma {:induction false} PutPlaces(fields: seq<Field>, name: string, value: string)
    requires DistinctNames(fields)
    ensures Put(fields, name, value) ==
            match PlaceOf(fields, name)
            case None => fields + [Field(name, value)]
            case Some(i) => fields[i := Field(name, value)]
  {
    var place := PlaceOf(fields, name);
    if place.None? { PutNew(fields, name, value); } else { PutAt(fields, name, value, place.value); }
  }

  lemma {:induction false} PutAt(fields: seq<Field>, name: string, value: string, i: nat)
    requires DistinctNames(fields) && i < |fields| && fields[i].name == name
    ensures Put(fields, name, value) == fields[i := Field(name, value)]
  {
    if i > 0 {
      assert fields[0].name != name;
      PutAt(fields[1..], name, value, i - 1);
    }
  }

  /** What the loop collects is what the body says: places by first mention, values by the last. */
  lemma {:induction false} CollectedIsSaid(items: seq<Item>)
    ensures Collected([], items) == FieldsSaid(items) && DistinctNames(FieldsSaid(items))
  {
    hide ValueSays, Lower;
    if items != [] {
      CollectedIsSaid(items[..|items| - 1]);
      CollectedLast([], items);
      var last := items[|items| - 1];
      if last.Assigned? {
        hide Put;
        PutPlaces(FieldsSaid(items[..|items| - 1]), Lower(last.name), ValueSays(last.value));
      }
    }
  }

  // ----- documents -----

  /** Only the text behind noise matters between entries. */
  lemma GapReads(noise: seq<Noise>, rest: string)
    requires WellNoise(noise)
    ensures ParseEntries(NoiseText(noise) + rest) == ParseEntries(rest)
  {
    SkipNoiseText(noise, rest);
    NoiseFirst(NoiseText(noise) + rest, rest);
  }

  lemma {:induction false} SkipsTo(text: string, rest: string, c: char)
    requires c !in text && (rest == "" || rest[0] == c)
    ensures SkipTo(text + rest, c) == rest
  {
    if text == "" {
      assert text + rest == rest;
    } else {
      assert text[0] in text && forall d :: d in text[1..] ==> d in text;
      SkipsTo(text[1..], rest, c);
      assert (text + rest)[1..] == text[1..] + rest;
    }
  }

  lemma ProseReads(text: string, rest: string)
    requires WellChunk(Prose(text), rest)
    ensures ParseEntries(text + rest) == ParseEntries(rest)
  {
    var s := text + rest;
    assert s[0] == text[0] && s[1..] == text[1..] + rest;
    assert text[0] in text && forall d :: d in text[1..] ==> d in text;
    SkipNothing(s);
    SkipsTo(text[1..], rest, '@');
    hide SkipNoise, ReadName, ParseFields, SkipBody, Lower, SkipTo, SKIP_TYPES;
  }

  lemma AtReads(c: char, rest: string)
    requires !IsNameChar(c)
    ensures ParseEntries("@" + [c] + rest) == ParseEntries(rest)
  {
    var s := "@" + [c] + rest;
    assert s[1..] == [c] + rest && s[1..][1..] == rest;
    SkipNothing(s);
    NameReads("", [c] + rest);
    assert "" + ([c] + rest) == [c] + rest;
    hide SkipNoise, ReadName, ParseFields, SkipBody, Lower, SkipTo, SKIP_TYPES;
  }

  lemma SkippedKinds(kind: string)
    ensures IsSkipped(kind) <==> Lower(kind) in SKIP_TYPES
  {
    hide Lower;
  }

  lemma AtIsFirm(s: string)
    ensures SkipNoise("@" + s) == "@" + s && ("@" + s)[1..] == s
  {
    SkipNothing("@" + s);
  }

  /** The entry loop behind an at sign and a name. */
  lemma KindStep(kind: string, afterKind: string)
    requires kind != "" && ReadName(kind + afterKind) == (kind, afterKind)
    ensures var u := SkipNoise(afterKind);
            ParseEntries("@" + (kind + afterKind)) ==
            if Lower(kind) in SKIP_TYPES then ParseEntries(SkipBody(u))
            else if !Starts(u, '{') then ParseEntries(u)
            else
              var (key, afterKey) := ReadName(SkipNoise(u[1..]));
              var v := SkipNoise(afterKey);
              var (fields, rest) := ParseFields(if Starts(v, ',') then v[1..] else v, []);
              [Entry(Lower(kind), key, fields)] + ParseEntries(rest)
  {
    hide SkipNoise, ReadName, ParseFields, SkipBody, Lower, SkipTo, SKIP_TYPES;
    AtIsFirm(kind + afterKind);
    EntryStep(kind, afterKind, "@" + (kind + afterKind));
  }

  lemma EntryStep(kind: string, afterKind: string, s: string)
    requires kind != "" && s != "" && s[0] == '@' && SkipNoise(s) == s && ReadName(s[1..]) == (kind, afterKind)
    ensures var u := SkipNoise(afterKind);
            ParseEntries(s) ==
            if Lower(kind) in SKIP_TYPES then ParseEntries(SkipBody(u))
            else if !Starts(u, '{') then ParseEntries(u)
            else
              var (key, afterKey) := ReadName(SkipNoise(u[1..]));
              var v := SkipNoise(afterKey);
              var (fields, rest) := ParseFields(if Starts(v, ',') then v[1..] else v, []);
              [Entry(Lower(kind), key, fields)] + ParseEntries(rest)
  {
    hide SkipNoise, ReadName, ParseFields, SkipBody, Lower, SkipTo, SKIP_TYPES;
  }

  lemma MentionReads(name: string, after: seq<Noise>, rest: string)
    requires WellChunk(Mention(name, after), rest)
    ensures ParseEntries("@" + (name + NoiseText(after)) + rest) == ParseEntries(rest)
  {
    hide ParseEntries, SkipNoise, ReadName, ParseFields, SkipBody, Lower, SKIP_TYPES, IsSkipped, NoiseText;
    var afterName := NoiseText(after) + rest;
    assert "@" + (name + NoiseText(after)) + rest == "@" + (name + afterName);
    NoiseIsNoName(after, rest);
    NameReads(name, afterName);
    KindStep(name, afterName);
    SkippedKinds(name);
    SkipNoiseText(after, rest);
    SkipNothing(rest);
  }

  lemma BodySkipped(body: Body, noise: seq<Noise>, rest: string)
    requires WellBody(body, noise, rest)
    ensures SkipBody(BodyText(body) + rest) == rest
    ensures Firm(BodyText(body) + rest) && NameStops(noise, BodyText(body) + rest)
  {
    hide Level, Balanced, SkipBody, SkipTo;
    match body
    case BracedBody(text) => BracesSkipped(text, rest);
    case QuotedBody(text) => QuotesSkipped(text, rest);
    case LineBody(text) => LineSkipped(text, rest);
  }

  lemma LineSkipped(text: string, rest: string)
    requires text != "" && text[0] != '{' && text[0] != '"' && '\n' !in text && (rest == "" || rest[0] == '\n')
    ensures SkipBody(text + rest) == rest
  {
    hide SkipTo;
    SkipsTo(text, rest, '\n');
  }

  lemma BracesSkipped(text: string, rest: string)
    requires Balanced(text)
    ensures SkipBody("{" + text + "}" + rest) == rest
  {
    hide Level, Balanced, SkipBraces, SkipTo;
    var s := "{" + text + "}" + rest;
    assert s[1..] == text + "}" + rest;
    OpeningSkipped(s);
    BalancedKeeps(text);
    SkipBracedText(text, rest, 1);
  }

  lemma QuotesSkipped(text: string, rest: string)
    requires '"' !in text
    ensures SkipBody("\"" + text + "\"" + rest) == rest
  {
    hide SkipTo;
    var s := "\"" + text + "\"" + rest;
    assert s[1..] == text + ("\"" + rest);
    SkipsTo(text, "\"" + rest, '"');
    assert ("\"" + rest)[1..] == rest;
  }

  lemma OpeningSkipped(s: string)
    requires Starts(s, '{')
    ensures SkipBraces(s, 0) == SkipBraces(s[1..], 1)
  {
  }

  lemma SkippedReads(kind: string, noise: seq<Noise>, body: Body, rest: string)
    requires WellChunk(Skipped(kind, noise, body), rest)
    ensures ParseEntries("@" + (kind + (NoiseText(noise) + BodyText(body))) + rest) == ParseEntries(rest)
  {
    hide ParseEntries, SkipNoise, ReadName, ParseFields, SkipBody, Lower, SKIP_TYPES, IsSkipped, NoiseText,
         BodyText, WellBody;
    var s := BodyText(body) + rest;
    var afterKind := NoiseText(noise) + s;
    assert "@" + (kind + (NoiseText(noise) + BodyText(body))) + rest == "@" + (kind + afterKind);
    BodySkipped(body, noise, rest);
    NoiseIsNoName(noise, s);
    NameReads(kind, afterKind);
    KindStep(kind, afterKind);
    SkippedKinds(kind);
    SkipNoiseText(noise, s);
    SkipNothing(s);
  }

  /** The cite key, behind noise, and the fields behind it. */
  lemma KeyReads(noise: seq<Noise>, key: string, behind: string)
    requires WellNoise(noise) && AllNameChars(key)
    requires (behind != "" ==> !IsNameChar(behind[0])) && (key == "" ==> Firm(behind))
    ensures ReadName(SkipNoise(NoiseText(noise) + (key + behind))) == (key, behind)
  {
    hide NoiseText, ReadName;
    SkipNoiseText(noise, key + behind);
    if key == "" {
      assert key + behind == behind;
    } else {
      NameIsNotNoise(key[0]);
    }
    SkipNothing(key + behind);
    NameReads(key, behind);
  }

  lemma EntryReads(c: Chunk, rest: string)
    requires c.Written? && WellChunk(c, rest)
    ensures ParseEntries(ChunkText(c) + rest) ==
            [Entry(Lower(c.kind), c.key, FieldsSaid(c.items))] + ParseEntries(rest)
  {
    hide ParseEntries, SkipNoise, ReadName, ParseFields, SkipBody, Lower, SKIP_TYPES, IsSkipped, NoiseText,
         EndText, ItemsText, WellItems, FieldsSaid, Collected;
    var Written(kind, n1, n2, key, items, n3, closed) := c;
    var end := EndText(n3, closed) + rest;
    var behind := ItemsText(items) + end;
    var body := NoiseText(n2) + (key + behind);
    var afterKind := NoiseText(n1) + ("{" + body);
    assert ChunkText(c) + rest == "@" + (kind + afterKind);
    BraceIsNoName();
    NoiseIsNoName(n1, "{" + body);
    NameReads(kind, afterKind);
    KindStep(kind, afterKind);
    SkippedKinds(kind);
    SkipNoiseText(n1, "{" + body);
    SkipNothing("{" + body);
    assert ("{" + body)[1..] == body;
    KeyReads(n2, key, behind);
    FieldsOfBody(items, n3, closed, rest);
  }

  lemma BraceIsNoName()
    ensures !IsNameChar('{') && !IsSpace('{')
  {
  }

  lemma FieldsOfBody(items: seq<Item>, noise: seq<Noise>, closed: bool, rest: string)
    requires WellItems(items, EndText(noise, closed) + rest) && WellNoise(noise) && (closed || rest == "")
    ensures var v := SkipNoise(ItemsText(items) + (EndText(noise, closed) + rest));
            ParseFields(if Starts(v, ',') then v[1..] else v, []) == (FieldsSaid(items), rest)
  {
    hide ParseFields, SkipNoise, ItemsText, EndText, WellItems, FieldsSaid, Collected;
    var end := EndText(noise, closed) + rest;
    var behind := ItemsText(items) + end;
    ItemsRead(items, end, []);
    EndReads(noise, closed, rest, Collected([], items));
    CollectedIsSaid(items);
    var v := SkipNoise(behind);
    SkipTwice(behind);
    FieldsBehind(behind, v, []);
    CommaIsStray();
    if Starts(v, ',') { FieldsSkip(v, []); }
  }

  /**
   Whatever is written down in any mix of the delimiters, with repeated fields, comments and
   noise anywhere between the tokens, garbled fields, stray characters, skipped constructs
   and prose, reads back as the entries it says.
   */
  lemma {:induction false} DocumentReads(chunks: seq<Chunk>)
    requires WellWritten(chunks)
    ensures ParseEntries(DocumentText(chunks)) == EntriesSaid(chunks)
  {
    hide ParseEntries, ChunkText, WellChunk;
    if chunks == [] {
      NothingToParse();
    } else {
      DocumentReads(chunks[1..]);
      ChunkReads(chunks[0], DocumentText(chunks[1..]));
    }
  }

  lemma ChunkReads(c: Chunk, rest: string)
    requires WellChunk(c, rest)
    ensures ParseEntries(ChunkText(c) + rest) ==
            (if c.Written? then [Entry(Lower(c.kind), c.key, FieldsSaid(c.items))] else []) + ParseEntries(rest)
  {
    hide ParseEntries, NoiseText, BodyText, WellItems, WellBody, FieldsSaid, Lower, SKIP_TYPES;
    assert [] + ParseEntries(rest) == ParseEntries(rest);
    match c
    case Gap(noise) => GapReads(noise, rest);
    case Written(_, _, _, _, _, _, _) => EntryReads(c, rest);
    case Skipped(kind, noise, body) => SkippedReads(kind, noise, body, rest);
    case Prose(text) => ProseReads(text, rest);
    case LoneAt(c) => AtReads(c, rest);
    case Mention(name, after) => MentionReads(name, after, rest);
  }
}
