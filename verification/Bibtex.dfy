/**
 The tolerant BibTeX parser and the canonical printer, as functions on the text that
 is still to be read.
 */
module Bibtex {
  import opened Text

  datatype Field = Field(name: string, value: string)

  /** Fields keep insertion order; a name occurs once. */
  datatype Entry = Entry(entryType: string, citeKey: string, fields: seq<Field>)

  const SKIP_TYPES: seq<string> := ["comment", "string", "preamble", "i", "include"]

  predicate IsNameStart(c: char) {
    'A' <= c <= 'Z' || 'a' <= c <= 'z'
  }

  predicate IsNameChar(c: char) {
    IsNameStart(c) || IsDigit(c) || c == '_' || c == '-'
  }

  function LowerChar(c: char): char {
    if 'A' <= c <= 'Z' then c + ' ' else c
  }

  function Lower(s: string): string {
    seq(|s|, i requires 0 <= i < |s| => LowerChar(s[i]))
  }

  // ----- the parser -----

  predicate Starts(s: string, c: char) {
    s != [] && s[0] == c
  }

  /** From here to the next line break, not past it. */
  function SkipLine(s: string): (r: string)
    ensures |r| <= |s|
  {
    if s == [] || s[0] == '\n' then s else SkipLine(s[1..])
  }

  /** Past whitespace and percent comments. */
  function SkipNoise(s: string): (r: string)
    ensures |r| <= |s|
    decreases |s|
  {
    if s != [] && IsSpace(s[0]) then SkipNoise(s[1..])
    else if Starts(s, '%') then SkipNoise(SkipLine(s[1..]))
    else s
  }

  function ReadName(s: string): (r: (string, string))
    ensures |r.0| + |r.1| == |s|
    ensures s != [] && IsNameChar(s[0]) ==> r.0 != []
  {
    if s == [] || !IsNameChar(s[0]) then ("", s)
    else var (name, rest) := ReadName(s[1..]); ([s[0]] + name, rest)
  }

  /** The text up to the brace that closes the given depth, inner braces dropped. */
  function ReadBraced(s: string, depth: nat): (r: (string, string))
    requires depth >= 1
    ensures |r.1| <= |s|
    ensures forall c :: c in r.0 ==> c != '{' && c != '}'
  {
    if s == [] then ("", "")
    else if s[0] == '{' then ReadBraced(s[1..], depth + 1)
    else if s[0] == '}' then if depth == 1 then ("", s[1..]) else ReadBraced(s[1..], depth - 1)
    else var (value, rest) := ReadBraced(s[1..], depth); ([s[0]] + value, rest)
  }

  function ReadQuoted(s: string): (r: (string, string))
    ensures |r.1| <= |s|
  {
    if s == [] then ("", "")
    else if s[0] == '"' then ("", s[1..])
    else var (value, rest) := ReadQuoted(s[1..]); ([s[0]] + value, rest)
  }

  /** A bare scalar: to the next comma or closing brace outside inner braces. */
  function ReadBare(s: string, depth: nat): (r: (string, string))
    ensures |r.1| <= |s|
  {
    if s == [] || (depth == 0 && (s[0] == '}' || s[0] == ',')) then ("", s)
    else
      var inner := if s[0] == '{' then depth + 1 else if s[0] == '}' then depth - 1 else depth;
      var (value, rest) := ReadBare(s[1..], inner);
      ([s[0]] + value, rest)
  }

  function ReadValue(s: string): (r: (string, string))
    ensures |r.1| <= |s|
  {
    var t := SkipNoise(s);
    if Starts(t, '{') then ReadBraced(t[1..], 1)
    else if Starts(t, '"') then ReadQuoted(t[1..])
    else var (raw, rest) := ReadBare(t, 0); (Trim(raw), rest)
  }

  /** Assigning a field: a known name keeps its place and takes the new value. */
  function Put(fields: seq<Field>, name: string, value: string): seq<Field> {
    if fields == [] then [Field(name, value)]
    else if fields[0].name == name then [Field(name, value)] + fields[1..]
    else [fields[0]] + Put(fields[1..], name, value)
  }

  /** A garbled field: to the next comma, which is consumed, or closing brace, which is not. */
  function SkipGarbled(s: string): (r: string)
    ensures |r| <= |s|
  {
    if s == [] || s[0] == '}' then s else if s[0] == ',' then s[1..] else SkipGarbled(s[1..])
  }

  /** The name-value pairs up to the closing brace of the entry. */
  function ParseFields(s: string, fields: seq<Field>): (r: (seq<Field>, string))
    ensures |r.1| <= |s|
    decreases |s|
  {
    var t := SkipNoise(s);
    if t == [] then (fields, t)
    else if t[0] == '}' then (fields, t[1..])
    else if !IsNameStart(t[0]) then ParseFields(t[1..], fields)
    else
      var (name, afterName) := ReadName(t);
      var u := SkipNoise(afterName);
      if !Starts(u, '=') then ParseFields(SkipGarbled(u), fields)
      else
        var (value, afterValue) := ReadValue(u[1..]);
        var v := SkipNoise(afterValue);
        var next := Put(fields, Lower(name), value);
        if Starts(v, ',') then ParseFields(v[1..], next)
        else if Starts(v, '}') then (next, v[1..])
        else ParseFields(v, next)
  }

  function SkipTo(s: string, c: char): (r: string)
    ensures |r| <= |s|
  {
    if s == [] || s[0] == c then s else SkipTo(s[1..], c)
  }

  /** Past the brace that closes the body opened by the first brace. */
  function SkipBraces(s: string, depth: int): (r: string)
    ensures |r| <= |s|
  {
    if s == [] then s
    else if s[0] == '{' then SkipBraces(s[1..], depth + 1)
    else if s[0] == '}' then if depth == 1 then s[1..] else SkipBraces(s[1..], depth - 1)
    else SkipBraces(s[1..], depth)
  }

  function Tail(s: string): string {
    if s == [] then s else s[1..]
  }

  /** The body of a skipped construct: braced, quoted, or the rest of the line. */
  function SkipBody(s: string): (r: string)
    ensures |r| <= |s|
  {
    if Starts(s, '{') then SkipBraces(s, 0)
    else if Starts(s, '"') then Tail(SkipTo(s[1..], '"'))
    else SkipTo(s, '\n')
  }

  function ParseEntries(s: string): seq<Entry>
    decreases |s|
  {
    var t := SkipNoise(s);
    if t == [] then []
    else if t[0] != '@' then ParseEntries(SkipTo(t[1..], '@'))
    else
      var (name, afterType) := ReadName(t[1..]);
      if name == [] then ParseEntries(Tail(t[1..]))
      else
        var u := SkipNoise(afterType);
        if Lower(name) in SKIP_TYPES then ParseEntries(SkipBody(u))
        else if !Starts(u, '{') then ParseEntries(u)
        else
          var (citeKey, afterKey) := ReadName(SkipNoise(u[1..]));
          var v := SkipNoise(afterKey);
          var (fields, rest) := ParseFields(if Starts(v, ',') then v[1..] else v, []);
          [Entry(Lower(name), citeKey, fields)] + ParseEntries(rest)
  }

  // ----- the printer -----

  const FIELD_ORDER: seq<string> := [
    "author", "editor", "title", "journal", "booktitle", "publisher", "school", "institution", "year", "date",
    "volume", "number", "pages", "edition", "chapter", "series", "doi", "isbn", "issn", "url", "note", "keywords",
    "abstract"]

  predicate HasField(fields: seq<Field>, name: string) {
    fields != [] && (fields[0].name == name || HasField(fields[1..], name))
  }

  function Get(fields: seq<Field>, name: string): string
    requires HasField(fields, name)
  {
    if fields[0].name == name then fields[0].value else Get(fields[1..], name)
  }

  function Known(fields: seq<Field>, order: seq<string>): seq<Field> {
    if order == [] then []
    else
      var first := if HasField(fields, order[0]) then [Field(order[0], Get(fields, order[0]))] else [];
      first + Known(fields, order[1..])
  }

  function Unknown(fields: seq<Field>, order: seq<string>): seq<Field> {
    if fields == [] then []
    else (if fields[0].name in order then [] else [fields[0]]) + Unknown(fields[1..], order)
  }

  /** The emission order: the canonical fields first, then the others as inserted. */
  function Canonical(fields: seq<Field>): seq<Field> {
    Known(fields, FIELD_ORDER) + Unknown(fields, FIELD_ORDER)
  }

  /** Every run of whitespace becomes one space. */
  function Collapse(s: string): string {
    if s == [] then []
    else if !IsSpace(s[0]) then [s[0]] + Collapse(s[1..])
    else if |s| > 1 && IsSpace(s[1]) then Collapse(s[1..])
    else " " + Collapse(s[1..])
  }

  function EscapeBraces(s: string): string {
    if s == [] then [] else (if s[0] == '{' || s[0] == '}' then ['\\', s[0]] else [s[0]]) + EscapeBraces(s[1..])
  }

  function EscapeFieldValue(value: string): string {
    EscapeBraces(Trim(Collapse(value)))
  }

  function FieldLine(f: Field): string {
    "\n  " + f.name + " = {" + EscapeFieldValue(f.value) + "}"
  }

  /** The field lines, each but the last followed by a comma. */
  function FieldLines(fields: seq<Field>): string {
    if fields == [] then ""
    else if |fields| == 1 then FieldLine(fields[0])
    else FieldLine(fields[0]) + "," + FieldLines(fields[1..])
  }

  function PrintEntry(e: Entry): string {
    "@" + e.entryType + "{" + e.citeKey + "," + FieldLines(Canonical(e.fields)) + "\n}"
  }

  /** Entries separated by a blank line, and a final line break when there is any. */
  function PrintEntries(entries: seq<Entry>): string {
    if entries == [] then ""
    else PrintEntry(entries[0]) + (if |entries| == 1 then "" else "\n") + "\n" + PrintEntries(entries[1..])
  }

  // ----- entries the round trip covers -----

  predicate AllNameChars(s: string) {
    forall i :: 0 <= i < |s| ==> IsNameChar(s[i])
  }

  predicate BraceFree(s: string) {
    forall i :: 0 <= i < |s| ==> s[i] != '{' && s[i] != '}'
  }

  /** Whitespace-normalised: single spaces inside, none at the ends. */
  predicate Normalised(s: string) {
    Trim(Collapse(s)) == s
  }

  predicate WellNamed(name: string) {
    name != [] && IsNameStart(name[0]) && AllNameChars(name) && Lower(name) == name
  }

  predicate WellFormedField(f: Field) {
    WellNamed(f.name) && BraceFree(f.value) && Normalised(f.value)
  }

  predicate DistinctNames(fields: seq<Field>) {
    forall i, j :: 0 <= i < j < |fields| ==> fields[i].name != fields[j].name
  }

  predicate WellFormedFields(fields: seq<Field>) {
    && (forall i :: 0 <= i < |fields| ==> WellFormedField(fields[i]))
    && DistinctNames(fields)
  }

  predicate WellFormed(e: Entry) {
    && e.entryType != [] && AllNameChars(e.entryType) && Lower(e.entryType) == e.entryType
    && e.entryType !in SKIP_TYPES
    && AllNameChars(e.citeKey)
    && WellFormedFields(e.fields)
  }

  function CanonicalEntry(e: Entry): Entry {
    e.(fields := Canonical(e.fields))
  }

  function CanonicalEntries(entries: seq<Entry>): seq<Entry> {
    seq(|entries|, i requires 0 <= i < |entries| => CanonicalEntry(entries[i]))
  }
}
