/**
 Printing and parsing bibliographies: what comes back is what was printed, with the
 fields in canonical order.
 */
module BibtexRoundTrip {
  import opened Bibtex
  import opened Text

  // ----- reading back the pieces of a printed entry -----

  lemma SkipSpace(c: char, t: string)
    requires IsSpace(c)
    ensures SkipNoise([c] + t) == SkipNoise(t)
  {
    assert ([c] + t)[1..] == t;
  }

  lemma SkipNothing(s: string)
    requires s == [] || (!IsSpace(s[0]) && s[0] != '%')
    ensures SkipNoise(s) == s
  {
  }

  lemma SkipBreak(t: string)
    ensures SkipNoise("\n" + t) == SkipNoise(t)
  {
    SkipSpace('\n', t);
  }

  lemma NameIsNotNoise(c: char)
    requires IsNameChar(c)
    ensures !IsSpace(c) && c !in "%{}\",=@"
  {
  }

  lemma {:induction false} ReadNameBack(name: string, rest: string)
    requires AllNameChars(name) && (rest == [] || !IsNameChar(rest[0]))
    ensures ReadName(name + rest) == (name, rest)
  {
    if name == [] {
      assert name + rest == rest;
    } else {
      assert (name + rest)[1..] == name[1..] + rest;
      assert name == [name[0]] + name[1..];
      ReadNameBack(name[1..], rest);
    }
  }

  lemma {:induction false} ReadBracedBack(value: string, rest: string)
    requires BraceFree(value)
    ensures ReadBraced(value + "}" + rest, 1) == (value, rest)
  {
    var s := value + "}" + rest;
    if value == [] {
      assert s[1..] == rest;
    } else {
      assert s[1..] == value[1..] + "}" + rest;
      assert value == [value[0]] + value[1..];
      ReadBracedBack(value[1..], rest);
    }
  }

  lemma {:induction false} EscapeNothing(s: string)
    requires BraceFree(s)
    ensures EscapeBraces(s) == s
  {
    if s != [] { EscapeNothing(s[1..]); }
  }

  lemma {:induction false} CollapseBraceFree(s: string)
    requires BraceFree(s)
    ensures BraceFree(Collapse(s))
  {
    if s != [] { CollapseBraceFree(s[1..]); }
  }

  lemma {:induction false} TrimStartBraceFree(s: string)
    requires BraceFree(s)
    ensures BraceFree(TrimStart(s))
  {
    if s != [] { TrimStartBraceFree(s[1..]); }
  }

  lemma {:induction false} TrimEndBraceFree(s: string)
    requires BraceFree(s)
    ensures BraceFree(TrimEnd(s))
    decreases |s|
  {
    if s != [] { TrimEndBraceFree(s[..|s| - 1]); }
  }

  /**
   A printed value reads back as it was exactly when it is whitespace-normalised and free
   of braces: the printer normalises, and the reader drops the braces it meets but keeps
   the printer's backslashes.
   */
  lemma ValueRoundTrip(value: string, rest: string)
    ensures ReadValue(" {" + EscapeFieldValue(value) + "}" + rest) == (value, rest) <==>
            Normalised(value) && BraceFree(value)
  {
    var body := EscapeFieldValue(value) + "}" + rest;
    var open := "{" + body;
    assert " {" + EscapeFieldValue(value) + "}" + rest == " " + open;
    SkipSpace(' ', open);
    SkipNothing(open);
    assert open[1..] == body;
    hide SkipNoise, Collapse, Trim;
    assert ReadValue(" " + open) == ReadBraced(body, 1);
    var printed := Trim(Collapse(value));
    if BraceFree(value) {
      CollapseBraceFree(value);
      TrimBraceFree(Collapse(value));
      EscapeNothing(printed);
      ReadBracedBack(printed, rest);
    } else {
      BracesDropped(ReadBraced(body, 1).0);
    }
  }

  /** A value that does not survive: printed as \{T\}, its braces come back as backslashes. */
  lemma BracesLost(rest: string)
    ensures EscapeFieldValue("{T}") == "\\{T\\}"
    ensures ReadValue(" {" + EscapeFieldValue("{T}") + "}" + rest).0 == "\\T\\"
  {
    hide ReadBraced, EscapeFieldValue;
    EscapedBraces();
    var body := "\\{T\\}}" + rest;
    assert " {" + EscapeFieldValue("{T}") + "}" + rest == " " + ("{" + body);
    SkipSpace(' ', "{" + body);
    SkipNothing("{" + body);
    assert ("{" + body)[1..] == body;
    ReadEscaped(rest);
  }

  lemma EscapedBraces()
    ensures EscapeFieldValue("{T}") == "\\{T\\}"
  {
    var v := "{T}";
    assert v[1..] == "T}" && v[1..][1..] == "}" && v[1..][1..][1..] == "";
    assert Collapse("}") == "}" && Collapse("T}") == "T}" && Collapse(v) == v;
    assert Trim(v) == v;
    assert EscapeBraces("}") == "\\}" && EscapeBraces("T}") == "T\\}";
  }

  lemma ReadEscaped(rest: string)
    ensures ReadBraced("\\{T\\}}" + rest, 1).0 == "\\T\\"
  {
    var s := "\\{T\\}}" + rest;
    assert ReadBraced(s[5..], 1).0 == "";
    assert ReadBraced(s[4..], 2).0 == "" && s[4..][1..] == s[5..];
    assert ReadBraced(s[3..], 2).0 == "\\" && s[3..][1..] == s[4..];
    assert ReadBraced(s[2..], 2).0 == "T\\" && s[2..][1..] == s[3..];
    assert ReadBraced(s[1..], 1).0 == "T\\" && s[1..][1..] == s[2..];
  }

  lemma TrimBraceFree(s: string)
    requires BraceFree(s)
    ensures BraceFree(Trim(s))
  {
    TrimStartBraceFree(s);
    TrimEndBraceFree(TrimStart(s));
  }

  lemma BracesDropped(read: string)
    requires forall c :: c in read ==> c != '{' && c != '}'
    ensures BraceFree(read)
  {
    forall i | 0 <= i < |read| ensures read[i] != '{' && read[i] != '}' {
      assert read[i] in read;
    }
  }

  lemma {:induction false} PutNew(fields: seq<Field>, name: string, value: string)
    requires forall i :: 0 <= i < |fields| ==> fields[i].name != name
    ensures Put(fields, name, value) == fields + [Field(name, value)]
  {
    if fields != [] { PutNew(fields[1..], name, value); }
  }

  /** One turn of the field loop over a name, an equals sign and a value. */
  lemma FieldStep(s: string, t: string, name: string, u: string, value: string, after: string, seen: seq<Field>)
    requires SkipNoise(s) == t && t != [] && IsNameStart(t[0])
    requires exists afterName :: ReadName(t) == (name, afterName) && SkipNoise(afterName) == "=" + u
    requires ReadValue(u) == (value, after)
    ensures var v, next := SkipNoise(after), Put(seen, Lower(name), value);
            ParseFields(s, seen) ==
            if Starts(v, ',') then ParseFields(v[1..], next)
            else if Starts(v, '}') then (next, v[1..])
            else ParseFields(v, next)
  {
    hide SkipNoise, ReadName, ReadValue, Put, Lower;
    assert ("=" + u)[1..] == u;
  }

  /** Reading one printed field line, whatever follows it. */
  lemma FieldTurn(f: Field, after: string, seen: seq<Field>)
    requires WellFormedField(f)
    requires forall i :: 0 <= i < |seen| ==> seen[i].name != f.name
    ensures var v := SkipNoise(after);
            ParseFields(FieldLine(f) + after, seen) ==
            if Starts(v, ',') then ParseFields(v[1..], seen + [f])
            else if Starts(v, '}') then (seen + [f], v[1..])
            else ParseFields(v, seen + [f])
  {
    hide ReadValue, EscapeFieldValue, SkipNoise, ReadName, ParseFields, FieldLine, Put, WellFormedField;
    var value := " {" + EscapeFieldValue(f.value) + "}" + after;
    var u := "=" + value;
    FieldStart(f, " " + u);
    FieldText(f, after);
    SkipSpace(' ', u);
    SkipNothing(u);
    FieldValue(f, after);
    FieldStep(FieldLine(f) + after, f.name + (" " + u), f.name, value, f.value, after, seen);
    PutNew(seen, f.name, f.value);
  }

  lemma FieldText(f: Field, after: string)
    ensures FieldLine(f) + after ==
            "\n" + (" " + (" " + (f.name + (" " + ("=" + (" {" + EscapeFieldValue(f.value) + "}" + after))))))
  {
    hide EscapeFieldValue;
  }

  lemma FieldValue(f: Field, after: string)
    requires WellFormedField(f)
    ensures ReadValue(" {" + EscapeFieldValue(f.value) + "}" + after) == (f.value, after)
    ensures Lower(f.name) == f.name
  {
    ValueRoundTrip(f.value, after);
  }

  /** The indented name of a printed field line. */
  lemma FieldStart(f: Field, rest: string)
    requires WellFormedField(f) && Starts(rest, ' ')
    ensures SkipNoise("\n" + (" " + (" " + (f.name + rest)))) == f.name + rest
    ensures f.name + rest != [] && IsNameStart((f.name + rest)[0])
    ensures ReadName(f.name + rest) == (f.name, rest)
  {
    hide SkipNoise, ReadName, Normalised, BraceFree;
    var t := f.name + rest;
    SkipSpace('\n', " " + (" " + t));
    SkipSpace(' ', " " + t);
    SkipSpace(' ', t);
    NameIsNotNoise(t[0]);
    SkipNothing(t);
    ReadNameBack(f.name, rest);
  }

  /** The end of the entry: a line break and the closing brace. */
  lemma CloseTurn(rest: string, seen: seq<Field>)
    ensures SkipNoise("\n}" + rest) == "}" + rest && ("}" + rest)[1..] == rest
    ensures ParseFields("\n}" + rest, seen) == (seen, rest)
  {
    assert "\n}" + rest == "\n" + ("}" + rest);
    SkipBreak("}" + rest);
    SkipNothing("}" + rest);
    hide SkipNoise;
  }

  /** The printed field list parses back to the fields, in the printed order. */
  lemma {:induction false} FieldsBack(fields: seq<Field>, rest: string, seen: seq<Field>)
    requires WellFormedFields(seen + fields)
    ensures ParseFields(FieldLines(fields) + "\n}" + rest, seen) == (seen + fields, rest)
  {
    hide FieldLine, WellFormedField, ParseFields, SkipNoise;
    CloseTurn(rest, seen);
    if fields == [] {
      assert FieldLines(fields) + "\n}" + rest == "\n}" + rest;
      assert seen + fields == seen;
    } else {
      var f, more := fields[0], fields[1..];
      assert (seen + fields)[|seen|] == f;
      assert forall i :: 0 <= i < |seen| ==> (seen + fields)[i] == seen[i];
      assert seen + fields == (seen + [f]) + more;
      if more == [] {
        assert FieldLines(fields) + "\n}" + rest == FieldLine(f) + ("\n}" + rest);
        FieldTurn(f, "\n}" + rest, seen);
        assert seen + fields == seen + [f];
      } else {
        var tail := FieldLines(more) + "\n}" + rest;
        assert FieldLines(fields) + "\n}" + rest == FieldLine(f) + ("," + tail);
        FieldTurn(f, "," + tail, seen);
        SkipNothing("," + tail);
        assert ("," + tail)[1..] == tail;
        FieldsBack(more, rest, seen + [f]);
      }
    }
  }

  /** A printed entry followed by anything parses to that entry and then the rest. */
  lemma EntryBack(e: Entry, rest: string)
    requires WellFormed(e) && WellFormedFields(Canonical(e.fields))
    ensures ParseEntries(PrintEntry(e) + rest) == [CanonicalEntry(e)] + ParseEntries(rest)
  {
    hide Canonical, FieldLines, WellFormedFields, ParseFields, SkipNoise, ReadName, ParseEntries;
    var fields := Canonical(e.fields);
    var body := FieldLines(fields) + "\n}" + rest;
    var key := e.citeKey + ("," + body);
    var afterType := "{" + key;
    var s := "@" + (e.entryType + afterType);
    assert PrintEntry(e) + rest == s;
    SkipNothing(s);
    ReadNameBack(e.entryType, afterType);
    SkipNothing(afterType);
    if e.citeKey != [] { NameIsNotNoise(e.citeKey[0]); }
    SkipNothing(key);
    ReadNameBack(e.citeKey, "," + body);
    SkipNothing("," + body);
    assert [] + fields == fields;
    FieldsBack(fields, rest, []);
    EntryStep(s, e.entryType, key, e.citeKey, body, fields, rest);
  }

  /** One turn of the entry loop over a type, a key and a field list. */
  lemma EntryStep(s: string, name: string, key: string, citeKey: string, body: string, fields: seq<Field>, rest: string)
    requires SkipNoise(s) == s && s == "@" + (name + ("{" + key))
    requires name != [] && Lower(name) == name && name !in SKIP_TYPES
    requires ReadName(name + ("{" + key)) == (name, "{" + key) && SkipNoise("{" + key) == "{" + key
    requires SkipNoise(key) == key && ReadName(key) == (citeKey, "," + body) && SkipNoise("," + body) == "," + body
    requires ParseFields(body, []) == (fields, rest)
    ensures ParseEntries(s) == [Entry(name, citeKey, fields)] + ParseEntries(rest)
  {
    hide ParseFields, SkipNoise, ReadName, Lower, SKIP_TYPES, SkipBody;
    assert s[1..] == name + ("{" + key);
    assert ("{" + key)[1..] == key;
    assert ("," + body)[1..] == body;
  }

  // ----- the canonical order -----

  lemma {:induction false} HasFieldMeans(fields: seq<Field>, name: string)
    ensures HasField(fields, name) <==> exists i :: 0 <= i < |fields| && fields[i].name == name
    ensures HasField(fields, name) ==> Field(name, Get(fields, name)) in fields
  {
    if fields != [] {
      HasFieldMeans(fields[1..], name);
      assert fields == [fields[0]] + fields[1..];
      if HasField(fields[1..], name) {
        var i :| 0 <= i < |fields[1..]| && fields[1..][i].name == name;
        assert fields[i + 1].name == name;
      }
      if i :| 0 <= i < |fields| && fields[i].name == name {
        if i > 0 { assert fields[1..][i - 1].name == name; }
      }
    }
  }

  lemma {:induction false} KnownMembers(fields: seq<Field>, order: seq<string>)
    ensures forall f :: f in Known(fields, order) <==>
              f.name in order && HasField(fields, f.name) && f.value == Get(fields, f.name)
  {
    if order != [] {
      KnownMembers(fields, order[1..]);
      assert order == [order[0]] + order[1..];
    }
  }

  lemma {:induction false} UnknownMembers(fields: seq<Field>, order: seq<string>)
    ensures forall f :: f in Unknown(fields, order) <==> f in fields && f.name !in order
  {
    if fields != [] {
      UnknownMembers(fields[1..], order);
      assert fields == [fields[0]] + fields[1..];
    }
  }

  lemma {:induction false} KnownDistinct(fields: seq<Field>, order: seq<string>)
    requires NoDuplicates(order)
    ensures DistinctNames(Known(fields, order))
  {
    hide Get, HasField;
    if order != [] {
      KnownDistinct(fields, order[1..]);
      KnownMembers(fields, order[1..]);
      var tail := Known(fields, order[1..]);
      assert forall k :: 0 <= k < |order[1..]| ==> order[1..][k] == order[k + 1] != order[0];
      assert order[0] !in order[1..];
      assert forall j :: 0 <= j < |tail| ==> tail[j] in tail;
    }
  }

  lemma {:induction false} UnknownDistinct(fields: seq<Field>, order: seq<string>)
    requires DistinctNames(fields)
    ensures DistinctNames(Unknown(fields, order))
  {
    if fields != [] {
      UnknownDistinct(fields[1..], order);
      UnknownMembers(fields[1..], order);
      var tail := Unknown(fields[1..], order);
      forall j | 0 <= j < |tail| ensures tail[j].name != fields[0].name {
        assert tail[j] in tail;
        var k :| 0 <= k < |fields[1..]| && fields[1..][k] == tail[j];
        assert fields[k + 1] == tail[j];
      }
    }
  }

  lemma GetUnique(fields: seq<Field>, f: Field)
    requires DistinctNames(fields) && f in fields
    ensures HasField(fields, f.name) && Get(fields, f.name) == f.value
  {
    HasFieldMeans(fields, f.name);
    var i :| 0 <= i < |fields| && fields[i] == f;
    assert HasField(fields, f.name);
    var g := Field(f.name, Get(fields, f.name));
    var j :| 0 <= j < |fields| && fields[j] == g;
    assert i == j;
  }

  /** The place of a canonical name, told from its length and two of its letters. */
  function Place(s: string): int {
    if |s| == 6 && s[0] == 'a' && s[2] == 't' then 0
    else if |s| == 6 && s[0] == 'e' && s[2] == 'i' then 1
    else if |s| == 5 && s[0] == 't' && s[2] == 't' then 2
    else if |s| == 7 && s[0] == 'j' && s[2] == 'u' then 3
    else if |s| == 9 && s[0] == 'b' && s[2] == 'o' then 4
    else if |s| == 9 && s[0] == 'p' && s[2] == 'b' then 5
    else if |s| == 6 && s[0] == 's' && s[2] == 'h' then 6
    else if |s| == 11 && s[0] == 'i' && s[2] == 's' then 7
    else if |s| == 4 && s[0] == 'y' && s[2] == 'a' then 8
    else if |s| == 4 && s[0] == 'd' && s[2] == 't' then 9
    else if |s| == 6 && s[0] == 'v' && s[2] == 'l' then 10
    else if |s| == 6 && s[0] == 'n' && s[2] == 'm' then 11
    else if |s| == 5 && s[0] == 'p' && s[2] == 'g' then 12
    else if |s| == 7 && s[0] == 'e' && s[2] == 'i' then 13
    else if |s| == 7 && s[0] == 'c' && s[2] == 'a' then 14
    else if |s| == 6 && s[0] == 's' && s[2] == 'r' then 15
    else if |s| == 3 && s[0] == 'd' && s[2] == 'i' then 16
    else if |s| == 4 && s[0] == 'i' && s[2] == 'b' then 17
    else if |s| == 4 && s[0] == 'i' && s[2] == 's' then 18
    else if |s| == 3 && s[0] == 'u' && s[2] == 'l' then 19
    else if |s| == 4 && s[0] == 'n' && s[2] == 't' then 20
    else if |s| == 8 && s[0] == 'k' && s[2] == 'y' then 21
    else if |s| == 8 && s[0] == 'a' && s[2] == 's' then 22
    else -1
  }

  lemma PlaceOfName(i: nat)
    requires i < |FIELD_ORDER|
    ensures Place(FIELD_ORDER[i]) == i
  {
  }

  lemma OrderDistinct()
    ensures NoDuplicates(FIELD_ORDER)
  {
    hide Place, FIELD_ORDER;
    forall i, j | 0 <= i < j < |FIELD_ORDER| ensures FIELD_ORDER[i] != FIELD_ORDER[j] {
      PlaceOfName(i);
      PlaceOfName(j);
    }
  }

  /** Reordering keeps exactly the fields, each once. */
  lemma CanonicalSameFields(fields: seq<Field>)
    requires DistinctNames(fields)
    ensures forall f :: f in Canonical(fields) <==> f in fields
    ensures DistinctNames(Canonical(fields))
  {
    hide Get, HasField, FIELD_ORDER;
    var known, unknown := Known(fields, FIELD_ORDER), Unknown(fields, FIELD_ORDER);
    OrderDistinct();
    KnownMembers(fields, FIELD_ORDER);
    UnknownMembers(fields, FIELD_ORDER);
    KnownDistinct(fields, FIELD_ORDER);
    UnknownDistinct(fields, FIELD_ORDER);
    forall f ensures f in Canonical(fields) <==> f in fields {
      HasFieldMeans(fields, f.name);
      if f in fields { GetUnique(fields, f); }
    }
    forall i, j | 0 <= i < |known| && 0 <= j < |unknown| ensures known[i].name != unknown[j].name {
      assert known[i] in known && unknown[j] in unknown;
    }
  }

  lemma {:induction false} KnownOfSame(a: seq<Field>, b: seq<Field>, order: seq<string>)
    requires DistinctNames(a) && DistinctNames(b) && forall f :: f in a <==> f in b
    ensures Known(a, order) == Known(b, order)
  {
    hide Get, HasField;
    if order != [] {
      KnownOfSame(a, b, order[1..]);
      HasFieldMeans(a, order[0]);
      HasFieldMeans(b, order[0]);
      if HasField(a, order[0]) { GetUnique(b, Field(order[0], Get(a, order[0]))); }
      if HasField(b, order[0]) { GetUnique(a, Field(order[0], Get(b, order[0]))); }
    }
  }

  lemma {:induction false} UnknownConcat(a: seq<Field>, b: seq<Field>, order: seq<string>)
    ensures Unknown(a + b, order) == Unknown(a, order) + Unknown(b, order)
  {
    if a == [] {
      assert a + b == b;
    } else {
      assert (a + b)[1..] == a[1..] + b;
      UnknownConcat(a[1..], b, order);
    }
  }

  lemma {:induction false} UnknownOfKnown(fields: seq<Field>, order: seq<string>)
    requires forall f :: f in fields ==> f.name in order
    ensures Unknown(fields, order) == []
  {
    if fields != [] {
      assert fields[0] in fields;
      UnknownOfKnown(fields[1..], order);
    }
  }

  lemma {:induction false} UnknownOfUnknown(fields: seq<Field>, order: seq<string>)
    requires forall f :: f in fields ==> f.name !in order
    ensures Unknown(fields, order) == fields
  {
    if fields != [] {
      assert fields[0] in fields;
      UnknownOfUnknown(fields[1..], order);
    }
  }

  /** Reordering twice is reordering once. */
  lemma CanonicalIdempotent(fields: seq<Field>)
    requires DistinctNames(fields)
    ensures Canonical(Canonical(fields)) == Canonical(fields)
  {
    hide Get, HasField, FIELD_ORDER, Known, Unknown;
    var known, unknown := Known(fields, FIELD_ORDER), Unknown(fields, FIELD_ORDER);
    CanonicalSameFields(fields);
    KnownMembers(fields, FIELD_ORDER);
    UnknownMembers(fields, FIELD_ORDER);
    KnownOfSame(Canonical(fields), fields, FIELD_ORDER);
    UnknownConcat(known, unknown, FIELD_ORDER);
    UnknownOfKnown(known, FIELD_ORDER);
    UnknownOfUnknown(unknown, FIELD_ORDER);
  }

  lemma CanonicalWellFormed(fields: seq<Field>)
    requires WellFormedFields(fields)
    ensures WellFormedFields(Canonical(fields))
  {
    hide WellFormedField, Canonical;
    CanonicalSameFields(fields);
    var canonical := Canonical(fields);
    forall i | 0 <= i < |canonical| ensures WellFormedField(canonical[i]) {
      assert canonical[i] in fields;
    }
  }

  // ----- whole documents -----

  lemma SkipBreaks(rest: string)
    ensures ParseEntries("\n" + rest) == ParseEntries(rest)
    ensures ParseEntries("\n\n" + rest) == ParseEntries(rest)
  {
    SkipBreak(rest);
    SkipBreak("\n" + rest);
    assert "\n\n" + rest == "\n" + ("\n" + rest);
    NoiseFirst("\n" + rest, rest);
    NoiseFirst("\n\n" + rest, "\n" + rest);
  }

  lemma NoiseFirst(s: string, t: string)
    requires SkipNoise(s) == SkipNoise(t)
    ensures ParseEntries(s) == ParseEntries(t)
  {
    hide SkipNoise, ReadName, ParseFields, Lower, SKIP_TYPES, SkipBody, SkipTo;
  }

  /**
   Printing then parsing any list of well-formed entries gives back the same entries,
   their fields in canonical order, and printing those again gives the same text.
   */
  lemma {:induction false} RoundTrip(entries: seq<Entry>)
    requires forall i :: 0 <= i < |entries| ==> WellFormed(entries[i])
    ensures ParseEntries(PrintEntries(entries)) == CanonicalEntries(entries)
    ensures PrintEntries(CanonicalEntries(entries)) == PrintEntries(entries)
  {
    hide WellFormed, ParseEntries, PrintEntry, CanonicalEntry;
    if entries == [] {
      NothingToParse();
    } else {
      var e, more := entries[0], entries[1..];
      RoundTrip(more);
      assert CanonicalEntries(entries) == [CanonicalEntry(e)] + CanonicalEntries(more);
      assert CanonicalEntries(entries)[1..] == CanonicalEntries(more);
      OneEntry(e, more);
    }
  }

  lemma OneEntry(e: Entry, more: seq<Entry>)
    requires WellFormed(e)
    ensures ParseEntries(PrintEntries([e] + more)) == [CanonicalEntry(e)] + ParseEntries(PrintEntries(more))
    ensures PrintEntry(CanonicalEntry(e)) == PrintEntry(e)
  {
    hide WellFormedFields, Canonical, ParseEntries, PrintEntry, DistinctNames;
    DistinctOfWellFormed(e.fields);
    CanonicalWellFormed(e.fields);
    CanonicalIdempotent(e.fields);
    PrintCanonical(e);
    assert ([e] + more)[1..] == more;
    SkipBreaks(PrintEntries(more));
    if more == [] {
      assert PrintEntries([e] + more) == PrintEntry(e) + ("\n" + PrintEntries(more));
      EntryBack(e, "\n" + PrintEntries(more));
    } else {
      assert PrintEntries([e] + more) == PrintEntry(e) + ("\n\n" + PrintEntries(more));
      EntryBack(e, "\n\n" + PrintEntries(more));
    }
  }

  lemma PrintCanonical(e: Entry)
    requires Canonical(Canonical(e.fields)) == Canonical(e.fields)
    ensures PrintEntry(CanonicalEntry(e)) == PrintEntry(e)
  {
  }

  lemma NothingToParse()
    ensures ParseEntries("") == []
  {
  }

  lemma DistinctOfWellFormed(fields: seq<Field>)
    requires WellFormedFields(fields)
    ensures DistinctNames(fields)
  {
  }

  /** What comes back holds exactly the fields that were printed. */
  lemma RoundTripKeepsFields(entries: seq<Entry>, i: nat)
    requires forall k :: 0 <= k < |entries| ==> WellFormed(entries[k])
    requires i < |entries|
    ensures var back := ParseEntries(PrintEntries(entries));
            && |back| == |entries|
            && back[i].entryType == entries[i].entryType && back[i].citeKey == entries[i].citeKey
            && forall f :: f in back[i].fields <==> f in entries[i].fields
  {
    hide WellFormed, ParseEntries, PrintEntries;
    RoundTrip(entries);
    FieldsDistinct(entries[i]);
    CanonicalSameFields(entries[i].fields);
  }

  lemma FieldsDistinct(e: Entry)
    requires WellFormed(e)
    ensures DistinctNames(e.fields)
  {
  }
}
