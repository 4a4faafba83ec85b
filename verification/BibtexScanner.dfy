/**
 The index-driven scanner and the line-building serializer, proved to compute the
 parser and the printer. Every loop here terminates on every input.
 */
module BibtexScanner {
  import opened Bibtex
  import opened Text

  /** The text still to be read at index i; an index past the end leaves nothing. */
  function Rest(text: string, i: nat): string {
    if i >= |text| then "" else text[i..]
  }

  lemma RestStep(text: string, i: nat)
    requires i < |text|
    ensures Rest(text, i) != [] && Rest(text, i)[0] == text[i] && Rest(text, i)[1..] == Rest(text, i + 1)
  {
  }

  /** Text already taken, put in front of what is still to be read. */
  function Prepend(taken: string, r: (string, string)): (string, string) {
    (taken + r.0, r.1)
  }

  lemma PrependStep(taken: string, c: char, r: (string, string))
    ensures Prepend(taken, ([c] + r.0, r.1)) == Prepend(taken + [c], r)
    ensures Prepend("", r) == r
    ensures Prepend(taken, ("", r.1)) == (taken, r.1)
  {
    assert taken + ([c] + r.0) == (taken + [c]) + r.0;
    assert "" + r.0 == r.0;
    assert taken + "" == taken;
  }

  predicate At(text: string, i: nat, c: char) {
    i < |text| && text[i] == c
  }

  method SkipNoiseAt(text: string, start: nat) returns (i: nat)
    ensures i >= start && Rest(text, i) == SkipNoise(Rest(text, start))
  {
    hide IsSpace, SkipLine;
    i := start;
    while true
      invariant i >= start && SkipNoise(Rest(text, i)) == SkipNoise(Rest(text, start))
      decreases |text| - i
    {
      while i < |text| && IsSpace(text[i])
        invariant i >= start && SkipNoise(Rest(text, i)) == SkipNoise(Rest(text, start))
      {
        RestStep(text, i);
        i := i + 1;
      }
      if !At(text, i, '%') { return; }
      RestStep(text, i);
      i := SkipLineAt(text, i + 1);
    }
  }

  method SkipLineAt(text: string, start: nat) returns (i: nat)
    ensures i >= start && Rest(text, i) == SkipLine(Rest(text, start))
  {
    hide Rest;
    i := start;
    while i < |text| && text[i] != '\n'
      invariant i >= start && SkipLine(Rest(text, i)) == SkipLine(Rest(text, start))
    {
      RestStep(text, i);
      i := i + 1;
    }
    RestEnd(text, i);
    if i < |text| { RestStep(text, i); }
  }

  method ReadNameAt(text: string, start: nat) returns (name: string, i: nat)
    requires start <= |text|
    ensures start <= i <= |text|
    ensures ReadName(Rest(text, start)) == (name, Rest(text, i))
  {
    i := start;
    assert text[start..start] == "";
    PrependStep("", ' ', ReadName(Rest(text, start)));
    while i < |text| && IsNameChar(text[i])
      invariant start <= i <= |text|
      invariant ReadName(Rest(text, start)) == Prepend(text[start..i], ReadName(Rest(text, i)))
    {
      RestStep(text, i);
      assert text[start..i + 1] == text[start..i] + [text[i]];
      PrependStep(text[start..i], text[i], ReadName(Rest(text, i + 1)));
      i := i + 1;
    }
    name := text[start..i];
    PrependStep(name, ' ', ("", Rest(text, i)));
  }

  method ReadValueAt(text: string, start: nat) returns (value: string, i: nat)
    ensures i >= start && ReadValue(Rest(text, start)) == (value, Rest(text, i))
  {
    i := SkipNoiseAt(text, start);
    if At(text, i, '{') {
      RestStep(text, i);
      i := i + 1;
      value, i := ReadBracedAt(text, i);
    } else if At(text, i, '"') {
      RestStep(text, i);
      i := i + 1;
      value, i := ReadQuotedAt(text, i);
    } else {
      if i >= |text| { return "", i; }
      var raw;
      raw, i := ReadBareAt(text, i);
      value := Trim(raw);
    }
  }

  method ReadBracedAt(text: string, start: nat) returns (out: string, i: nat)
    ensures i >= start && ReadBraced(Rest(text, start), 1) == (out, Rest(text, i))
  {
    hide Prepend;
    var depth: nat := 1;
    out, i := "", start;
    PrependStep("", ' ', ReadBraced(Rest(text, start), 1));
    while i < |text|
      invariant i >= start && depth >= 1
      invariant ReadBraced(Rest(text, start), 1) == Prepend(out, ReadBraced(Rest(text, i), depth))
    {
      RestStep(text, i);
      var ch := text[i];
      PrependStep(out, ch, ("", Rest(text, i + 1)));
      if ch == '{' {
        depth := depth + 1;
      } else if ch == '}' {
        depth := depth - 1;
        if depth == 0 { return out, i + 1; }
      } else {
        PrependStep(out, ch, ReadBraced(Rest(text, i + 1), depth));
        out := out + [ch];
      }
      i := i + 1;
    }
    PrependStep(out, ' ', ("", ""));
  }

  method ReadQuotedAt(text: string, start: nat) returns (out: string, i: nat)
    ensures i >= start && ReadQuoted(Rest(text, start)) == (out, Rest(text, i))
  {
    hide Prepend;
    out, i := "", start;
    PrependStep("", ' ', ReadQuoted(Rest(text, start)));
    while i < |text|
      invariant i >= start
      invariant ReadQuoted(Rest(text, start)) == Prepend(out, ReadQuoted(Rest(text, i)))
    {
      RestStep(text, i);
      PrependStep(out, text[i], ("", Rest(text, i + 1)));
      PrependStep(out, text[i], ReadQuoted(Rest(text, i + 1)));
      if text[i] == '"' { return out, i + 1; }
      out := out + [text[i]];
      i := i + 1;
    }
    PrependStep(out, ' ', ("", ""));
  }

  method ReadBareAt(text: string, start: nat) returns (raw: string, i: nat)
    requires start <= |text|
    ensures i >= start && ReadBare(Rest(text, start), 0) == (raw, Rest(text, i))
  {
    hide Prepend, Rest;
    var depth: nat := 0;
    i := start;
    assert text[start..start] == "";
    PrependStep("", ' ', ReadBare(Rest(text, start), 0));
    while i < |text|
      invariant start <= i <= |text|
      invariant ReadBare(Rest(text, start), 0) == Prepend(text[start..i], ReadBare(Rest(text, i), depth))
    {
      RestStep(text, i);
      assert text[start..i + 1] == text[start..i] + [text[i]];
      var ch := text[i];
      PrependStep(text[start..i], ch, ("", Rest(text, i)));
      if ch == '{' {
        depth := depth + 1;
      } else if ch == '}' {
        if depth == 0 { return text[start..i], i; }
        depth := depth - 1;
      } else if ch == ',' && depth == 0 {
        return text[start..i], i;
      }
      PrependStep(text[start..i], ch, ReadBare(Rest(text, i + 1), depth));
      i := i + 1;
    }
    raw := text[start..i];
    RestEnd(text, i);
    PrependStep(raw, ' ', ("", ""));
  }

  method SkipToAt(text: string, start: nat, c: char) returns (i: nat)
    ensures i >= start && Rest(text, i) == SkipTo(Rest(text, start), c)
    ensures i < |text| ==> text[i] == c
  {
    hide Rest;
    i := start;
    while i < |text| && text[i] != c
      invariant i >= start && SkipTo(Rest(text, i), c) == SkipTo(Rest(text, start), c)
    {
      RestStep(text, i);
      i := i + 1;
    }
    RestEnd(text, i);
    if i < |text| { RestStep(text, i); }
  }

  /** The body of a skipped construct: braced, quoted, or to the end of the line. */
  method SkipBodyAt(text: string, start: nat) returns (i: nat)
    ensures i >= start && Rest(text, i) == SkipBody(Rest(text, start))
  {
    hide Rest, SkipTo;
    i := start;
    RestAt(text, i);
    if At(text, i, '{') {
      var depth := 0;
      while i < |text|
        invariant i >= start && SkipBraces(Rest(text, i), depth) == SkipBraces(Rest(text, start), 0)
      {
        RestStep(text, i);
        if text[i] == '{' {
          depth := depth + 1;
        } else if text[i] == '}' {
          depth := depth - 1;
          if depth == 0 { return i + 1; }
        }
        i := i + 1;
      }
      RestEnd(text, i);
    } else if At(text, i, '"') {
      RestStep(text, i);
      i := SkipToAt(text, i + 1, '"');
      RestTail(text, i);
      i := i + 1;
    } else {
      i := SkipToAt(text, i, '\n');
    }
  }

  method SkipGarbledAt(text: string, start: nat) returns (i: nat)
    ensures i >= start && Rest(text, i) == SkipGarbled(Rest(text, start))
  {
    hide Rest;
    i := start;
    while i < |text| && text[i] != ',' && text[i] != '}'
      invariant i >= start && SkipGarbled(Rest(text, i)) == SkipGarbled(Rest(text, start))
    {
      RestStep(text, i);
      i := i + 1;
    }
    RestEnd(text, i);
    if i < |text| { RestStep(text, i); }
    if At(text, i, ',') {
      i := i + 1;
    }
  }

  method ReadFieldsAt(text: string, start: nat) returns (fields: seq<Field>, i: nat)
    ensures i >= start && ParseFields(Rest(text, start), []) == (fields, Rest(text, i))
  {
    hide SkipNoise, ReadValue, ReadName, SkipGarbled, Put, Lower, ParseFields, Rest;
    fields, i := [], start;
    while true
      invariant i >= start && ParseFields(Rest(text, i), fields) == ParseFields(Rest(text, start), [])
      decreases |text| - i
    {
      FieldsTurn(Rest(text, i), fields);
      i := SkipNoiseAt(text, i);
      RestEnd(text, i);
      if i >= |text| { return; }
      RestStep(text, i);
      if text[i] == '}' { return fields, i + 1; }
      if !IsNameStart(text[i]) {
        i := i + 1;
        continue;
      }
      var name;
      NameIsRead(text, i);
      name, i := ReadNameAt(text, i);
      i := SkipNoiseAt(text, i);
      RestAt(text, i);
      if !At(text, i, '=') {
        i := SkipGarbledAt(text, i);
        continue;
      }
      RestStep(text, i);
      var value;
      value, i := ReadValueAt(text, i + 1);
      i := SkipNoiseAt(text, i);
      fields := Put(fields, Lower(name), value);
      RestAt(text, i);
      if At(text, i, ',') {
        RestStep(text, i);
        i := i + 1;
      } else if At(text, i, '}') {
        RestStep(text, i);
        return fields, i + 1;
      }
    }
  }

  lemma RestEnd(text: string, i: nat)
    ensures Rest(text, i) == [] <==> i >= |text|
  {
  }

  lemma RestAt(text: string, i: nat)
    ensures forall c :: Starts(Rest(text, i), c) <==> At(text, i, c)
  {
  }

  /** One turn of the field loop. */
  lemma FieldsTurn(s: string, fields: seq<Field>)
    ensures var t := SkipNoise(s);
            ParseFields(s, fields) ==
            if t == [] then (fields, t)
            else if t[0] == '}' then (fields, t[1..])
            else if !IsNameStart(t[0]) then ParseFields(t[1..], fields)
            else
              var u := SkipNoise(ReadName(t).1);
              if !Starts(u, '=') then ParseFields(SkipGarbled(u), fields)
              else
                var (value, afterValue) := ReadValue(u[1..]);
                var v, next := SkipNoise(afterValue), Put(fields, Lower(ReadName(t).0), value);
                if Starts(v, ',') then ParseFields(v[1..], next)
                else if Starts(v, '}') then (next, v[1..])
                else ParseFields(v, next)
  {
    hide SkipNoise, ReadValue, ReadName, SkipGarbled, Put, Lower;
  }

  lemma NameIsRead(text: string, i: nat)
    requires i < |text| && IsNameStart(text[i])
    ensures ReadName(Rest(text, i)).0 != []
  {
  }

  /** An entry's cite key and fields, read from behind its opening brace, and what follows them. */
  function BodyOf(s: string): (string, seq<Field>, string) {
    var (citeKey, afterKey) := ReadName(SkipNoise(s));
    var v := SkipNoise(afterKey);
    var (fields, rest) := ParseFields(if Starts(v, ',') then v[1..] else v, []);
    (citeKey, fields, rest)
  }

  method ReadBodyAt(text: string, start: nat) returns (citeKey: string, fields: seq<Field>, i: nat)
    ensures i >= start && BodyOf(Rest(text, start)) == (citeKey, fields, Rest(text, i))
  {
    hide SkipNoise, ReadName, ParseFields, Rest;
    i := SkipNoiseAt(text, start);
    citeKey := "";
    RestEnd(text, i);
    NoName();
    if i < |text| { citeKey, i := ReadNameAt(text, i); }
    i := SkipNoiseAt(text, i);
    RestAt(text, i);
    if At(text, i, ',') {
      RestStep(text, i);
      i := i + 1;
    }
    fields, i := ReadFieldsAt(text, i);
  }

  /** Parses a document; malformed input is skipped or clamped, never an error. */
  method ParseBibtex(text: string) returns (entries: seq<Entry>)
    ensures entries == ParseEntries(text)
  {
    hide SkipNoise, ReadName, BodyOf, SkipBody, Lower, SkipTo, ParseEntries, Rest, SKIP_TYPES;
    entries := [];
    var i := 0;
    RestWhole(text);
    NoEntries();
    while i < |text|
      invariant entries + ParseEntries(Rest(text, i)) == ParseEntries(text)
      decreases |text| - i
    {
      EntriesTurn(Rest(text, i));
      i := SkipNoiseAt(text, i);
      RestEnd(text, i);
      if i >= |text| { return; }
      RestStep(text, i);
      if text[i] != '@' {
        i := SkipToAt(text, i + 1, '@');
        continue;
      }
      i := i + 1;
      var typeName;
      typeName, i := ReadNameAt(text, i);
      if |typeName| == 0 {
        RestTail(text, i);
        i := i + 1;
        continue;
      }
      i := SkipNoiseAt(text, i);
      var entryType := Lower(typeName);
      if entryType in SKIP_TYPES {
        i := SkipBodyAt(text, i);
        continue;
      }
      RestAt(text, i);
      if !At(text, i, '{') { continue; }
      RestStep(text, i);
      var citeKey, fields;
      citeKey, fields, i := ReadBodyAt(text, i + 1);
      entries := entries + [Entry(entryType, citeKey, fields)];
    }
    RestEnd(text, i);
  }

  lemma RestWhole(text: string)
    ensures Rest(text, 0) == text
  {
  }

  lemma RestTail(text: string, i: nat)
    ensures Tail(Rest(text, i)) == Rest(text, i + 1)
  {
  }

  /** One turn of the entry loop. */
  lemma EntriesTurn(s: string)
    ensures var t := SkipNoise(s);
            ParseEntries(s) ==
            if t == [] then []
            else if t[0] != '@' then ParseEntries(SkipTo(t[1..], '@'))
            else
              var (name, afterType) := ReadName(t[1..]);
              if name == [] then ParseEntries(Tail(afterType))
              else
                var u := SkipNoise(afterType);
                if Lower(name) in SKIP_TYPES then ParseEntries(SkipBody(u))
                else if !Starts(u, '{') then ParseEntries(u)
                else
                  var (citeKey, fields, rest) := BodyOf(u[1..]);
                  [Entry(Lower(name), citeKey, fields)] + ParseEntries(rest)
  {
    var t := SkipNoise(s);
    if t != [] { EmptyName(t[1..]); }
    hide SkipNoise, ReadName, ParseFields, SkipBody, Lower, SkipTo, SKIP_TYPES;
  }

  lemma EmptyName(s: string)
    ensures ReadName(s).0 == [] ==> ReadName(s).1 == s
  {
  }

  lemma NoName()
    ensures ReadName("") == ("", "")
  {
  }

  lemma NoEntries()
    ensures ParseEntries("") == []
  {
  }

  // ----- the serializer -----

  function Join(lines: seq<string>, sep: string): string {
    if lines == [] then ""
    else if |lines| == 1 then lines[0]
    else Join(lines[..|lines| - 1], sep) + sep + lines[|lines| - 1]
  }

  method SerializeBibEntry(e: Entry) returns (text: string)
    ensures text == PrintEntry(e)
  {
    hide Canonical, EscapeFieldValue, FieldLines, CommaLines, LineOf;
    var ordered := Canonical(e.fields);
    NoLines();
    var head := "@" + e.entryType + "{" + e.citeKey + ",";
    var lines := [head];
    for n := 0 to |ordered|
      invariant |lines| == n + 1
      invariant Join(lines, "\n") == head + CommaLines(ordered[..n])
      invariant n > 0 ==> lines[n] == LineOf(ordered[n - 1]) + ","
    {
      var line := LineOf(ordered[n]) + ",";
      assert (lines + [line])[..|lines + [line]| - 1] == lines;
      assert ordered[..n + 1][..n] == ordered[..n];
      CommaLinesBack(ordered, n);
      lines := lines + [line];
    }
    assert ordered[..|ordered|] == ordered;
    if |lines| > 1 {
      var last := lines[|lines| - 1];
      var trimmed := lines[..|lines| - 1] + [last[..|last| - 1]];
      TrimLast(lines, trimmed, head, ordered);
      lines := trimmed;
    }
    LinesEnd(ordered);
    CutComma(Join(lines, "\n"), head + FieldLines(ordered));
    assert head + (FieldLines(ordered) + ",") == head + FieldLines(ordered) + ",";
    assert head + "" == head;
    assert (lines + ["}"])[..|lines + ["}"]| - 1] == lines;
    text := Join(lines + ["}"], "\n");
  }

  lemma CutComma(a: string, b: string)
    ensures a + "," == b + "," ==> a == b
  {
    if a + "," == b + "," {
      assert a == (a + ",")[..|a|] && b == (b + ",")[..|b|];
    }
  }

  lemma NoLines()
    ensures CommaLines([]) == "" && FieldLines([]) == ""
  {
  }

  lemma CommaLinesBack(fields: seq<Field>, n: nat)
    requires n < |fields|
    ensures CommaLines(fields[..n + 1]) == CommaLines(fields[..n]) + "\n" + LineOf(fields[n]) + ","
  {
    assert fields[..n + 1][..n] == fields[..n];
  }

  function LineOf(f: Field): string {
    "  " + f.name + " = {" + EscapeFieldValue(f.value) + "}"
  }

  /** The field lines with a comma after every one, as they stand before the last is cut. */
  function CommaLines(fields: seq<Field>): string {
    if fields == [] then "" else CommaLines(fields[..|fields| - 1]) + "\n" + LineOf(fields[|fields| - 1]) + ","
  }

  lemma TrimLast(lines: seq<string>, trimmed: seq<string>, head: string, fields: seq<Field>)
    requires |lines| == |fields| + 1 > 1
    requires Join(lines, "\n") == head + CommaLines(fields)
    requires lines[|lines| - 1] == LineOf(fields[|fields| - 1]) + ","
    requires trimmed == lines[..|lines| - 1] + [LineOf(fields[|fields| - 1])]
    ensures Join(trimmed, "\n") + "," == head + CommaLines(fields)
  {
    assert trimmed[..|trimmed| - 1] == lines[..|lines| - 1];
  }

  lemma {:induction false} CommaLinesFront(fields: seq<Field>)
    requires fields != []
    ensures CommaLines(fields) == FieldLine(fields[0]) + "," + CommaLines(fields[1..])
  {
    hide EscapeFieldValue;
    if |fields| > 1 {
      var init := fields[..|fields| - 1];
      CommaLinesFront(init);
      assert fields[1..][..|fields[1..]| - 1] == init[1..];
    } else {
      assert fields[..0] == [] && fields[1..] == [];
    }
  }

  lemma {:induction false} LinesEnd(fields: seq<Field>)
    ensures CommaLines(fields) == if fields == [] then "" else FieldLines(fields) + ","
  {
    if fields != [] {
      CommaLinesFront(fields);
      LinesEnd(fields[1..]);
    }
  }

  method SerializeBibtex(entries: seq<Entry>) returns (text: string)
    ensures text == PrintEntries(entries)
  {
    hide PrintEntry, PrintEntries, Join;
    var printed: seq<string> := [];
    for n := 0 to |entries|
      invariant |printed| == n
      invariant forall k :: 0 <= k < n ==> printed[k] == PrintEntry(entries[k])
    {
      var one := SerializeBibEntry(entries[n]);
      printed := printed + [one];
    }
    JoinIsPrint(entries, printed);
    text := Join(printed, "\n\n") + if |entries| > 0 then "\n" else "";
  }

  lemma {:induction false} JoinFront(lines: seq<string>, sep: string)
    requires |lines| > 1
    ensures Join(lines, sep) == lines[0] + sep + Join(lines[1..], sep)
  {
    var init := lines[..|lines| - 1];
    if |lines| > 2 {
      JoinFront(init, sep);
      assert lines[1..][..|lines[1..]| - 1] == init[1..];
    }
  }

  lemma {:induction false} JoinIsPrint(entries: seq<Entry>, printed: seq<string>)
    requires |printed| == |entries|
    requires forall k :: 0 <= k < |entries| ==> printed[k] == PrintEntry(entries[k])
    ensures Join(printed, "\n\n") + (if |entries| > 0 then "\n" else "") == PrintEntries(entries)
  {
    hide PrintEntry;
    if |entries| > 1 {
      JoinFront(printed, "\n\n");
      JoinIsPrint(entries[1..], printed[1..]);
    }
  }
}
