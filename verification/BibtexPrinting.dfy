/**
 The characters, names and shapes of BibTeX, written out as literals, and what the printer
 makes of a field value and of the order of the fields.
 */
module BibtexPrinting {
  import opened Bibtex
  import opened BibtexRoundTrip
  import opened Text

  // ----- characters -----

  const CAPITALS := "ABCDEFGHIJKLMNOPQRSTUVWXYZ"
  const LETTERS := "abcdefghijklmnopqrstuvwxyz"

  lemma CapitalAt(k: nat)
    requires k < 26
    ensures |CAPITALS| == 26 && CAPITALS[k] == 'A' + k as char
  {
  }

  lemma LetterAt(k: nat)
    requires k < 26
    ensures |LETTERS| == 26 && LETTERS[k] == 'a' + k as char
  {
  }

  lemma Capitals(c: char)
    ensures c in CAPITALS <==> 'A' <= c <= 'Z'
  {
    hide CAPITALS;
    CapitalAt(0);
    forall k: nat | k < 26 ensures CAPITALS[k] == 'A' + k as char {
      CapitalAt(k);
    }
    if 'A' <= c <= 'Z' { assert CAPITALS[(c - 'A') as nat] == c; }
  }

  lemma Letters(c: char)
    ensures c in LETTERS <==> 'a' <= c <= 'z'
  {
    hide LETTERS;
    LetterAt(0);
    forall k: nat | k < 26 ensures LETTERS[k] == 'a' + k as char {
      LetterAt(k);
    }
    if 'a' <= c <= 'z' { assert LETTERS[(c - 'a') as nat] == c; }
  }

  lemma Marks(c: char)
    ensures c in "0123456789_-" <==> IsDigit(c) || c == '_' || c == '-'
  {
    var marks := "0123456789_-";
    if IsDigit(c) { assert marks[(c - '0') as nat] == c; }
    assert marks[10] == '_' && marks[11] == '-';
  }

  lemma NamesAreWritten(c: char)
    ensures IsNameStart(c) <==> c in CAPITALS || c in LETTERS
    ensures IsNameChar(c) <==> c in CAPITALS || c in LETTERS || c in "0123456789_-"
  {
    hide CAPITALS, LETTERS, IsDigit;
    Capitals(c);
    Letters(c);
    Marks(c);
  }

  /** A capital gives way to the letter in its place; every other character stays. */
  lemma LowerIs(s: string, i: nat)
    requires i < |s|
    ensures |Lower(s)| == |s|
    ensures s[i] !in CAPITALS ==> Lower(s)[i] == s[i]
    ensures forall k :: 0 <= k < 26 && s[i] == CAPITALS[k] ==> Lower(s)[i] == LETTERS[k]
  {
    hide CAPITALS, LETTERS;
    Capitals(s[i]);
    CapitalAt(0);
    LetterAt(0);
    forall k | 0 <= k < 26 && s[i] == CAPITALS[k] ensures Lower(s)[i] == LETTERS[k] {
      CapitalAt(k);
      LetterAt(k);
    }
  }

  // ----- values -----

  /** The words of a text: its longest stretches without whitespace. */
  function Words(s: string): (r: seq<string>)
    ensures s != "" && !IsSpace(s[0]) ==> r != []
  {
    if s == "" then []
    else if IsSpace(s[0]) then Words(s[1..])
    else if |s| > 1 && !IsSpace(s[1]) then
      var more := Words(s[1..]);
      [[s[0]] + more[0]] + more[1..]
    else [[s[0]]] + Words(s[1..])
  }

  function Spaced(words: seq<string>): string {
    if words == [] then "" else if |words| == 1 then words[0] else words[0] + " " + Spaced(words[1..])
  }

  function Ending(s: string): string {
    if s != "" && IsSpace(s[|s| - 1]) then " " else ""
  }

  function Opening(s: string): string {
    if s != "" && IsSpace(s[0]) then " " else ""
  }

  /** Collapsing leaves the words with a space between them, and one at an end where there was whitespace. */
  lemma {:induction false} CollapsedWords(s: string)
    ensures Collapse(s) == if Words(s) == [] then Ending(s) else Opening(s) + Spaced(Words(s)) + Ending(s)
  {
    hide IsSpace;
    if |s| > 1 {
      var ws := Words(s[1..]);
      CollapsedWords(s[1..]);
      assert Ending(s) == Ending(s[1..]);
      if IsSpace(s[0]) {
        assert Words(s) == ws;
      } else if IsSpace(s[1]) {
        assert Words(s) == [[s[0]]] + ws;
        SpacedOpens([s[0]], ws);
      } else {
        SpacedGrows(s[0], ws);
      }
    }
  }

  lemma SpacedOpens(word: string, ws: seq<string>)
    ensures Spaced([word] + ws) == if ws == [] then word else word + " " + Spaced(ws)
  {
    assert ([word] + ws)[1..] == ws;
  }

  lemma SpacedGrows(c: char, ws: seq<string>)
    requires ws != []
    ensures Spaced([[c] + ws[0]] + ws[1..]) == [c] + Spaced(ws)
  {
    assert ([[c] + ws[0]] + ws[1..])[1..] == ws[1..];
  }

  predicate Solid(words: seq<string>) {
    forall i :: 0 <= i < |words| ==> words[i] != "" && forall c :: c in words[i] ==> !IsSpace(c)
  }

  lemma {:induction false} WordsAreSolid(s: string)
    ensures Solid(Words(s))
  {
    hide IsSpace;
    if s != "" { WordsAreSolid(s[1..]); }
  }

  lemma {:induction false} SpacedEnds(words: seq<string>)
    requires Solid(words) && words != []
    ensures Spaced(words) != "" && !IsSpace(Spaced(words)[0]) && !IsSpace(Spaced(words)[|Spaced(words)| - 1])
  {
    hide IsSpace;
    var first := words[0];
    assert first[0] in first && first[|first| - 1] in first;
    if |words| > 1 { SpacedEnds(words[1..]); }
  }

  lemma TrimEnds(opening: string, s: string, ending: string)
    requires (opening == "" || opening == " ") && (ending == "" || ending == " ")
    requires s != "" && !IsSpace(s[0]) && !IsSpace(s[|s| - 1])
    ensures Trim(opening + s + ending) == s
  {
    var t := opening + s + ending;
    BlankIsSpace();
    hide IsSpace;
    assert t[|opening|..] == s + ending;
    assert TrimStart(s + ending) == s + ending;
    assert opening == " " ==> t[0] == ' ';
    assert TrimStart(t) == s + ending;
    assert (s + ending)[..|s|] == s && TrimEnd(s) == s;
    assert ending == "" ==> s + ending == s;
  }

  lemma BlankIsSpace()
    ensures IsSpace(' ')
  {
  }

  /** A value is printed as its words, a space between them, with its braces escaped. */
  lemma PrintedValue(value: string)
    ensures EscapeFieldValue(value) == EscapeBraces(Spaced(Words(value)))
  {
    hide IsSpace, Words, Spaced, Trim, Collapse, EscapeBraces;
    CollapsedWords(value);
    WordsAreSolid(value);
    BlankIsSpace();
    if Words(value) == [] {
      NoWords(Ending(value));
    } else {
      SpacedEnds(Words(value));
      TrimEnds(Opening(value), Spaced(Words(value)), Ending(value));
    }
  }

  lemma NoWords(s: string)
    requires s == "" || s == " "
    ensures Trim(s) == "" == Spaced([])
  {
    BlankIsSpace();
    assert s == " " ==> TrimStart(s) == TrimStart(s[1..]) == "";
  }

  /** Escaping goes letter by letter and puts a backslash before a brace. */
  lemma {:induction false} EscapeEach(a: string, b: string)
    ensures EscapeBraces(a + b) == EscapeBraces(a) + EscapeBraces(b)
  {
    hide EscapeBraces;
    if a == "" {
      assert a + b == b;
      EscapeNothing();
    } else {
      EscapeEach(a[1..], b);
      assert (a + b)[0] == a[0] && (a + b)[1..] == a[1..] + b;
      EscapeStep(a);
      EscapeStep(a + b);
      var first := EscapeBraces([a[0]]);
      assert first + EscapeBraces(a[1..] + b) == first + EscapeBraces(a[1..]) + EscapeBraces(b);
    }
  }

  lemma EscapeNothing()
    ensures EscapeBraces("") == ""
  {
  }

  lemma EscapeStep(s: string)
    requires s != ""
    ensures EscapeBraces(s) == EscapeBraces([s[0]]) + EscapeBraces(s[1..])
  {
    assert [s[0]][1..] == "";
  }

  lemma EscapeOne(c: char)
    ensures EscapeBraces([c]) == if c == '{' then "\\{" else if c == '}' then "\\}" else [c]
  {
    assert [c][1..] == "";
  }

  // ----- the order of the fields -----

  /** Where a field comes among those with a place of their own, or -1. */
  function Rank(name: string): int {
    if name == "author" then 0
    else if name == "editor" then 1
    else if name == "title" then 2
    else if name == "journal" then 3
    else if name == "booktitle" then 4
    else if name == "publisher" then 5
    else if name == "school" then 6
    else if name == "institution" then 7
    else if name == "year" then 8
    else if name == "date" then 9
    else if name == "volume" then 10
    else if name == "number" then 11
    else if name == "pages" then 12
    else if name == "edition" then 13
    else if name == "chapter" then 14
    else if name == "series" then 15
    else if name == "doi" then 16
    else if name == "isbn" then 17
    else if name == "issn" then 18
    else if name == "url" then 19
    else if name == "note" then 20
    else if name == "keywords" then 21
    else if name == "abstract" then 22
    else -1
  }

  lemma RankOfName(i: nat)
    requires i < |FIELD_ORDER|
    ensures Rank(FIELD_ORDER[i]) == i
  {
  }

  lemma RankOfOther(name: string)
    ensures name !in FIELD_ORDER <==> Rank(name) == -1
  {
  }

  function Unranked(fields: seq<Field>): seq<Field> {
    if fields == [] then []
    else (if Rank(fields[0].name) == -1 then [fields[0]] else []) + Unranked(fields[1..])
  }

  lemma {:induction false} UnknownAreUnranked(fields: seq<Field>)
    ensures Unknown(fields, FIELD_ORDER) == Unranked(fields)
  {
    hide FIELD_ORDER, Rank;
    if fields != [] {
      UnknownAreUnranked(fields[1..]);
      RankOfOther(fields[0].name);
    }
  }

  /** The fields have places from the given one on, in their order. */
  predicate Ascend(fields: seq<Field>, from: int) {
    && (forall i :: 0 <= i < |fields| ==> from <= Rank(fields[i].name))
    && (forall i, j :: 0 <= i < j < |fields| ==> Rank(fields[i].name) < Rank(fields[j].name))
  }

  lemma {:induction false} KnownAscend(fields: seq<Field>, order: seq<string>, from: nat)
    requires forall i :: 0 <= i < |order| ==> Rank(order[i]) == from + i
    ensures Ascend(Known(fields, order), from)
  {
    hide Rank, HasField, Get;
    if order != [] {
      KnownAscend(fields, order[1..], from + 1);
      assert Rank(order[0]) == from;
      var tail := Known(fields, order[1..]);
      if HasField(fields, order[0]) {
        AscendGrows(Field(order[0], Get(fields, order[0])), tail, from);
      } else {
        assert Known(fields, order) == tail;
      }
    }
  }

  lemma AscendGrows(f: Field, tail: seq<Field>, from: int)
    requires Rank(f.name) == from && Ascend(tail, from + 1)
    ensures Ascend([f] + tail, from)
  {
    hide Rank;
  }

  /**
   The printed order: the fields that have a place, in its order, and behind them the others as
   they were inserted. No field is lost and none is added.
   */
  lemma PrintedOrder(fields: seq<Field>)
    requires DistinctNames(fields)
    ensures var others := Unranked(fields);
            var all := Canonical(fields);
            var n := |all| - |others|;
            && (forall f :: f in all <==> f in fields)
            && n >= 0 && all[n..] == others
            && Ascend(all[..n], 0)
  {
    hide FIELD_ORDER, Rank, Known, Unknown, Unranked;
    UnknownAreUnranked(fields);
    forall i | 0 <= i < |FIELD_ORDER| ensures Rank(FIELD_ORDER[i]) == i {
      RankOfName(i);
    }
    KnownAscend(fields, FIELD_ORDER, 0);
    CanonicalSameFields(fields);
    var known := Known(fields, FIELD_ORDER);
    assert Canonical(fields)[..|known|] == known;
  }

  // ----- the shape of a document -----

  lemma AscendApart(fields: seq<Field>)
    requires |fields| > 1 && Ascend(fields, 0)
    ensures fields[0] != fields[1]
  {
    assert Rank(fields[0].name) < Rank(fields[1].name);
  }

  lemma NothingToOrder()
    ensures Canonical([]) == []
  {
    PrintedOrder([]);
    if Canonical([]) != [] { HasOne(Canonical([])); }
  }

  lemma HasOne(fields: seq<Field>)
    requires fields != []
    ensures exists f :: f in fields
  {
    assert fields[0] in fields;
  }

  lemma FieldsInOrder(f: Field, g: Field)
    requires Rank(f.name) != -1 && Rank(g.name) == -1
    ensures Canonical([g, f]) == [f, g] && Canonical([]) == []
  {
    hide Rank, Canonical;
    var fields := [g, f];
    assert fields[1..] == [f] && [f][1..] == [];
    assert Unranked([f]) == [];
    assert Unranked(fields) == [g] + Unranked(fields[1..]);
    PrintedOrder(fields);
    NothingToOrder();
    var all := Canonical(fields);
    assert f in fields && f in all && f != g;
    forall i | 0 <= i < |all| - 1 ensures all[i] == f {
      assert all[i] in fields;
    }
    assert all[|all| - 1..] == [g];
    var i :| 0 <= i < |all| && all[i] == f;
    var known := all[..|all| - 1];
    if |known| > 1 { AscendApart(known); }
  }

  lemma ShapeOfField(f: Field)
    ensures FieldLine(f) == "\n  " + f.name + " = {" + EscapeFieldValue(f.value) + "}"
  {
  }

  lemma ShapeOfEntry(kind: string, key: string, f: Field, g: Field)
    requires Rank(f.name) != -1 && Rank(g.name) == -1
    ensures PrintEntry(Entry(kind, key, [])) == "@" + kind + "{" + key + "," + "\n}"
    ensures PrintEntry(Entry(kind, key, [g, f])) ==
            "@" + kind + "{" + key + "," +
            ("\n  " + f.name + " = {" + EscapeFieldValue(f.value) + "}," +
             "\n  " + g.name + " = {" + EscapeFieldValue(g.value) + "}") + "\n}"
  {
    hide Rank, Canonical, EscapeFieldValue;
    FieldsInOrder(f, g);
    hide FieldLine;
    assert [f, g][1..] == [g];
    assert FieldLines([f, g]) == FieldLine(f) + "," + FieldLine(g);
    assert PrintEntry(Entry(kind, key, [g, f])) ==
           "@" + kind + "{" + key + "," + (FieldLine(f) + "," + FieldLine(g)) + "\n}";
    ShapeOfField(f);
    ShapeOfField(g);
  }

  lemma ShapeOfDocument(d: Entry, e: Entry)
    ensures PrintEntries([]) == ""
    ensures PrintEntries([d, e]) == PrintEntry(d) + "\n" + "\n" + PrintEntry(e) + "\n"
  {
    hide PrintEntry;
    assert [d, e][1..] == [e] && [e][1..] == [];
  }
}
