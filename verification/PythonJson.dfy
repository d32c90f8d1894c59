/** Python's indented JSON text, and that the C parser reads it back. */
module PythonJson {
  import opened Words
  import opened JsonString
  import opened Json
  import opened Slices
  import opened JsonRoundTrip
  import opened PythonText

  const INDENT := 4

  function Spaces(n: nat): (s: seq<byte>)
    ensures |s| == n
  {
    if n == 0 then [] else [SPACE] + Spaces(n - 1)
  }

  /** A new line inside `d` brackets. */
  function Line(d: nat): seq<byte> { [NEWLINE] + Spaces(INDENT * d) }

  /** Numbers are int-valued and strings are texts. */
  predicate Dumpable(j: Json)
  {
    match j
    case OtherNumber(_) => false
    case String(s) => IsText(s)
    case Array(items) => forall i :: 0 <= i < |items| ==> Dumpable(items[i])
    case Object(members) => forall i :: 0 <= i < |members| ==> IsText(members[i].name) && Dumpable(members[i].value)
    case _ => true
  }

  /** The text `json.dumps` gives a value with an indent of 4. */
  function Dump(j: Json, d: nat): seq<byte>
    decreases j, 1, 0
  {
    match j
    case Array(items) =>
      if items == [] then [LBRACKET, RBRACKET] else [LBRACKET] + (Line(d + 1) + DumpItems(j, 0, d + 1))
    case Object(members) =>
      if members == [] then [LBRACE, RBRACE] else [LBRACE] + (Line(d + 1) + DumpMembers(j, 0, d + 1))
    case String(s) => QuotedText(s)
    case _ => Text(j, true, d)
  }

  function DumpItems(j: Json, i: nat, d: nat): seq<byte>
    requires j.Array? && i < |j.items| && d > 0
    decreases j, 0, |j.items| - i
  {
    Dump(j.items[i], d)
    + if i + 1 == |j.items| then Line(d - 1) + [RBRACKET] else [COMMA] + (Line(d) + DumpItems(j, i + 1, d))
  }

  function DumpMembers(j: Json, i: nat, d: nat): seq<byte>
    requires j.Object? && i < |j.members| && d > 0
    decreases j, 0, |j.members| - i
  {
    QuotedText(j.members[i].name) + ([COLON, SPACE] + (Dump(j.members[i].value, d) + MembersAfter(j, i, d)))
  }

  function MembersAfter(j: Json, i: nat, d: nat): seq<byte>
    requires j.Object? && i < |j.members| && d > 0
    decreases j, 0, |j.members| - i, 0
  {
    if i + 1 == |j.members| then Line(d - 1) + [RBRACE] else [COMMA] + (Line(d) + DumpMembers(j, i + 1, d))
  }

  // ----- reading it back -----

  lemma {:induction false} SpacesBlank(n: nat)
    ensures Blank(Spaces(n))
  {
    if n > 0 {
      SpacesBlank(n - 1);
    }
  }

  lemma AgainSkip(c: seq<byte>, o: nat)
    requires o < |c| && c[o] > 32
    ensures Skip(c, o) == o
  {
    SkipSpaces(c, o, 0);
  }

  /** Behind a line break the next printable byte is found. */
  lemma SkipLine(c: seq<byte>, o: nat, d: nat, rest: seq<byte>)
    requires At(c, o, Line(d) + rest) && rest != [] && rest[0] > 32
    ensures Skip(c, o) == o + |Line(d)| && At(c, Skip(c, o), rest) && o + |Line(d)| < |c|
  {
    SpacesBlank(INDENT * d);
    hide Skip;
    SkipBlank(c, o, Line(d), rest);
  }

  lemma DumpableItem(j: Json, i: nat)
    requires j.Array? && Dumpable(j) && i < |j.items|
    ensures Dumpable(j.items[i])
  {
  }

  lemma DumpableMember(j: Json, i: nat)
    requires j.Object? && Dumpable(j) && i < |j.members|
    ensures IsText(j.members[i].name) && Dumpable(j.members[i].value)
  {
  }

  lemma DumpHead(j: Json, d: nat)
    requires Dumpable(j)
    ensures Dump(j, d) != [] && 32 < Dump(j, d)[0] < 0x80 && Dump(j, d)[0] != RBRACKET && !InNumber(Line(d)[0])
  {
    if !j.Array? && !j.Object? && !j.String? {
      FirstOfText(j, true, d);
    }
    hide EscapeText, Text, DumpItems, DumpMembers, Dumpable;
  }

  /** A dumped value followed by `tail` parses, and `tail` comes next. */
  lemma {:induction false} DumpParses(c: seq<byte>, o: nat, j: Json, d: nat, depth: nat, strtod: Strtod,
                                      tail: seq<byte>)
    requires Dumpable(j) && depth + Nesting(j) <= NESTING_LIMIT && At(c, o, Dump(j, d) + tail)
    requires tail != [] && !InNumber(tail[0])
    ensures var next := o + |Dump(j, d)|;
      ParseValue(c, o, depth, strtod) == Parsed(j, next) && At(c, next, tail) && next < |c| && c[next] == tail[0]
    decreases j, 3, 0
  {
    hide Nesting, ParseValue, DumpItems, DumpMembers, Text, At, InNumber, Dumpable;
    AtAppend(c, o, Dump(j, d), tail);
    AtByteIn(c, o + |Dump(j, d)|, tail);
    if j.Array? {
      DumpedArray(c, o, j, d, depth, strtod);
    } else if j.Object? {
      DumpedObject(c, o, j, d, depth, strtod);
    } else if j.String? {
      DumpedString(c, o, j, d, depth, strtod);
    } else {
      assert Ends(c, o + |Dump(j, d)|);
      assert Plain(j) by { ScalarPlain(j); }
      TextParses(c, o, j, true, d, depth, strtod);
    }
  }

  lemma ScalarPlain(j: Json)
    requires Dumpable(j) && !j.String? && !j.Array? && !j.Object?
    ensures Plain(j)
  {
  }

  lemma DumpedString(c: seq<byte>, o: nat, j: Json, d: nat, depth: nat, strtod: Strtod)
    requires j.String? && Dumpable(j) && At(c, o, Dump(j, d))
    ensures ParseValue(c, o, depth, strtod) == Parsed(j, o + |Dump(j, d)|)
  {
    hide QuotedText, ParseString, IsText;
    QuotedParses(c, o, j.s);
    NoWords(c, o);
    hide At;
  }

  lemma {:induction false} DumpedArray(c: seq<byte>, o: nat, j: Json, d: nat, depth: nat, strtod: Strtod)
    requires j.Array? && Dumpable(j) && At(c, o, Dump(j, d)) && depth + Nesting(j) <= NESTING_LIMIT
    ensures ParseValue(c, o, depth, strtod) == Parsed(j, o + |Dump(j, d)|)
    decreases j, 2, 0
  {
    hide Dumpable, Nesting, ItemsNesting, ParseValue, ParseItems, At, DumpItems, Skip, Line;
    NestingOfArray(j);
    if j.items == [] {
      assert Dump(j, d) == [LBRACKET, RBRACKET];
      EmptyBrackets(c, o, depth, strtod);
    } else {
      var rest := DumpItems(j, 0, d + 1);
      assert Dump(j, d) == [LBRACKET] + (Line(d + 1) + rest);
      AtAppend(c, o, [LBRACKET], Line(d + 1) + rest);
      AtByteIn(c, o, [LBRACKET]);
      ItemsStart(j, 0, d + 1);
      SkipLine(c, o + 1, d + 1, rest);
      AtByteIn(c, Skip(c, o + 1), rest);
      ArrayIsLater(c, o, depth, strtod);
      DumpedItems(c, Skip(c, o + 1) - 1, j, 0, d + 1, depth + 1, strtod);
      assert j.items[0..] == j.items;
    }
  }

  lemma EmptyBrackets(c: seq<byte>, o: nat, depth: nat, strtod: Strtod)
    requires At(c, o, [LBRACKET, RBRACKET]) && depth < NESTING_LIMIT
    ensures ParseValue(c, o, depth, strtod) == Parsed(Array([]), o + 2)
  {
    AtByte(c, o, [LBRACKET, RBRACKET], 0);
    AtByte(c, o, [LBRACKET, RBRACKET], 1);
    NoWords(c, o);
    AgainSkip(c, o + 1);
    hide At, Skip;
  }

  lemma ItemsStart(j: Json, i: nat, d: nat)
    requires j.Array? && Dumpable(j) && i < |j.items| && d > 0
    ensures DumpItems(j, i, d) != [] && DumpItems(j, i, d)[0] > 32 && DumpItems(j, i, d)[0] != RBRACKET
  {
    DumpableItem(j, i);
    hide Dump, Line, Dumpable;
    DumpHead(j.items[i], d);
  }

  /** A nonempty array whose first item starts behind white space. */
  lemma ArrayIsLater(c: seq<byte>, o: nat, depth: nat, strtod: Strtod)
    requires o < |c| && c[o] == LBRACKET && depth < NESTING_LIMIT
    requires o < Skip(c, o + 1) < |c| && c[Skip(c, o + 1)] > 32 && c[Skip(c, o + 1)] != RBRACKET
    ensures ParseValue(c, o, depth, strtod) ==
      match ParseItems(c, Skip(c, o + 1) - 1, depth + 1,
        strtod) case Failed => Failed case Parsed(items, next) => Parsed(Array(items), next)
    ensures Skip(c, Skip(c, o + 1)) == Skip(c, o + 1)
  {
    hide At, ParseItems, Skip;
    NoWords(c, o);
    AgainSkip(c, Skip(c, o + 1));
  }

  /** One parsed item, the byte behind it found after white space. */
  lemma ItemThen(c: seq<byte>, e: nat, depth: nat, strtod: Strtod, v: Json, next: nat, o: nat)
    requires e < |c| && ParseValue(c, Skip(c, e + 1), depth, strtod) == Parsed(v, next) && o == Skip(c, next) && o < |c|
    ensures c[o] == RBRACKET ==> ParseItems(c, e, depth, strtod) == Parsed([v], o + 1)
    ensures c[o] == COMMA ==> ParseItems(c, e, depth, strtod) == Cons(v, ParseItems(c, o, depth, strtod))
  {
    hide ParseValue, Skip;
  }

  lemma {:induction false} DumpedItems(c: seq<byte>, e: nat, j: Json, i: nat, d: nat, depth: nat, strtod: Strtod)
    requires j.Array? && Dumpable(j) && i < |j.items| && e < |c| && d > 0
    requires At(c, Skip(c, e + 1), DumpItems(j, i, d)) && depth + ItemsNesting(j, i) <= NESTING_LIMIT
    ensures ParseItems(c, e, depth, strtod) == Parsed(j.items[i..], Skip(c, e + 1) + |DumpItems(j, i, d)|)
    decreases j, 1, |j.items| - i
  {
    hide Dumpable, Dump, ItemsNesting, Nesting, ParseItems, ParseValue, Skip, At;
    var o, item, text := Skip(c, e + 1), j.items[i], Dump(j.items[i], d);
    ItemsNestingSplit(j, i);
    DumpableItem(j, i);
    FrontItem(j.items, i);
    var next := o + |text|;
    if i + 1 == |j.items| {
      var tail := Line(d - 1) + [RBRACKET];
      DumpParses(c, o, item, d, depth, strtod, tail);
      SkipLine(c, next, d - 1, [RBRACKET]);
      AtByteIn(c, Skip(c, next), [RBRACKET]);
      ItemThen(c, e, depth, strtod, item, next, Skip(c, next));
      assert j.items[i..] == [item];
    } else {
      var rest := DumpItems(j, i + 1, d);
      var tail := [COMMA] + (Line(d) + rest);
      DumpParses(c, o, item, d, depth, strtod, tail);
      AgainSkip(c, next);
      AtAppend(c, next, [COMMA], Line(d) + rest);
      ItemsStart(j, i + 1, d);
      SkipLine(c, next + 1, d, rest);
      ItemThen(c, e, depth, strtod, item, next, next);
      DumpedItems(c, next, j, i + 1, d, depth, strtod);
    }
  }

  // ----- objects -----

  lemma {:induction false} DumpedObject(c: seq<byte>, o: nat, j: Json, d: nat, depth: nat, strtod: Strtod)
    requires j.Object? && Dumpable(j) && At(c, o, Dump(j, d)) && depth + Nesting(j) <= NESTING_LIMIT
    ensures ParseValue(c, o, depth, strtod) == Parsed(j, o + |Dump(j, d)|)
    decreases j, 2, 0
  {
    hide Dumpable, Nesting, MembersNesting, ParseValue, ParseMembers, At, DumpMembers, Skip, Line;
    NestingOfObject(j);
    if j.members == [] {
      assert Dump(j, d) == [LBRACE, RBRACE];
      EmptyBraces(c, o, depth, strtod);
    } else {
      var rest := DumpMembers(j, 0, d + 1);
      assert Dump(j, d) == [LBRACE] + (Line(d + 1) + rest);
      AtAppend(c, o, [LBRACE], Line(d + 1) + rest);
      AtByteIn(c, o, [LBRACE]);
      assert rest != [] && rest[0] == QUOTE by { MembersStart(j, 0, d + 1); }
      SkipLine(c, o + 1, d + 1, rest);
      AtByteIn(c, Skip(c, o + 1), rest);
      ObjectIsMembers(c, o, depth, strtod);
      DumpedMembers(c, Skip(c, o + 1) - 1, j, 0, d + 1, depth + 1, strtod);
      assert j.members[0..] == j.members;
    }
  }

  lemma EmptyBraces(c: seq<byte>, o: nat, depth: nat, strtod: Strtod)
    requires At(c, o, [LBRACE, RBRACE]) && depth < NESTING_LIMIT
    ensures ParseValue(c, o, depth, strtod) == Parsed(Object([]), o + 2)
  {
    AtByte(c, o, [LBRACE, RBRACE], 0);
    AtByte(c, o, [LBRACE, RBRACE], 1);
    NoWords(c, o);
    AgainSkip(c, o + 1);
    hide At, Skip;
  }

  lemma MembersStart(j: Json, i: nat, d: nat)
    requires j.Object? && i < |j.members| && d > 0
    ensures DumpMembers(j, i, d) != [] && DumpMembers(j, i, d)[0] == QUOTE
  {
    hide Dump, MembersAfter, EscapeText;
  }

  /** The name and the colon parse, and the value starts behind the blank. */
  lemma DumpedName(c: seq<byte>, o: nat, name: seq<byte>, rest: seq<byte>) returns (colon: nat)
    requires IsText(name) && At(c, o, QuotedText(name) + ([COLON, SPACE] + rest)) && rest != [] && rest[0] > 32
    ensures ParseString(c, o) == Parsed(name, colon) && colon == o + |QuotedText(name)| < |c| && c[colon] == COLON
    ensures Skip(c, colon) == colon
    ensures At(c, Skip(c, colon + 1), rest) && Skip(c, colon + 1) == o + |QuotedText(name)| + 2
  {
    hide QuotedText, ParseString, At, Skip;
    AtAppend(c, o, QuotedText(name), [COLON, SPACE] + rest);
    QuotedParses(c, o, name);
    colon := o + |QuotedText(name)|;
    assert [COLON, SPACE] + rest == [COLON] + ([SPACE] + rest);
    AtAppend(c, colon, [COLON], [SPACE] + rest);
    AtByteIn(c, colon, [COLON]);
    AgainSkip(c, colon);
    SkipBlank(c, colon + 1, [SPACE], rest);
  }

  lemma {:induction false} DumpedMembers(c: seq<byte>, e: nat, j: Json, i: nat, d: nat, depth: nat, strtod: Strtod)
    requires j.Object? && Dumpable(j) && i < |j.members| && e < |c| && d > 0
    requires At(c, Skip(c, e + 1), DumpMembers(j, i, d)) && depth + MembersNesting(j, i) <= NESTING_LIMIT
    ensures ParseMembers(c, e, depth, strtod) == Parsed(j.members[i..], Skip(c, e + 1) + |DumpMembers(j, i, d)|)
    decreases j, 1, |j.members| - i
  {
    hide Dumpable, Dump, MembersNesting, Nesting, ParseMembers, ParseValue, ParseString, Skip, At, QuotedText;
    var o, m := Skip(c, e + 1), j.members[i];
    var value, tail := Dump(m.value, d), MembersAfter(j, i, d);
    MembersNestingSplit(j, i);
    DumpableMember(j, i);
    FrontMember(j.members, i);
    DumpHead(m.value, d);
    var colon := DumpedName(c, o, m.name, value + tail);
    DumpParses(c, colon + 2, m.value, d, depth, strtod, tail);
    var next := colon + 2 + |value|;
    if i + 1 == |j.members| {
      SkipLine(c, next, d - 1, [RBRACE]);
      AtByteIn(c, Skip(c, next), [RBRACE]);
      MemberStep(c, e, depth, strtod, m.name, colon, m.value, next);
      assert j.members[i..] == [Member(m.name, m.value)];
    } else {
      var rest := DumpMembers(j, i + 1, d);
      AgainSkip(c, next);
      AtAppend(c, next, [COMMA], Line(d) + rest);
      MembersStart(j, i + 1, d);
      SkipLine(c, next + 1, d, rest);
      MemberStep(c, e, depth, strtod, m.name, colon, m.value, next);
      DumpedMembers(c, next, j, i + 1, d, depth, strtod);
    }
  }

  /** A whole dumped document with the NUL behind it is read back. */
  lemma DumpRoundTrip(j: Json, strtod: Strtod)
    requires Dumpable(j) && Nesting(j) <= NESTING_LIMIT
    ensures Parse(Dump(j, 0) + [0], false, strtod) == Parsed(j, |Dump(j, 0)|)
  {
    var c := Dump(j, 0) + [0];
    DumpHead(j, 0);
    hide Dump, ParseValue, Nesting, Dumpable, Skip, SkipBom, InNumber;
    WholeAt(Dump(j, 0), 0);
    NoBom(c);
    AgainSkip(c, 0);
    assert !InNumber(0) by { EndOfNumber(); }
    hide At;
    DumpParses(c, 0, j, 0, 0, strtod, [0]);
  }

  lemma WholeAt(t: seq<byte>, end: byte)
    ensures At(t + [end], 0, t + [end])
  {
    assert (t + [end])[0..|t| + 1] == t + [end];
  }

  lemma NoBom(c: seq<byte>)
    requires c != [] && c[0] < 0x80
    ensures SkipBom(c) == 0
  {
    if |c| > 4 {
      assert c[..3][0] == c[0];
    }
  }

  lemma EndOfNumber()
    ensures !InNumber(0)
  {
  }
}
