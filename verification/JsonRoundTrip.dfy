/** Parsing what was printed gives the value back. */
module JsonRoundTrip {
  import opened Words
  import opened JsonString
  import opened Json
  import opened Slices

  // ----- white space -----

  /** White space up to a printable byte is skipped, no more and no less. */
  lemma {:induction false} SkipSpaces(c: seq<byte>, o: nat, n: nat)
    requires o + n < |c| && c[o + n] > 32 && forall i :: o <= i < o + n ==> c[i] <= 32
    ensures SkipTo(c, o) == o + n && Skip(c, o) == o + n
    decreases n
  {
    if n > 0 {
      SkipSpaces(c, o + 1, n - 1);
    }
  }

  // ----- numbers -----

  lemma {:induction false} DigitsRoundTrip(n: nat)
    ensures AllDigits(Digits(n)) && Digits(n) != [] && DigitsValue(Digits(n)) == n
  {
    if n < 10 {
      assert Digits(n)[..0] == [];
      assert DigitsValue([]) == 0;
    } else {
      DigitsRoundTrip(n / 10);
      var s := Digits(n);
      assert s[..|s| - 1] == Digits(n / 10);
    }
  }

  lemma {:induction false} DigitsLength(n: nat, k: nat)
    requires k >= 1 && n < Pow10(k)
    ensures |Digits(n)| <= k
    decreases k
  {
    if n >= 10 {
      DigitsLength(n / 10, k - 1);
    }
  }

  function Pow10(k: nat): nat { if k == 0 then 1 else 10 * Pow10(k - 1) }

  lemma DecimalRoundTrip(n: i32)
    ensures var d := Decimal(n);
      && IsDecimal(d) && DecimalValue(d) == n && |d| <= 11 && (d[0] == 0x2d || IsDigit(d[0]))
      && forall i :: 0 <= i < |d| ==> InNumber(d[i])
  {
    var k: int := n;
    var m := if k < 0 then -k else k;
    assert Pow10(10) == 10000000000 by {
      assert Pow10(5) == 100000 && Pow10(3) == 1000;
    }
    DigitsLength(m, 10);
    DigitsRoundTrip(m);
    var d := Decimal(n);
    if n < 0 {
      assert d[1..] == Digits(m);
    } else {
      assert IsDigit(d[0]);
    }
  }

  /** The run of number characters is the printed number when something else follows. */
  lemma {:induction false} RunOfText(c: seq<byte>, o: nat, d: seq<byte>, room: nat)
    requires At(c, o, d) && |d| <= room && (forall i :: 0 <= i < |d| ==> InNumber(d[i]))
    requires o + |d| < |c| && !InNumber(c[o + |d|])
    ensures NumberRun(c, o, room) == d
    decreases |d|
  {
    if d != [] {
      AtByte(c, o, d, 0);
      assert d == [d[0]] + d[1..];
      AtAppend(c, o, [d[0]], d[1..]);
      RunOfText(c, o + 1, d[1..], room - 1);
    }
  }

  lemma NumberParses(c: seq<byte>, o: nat, n: i32, strtod: Strtod)
    requires At(c, o, Decimal(n)) && o + |Decimal(n)| < |c| && !InNumber(c[o + |Decimal(n)|])
    ensures ParseNumber(c, o, strtod) == Parsed(Number(n), o + |Decimal(n)|)
  {
    DecimalRoundTrip(n);
    hide Decimal, IsDecimal, DecimalValue;
    RunOfText(c, o, Decimal(n), 63);
  }

  // ----- strings -----

  lemma {:induction false} CViewWhole(s: seq<byte>)
    requires NoNul(s)
    ensures CView(s) == s
  {
    if s != [] {
      CViewWhole(s[1..]);
    }
  }

  lemma StringParses(c: seq<byte>, o: nat, s: seq<byte>)
    requires NoNul(s) && At(c, o, Quoted(s))
    ensures c[o] == QUOTE && ParseString(c, o) == Parsed(s, o + |Quoted(s)|)
  {
    hide Escape, Size, Decode;
    AtAppend(c, o, [QUOTE] + Escape(s), [QUOTE]);
    AtAppend(c, o, [QUOTE], Escape(s));
    AtByte(c, o, [QUOTE], 0);
    AtByte(c, o + 1 + |Escape(s)|, [QUOTE], 0);
    EscapeDecodes(c, o + 1, s);
    CViewWhole(s);
  }

  // ----- values -----

  /** The first byte of a printed value tells what it is. */
  function FirstByte(j: Json): byte
    requires Plain(j)
  {
    match j
    case Null => 0x6e
    case False => 0x66
    case True => 0x74
    case Number(n) => if n < 0 then 0x2d else Digits(n)[0]
    case String(_) => QUOTE
    case Array(_) => LBRACKET
    case _ => LBRACE
  }

  lemma FirstOfText(j: Json, fmt: bool, depth: nat)
    requires Plain(j)
    ensures Text(j, fmt, depth) != [] && Text(j, fmt, depth)[0] == FirstByte(j)
    ensures 32 < FirstByte(j) < 0x80 && FirstByte(j) != RBRACKET
  {
    hide ItemsText, MembersText, Tabs, Escape;
    if j.Number? && j.n >= 0 {
      DigitsRoundTrip(j.n);
    }
  }

  lemma FirstAt(c: seq<byte>, o: nat, j: Json, fmt: bool, depth: nat)
    requires Plain(j) && At(c, o, Text(j, fmt, depth))
    ensures o < |c| && c[o] == FirstByte(j) > 32 && c[o] != RBRACKET
  {
    hide Text, At, FirstByte;
    FirstOfText(j, fmt, depth);
    AtByteIn(c, o, Text(j, fmt, depth));
  }

  /** What may follow a printed value. */
  predicate Ends(c: seq<byte>, o: nat) { o < |c| && !InNumber(c[o]) }

  /**
   * Round trip: a plain value printed at a position, formatted or not and at any indentation, parses back to itself
   * and the parser stops right after it, as long as the nesting limit is kept.
   */
  lemma {:induction false} TextParses(c: seq<byte>, o: nat, j: Json, fmt: bool, d: nat, depth: nat, strtod: Strtod)
    requires Plain(j) && At(c, o, Text(j, fmt, d)) && Ends(c, o + |Text(j, fmt, d)|)
    requires depth + Nesting(j) <= NESTING_LIMIT
    ensures ParseValue(c, o, depth, strtod) == Parsed(j, o + |Text(j, fmt, d)|)
    decreases j, 1, 0
  {
    FirstAt(c, o, j, fmt, d);
    match j
    case Null =>
    case False => assert c[o..o + 4][0] == 0x66;
    case True => NotWord(c, o, NULL_TEXT, 0x74); NotWord(c, o, FALSE_TEXT, 0x74);
    case Number(n) => LeafNumber(c, o, n, depth, strtod);
    case String(s) => LeafString(c, o, s, depth, strtod);
    case Array(_) => ArrayParses(c, o, j, fmt, d, depth, strtod);
    case Object(_) => ObjectParses(c, o, j, fmt, d, depth, strtod);
  }

  lemma NotWord(c: seq<byte>, o: nat, w: seq<byte>, b: byte)
    requires o < |c| && c[o] == b && w != [] && w[0] != b
    ensures !At(c, o, w)
  {
    if At(c, o, w) {
      AtByteIn(c, o, w);
    }
  }

  /** A value that starts with none of the letters n, f, t is none of the three words. */
  lemma NoWords(c: seq<byte>, o: nat)
    requires o < |c| && c[o] != 0x6e && c[o] != 0x66 && c[o] != 0x74
    ensures !At(c, o, NULL_TEXT) && !At(c, o, FALSE_TEXT) && !At(c, o, TRUE_TEXT)
  {
    NotWord(c, o, NULL_TEXT, c[o]);
    NotWord(c, o, FALSE_TEXT, c[o]);
    NotWord(c, o, TRUE_TEXT, c[o]);
  }

  lemma LeafNumber(c: seq<byte>, o: nat, n: i32, depth: nat, strtod: Strtod)
    requires At(c, o, Decimal(n)) && Ends(c, o + |Decimal(n)|)
    ensures ParseValue(c, o, depth, strtod) == Parsed(Number(n), o + |Decimal(n)|)
  {
    DecimalRoundTrip(n);
    AtByte(c, o, Decimal(n), 0);
    NoWords(c, o);
    hide Decimal;
    NumberParses(c, o, n, strtod);
  }

  lemma LeafString(c: seq<byte>, o: nat, s: seq<byte>, depth: nat, strtod: Strtod)
    requires NoNul(s) && At(c, o, Quoted(s))
    ensures ParseValue(c, o, depth, strtod) == Parsed(String(s), o + |Quoted(s)|)
  {
    StringParses(c, o, s);
    NoWords(c, o);
    hide Quoted, ParseString;
  }

  // ----- arrays -----

  lemma EmptyArray(c: seq<byte>, o: nat, j: Json, fmt: bool, d: nat, depth: nat, strtod: Strtod)
    requires j.Array? && j.items == [] && At(c, o, Text(j, fmt, d)) && depth < NESTING_LIMIT
    ensures ParseValue(c, o, depth, strtod) == Parsed(j, o + |Text(j, fmt, d)|)
  {
    assert Text(j, fmt, d) == [LBRACKET, RBRACKET] by { NoItems(j, fmt, d + 1); }
    AtByte(c, o, Text(j, fmt, d), 0);
    AtByte(c, o, Text(j, fmt, d), 1);
    NoWords(c, o);
    hide At, Text;
    SkipSpaces(c, o + 1, 0);
  }

  lemma {:induction false} ArrayParses(c: seq<byte>, o: nat, j: Json, fmt: bool, d: nat, depth: nat, strtod: Strtod)
    requires j.Array? && Plain(j) && At(c, o, Text(j, fmt, d)) && depth + Nesting(j) <= NESTING_LIMIT
    ensures ParseValue(c, o, depth, strtod) == Parsed(j, o + |Text(j, fmt, d)|)
    decreases j, 0, |j.items| + 1
  {
    hide Plain, Nesting, ItemsNesting, ItemsText, ParseItems, ParseValue, Text, At, Skip;
    NestingOfArray(j);
    if j.items == [] {
      EmptyArray(c, o, j, fmt, d, depth, strtod);
    } else {
      ArrayHead(c, o, j, fmt, d);
      SkipSpaces(c, o + 1, 0);
      ArrayIsItems(c, o, depth, strtod);
      ItemsParse(c, o, j, 0, fmt, d + 1, depth + 1, strtod);
      assert j.items[0..] == j.items;
    }
  }

  lemma NestingOfArray(j: Json)
    requires j.Array?
    ensures Nesting(j) == 1 + ItemsNesting(j, 0)
  {
  }

  lemma NoItems(j: Json, fmt: bool, d: nat)
    requires j.Array? && j.items == []
    ensures ItemsText(j, 0, fmt, d) == []
  {
  }

  lemma FirstItem(c: seq<byte>, o: nat, j: Json, fmt: bool, d: nat)
    requires j.Array? && Plain(j) && j.items != [] && At(c, o, ItemsText(j, 0, fmt, d))
    ensures o < |c| && c[o] > 32 && c[o] != RBRACKET
  {
    var rest := (if 1 < |j.items| then Separator(fmt) else []) + ItemsText(j, 1, fmt, d);
    assert ItemsText(j, 0, fmt, d) == Text(j.items[0], fmt, d) + rest;
    AtAppend(c, o, Text(j.items[0], fmt, d), rest);
    FirstAt(c, o, j.items[0], fmt, d);
  }

  function Cons<T>(v: T, r: Parsed<seq<T>>): Parsed<seq<T>>
  {
    match r
    case Failed => Failed
    case Parsed(rest, end) => Parsed([v] + rest, end)
  }

  /** One parsed item and the byte behind it. */
  lemma ItemStep(c: seq<byte>, e: nat, depth: nat, strtod: Strtod, v: Json, next: nat)
    requires e < |c| && ParseValue(c, Skip(c, e + 1), depth, strtod) == Parsed(v, next) && next < |c|
    ensures c[next] == RBRACKET ==> ParseItems(c, e, depth, strtod) == Parsed([v], next + 1)
    ensures c[next] == COMMA ==> ParseItems(c, e, depth, strtod) == Cons(v, ParseItems(c, next, depth, strtod))
  {
    hide ParseValue;
    if c[next] > 32 {
      SkipSpaces(c, next, 0);
    }
  }

  /** The text of the items from number `i` on, taken apart. */
  lemma ItemsSplit(j: Json, i: nat, fmt: bool, d: nat)
    requires j.Array? && i < |j.items|
    ensures var text := Text(j.items[i], fmt, d);
      ItemsText(j, i, fmt, d) == if i + 1 == |j.items| then text
        else text + (Separator(fmt) + ItemsText(j, i + 1, fmt, d))
  {
    hide Text;
    if i + 1 == |j.items| {
      NoMoreItems(j, fmt, d);
    }
  }

  lemma ItemsNestingSplit(j: Json, i: nat)
    requires j.Array? && i < |j.items|
    ensures Nesting(j.items[i]) <= ItemsNesting(j, i) && ItemsNesting(j, i + 1) <= ItemsNesting(j, i)
  {
  }

  /** A printed value followed by `tail` parses, and `tail` comes next. */
  lemma {:induction false} ValueThen(c: seq<byte>, o: nat, j: Json, fmt: bool, d: nat, depth: nat, strtod: Strtod,
                                     tail: seq<byte>)
    requires Plain(j) && depth + Nesting(j) <= NESTING_LIMIT && At(c, o, Text(j, fmt, d) + tail)
    requires tail != [] && !InNumber(tail[0])
    ensures var next := o + |Text(j, fmt, d)|;
      ParseValue(c, o, depth, strtod) == Parsed(j, next) && At(c, next, tail) && next < |c| && c[next] == tail[0]
    decreases j, 2, 0
  {
    hide Plain, Text, Nesting, ParseValue;
    AtAppend(c, o, Text(j, fmt, d), tail);
    AtByteIn(c, o + |Text(j, fmt, d)|, tail);
    hide At;
    TextParses(c, o, j, fmt, d, depth, strtod);
  }

  /** The items from number `i` on, printed after the byte at `e` and any white space. */
  lemma {:induction false} ItemsParse(c: seq<byte>, e: nat, j: Json, i: nat, fmt: bool, d: nat, depth: nat,
                                      strtod: Strtod)
    requires j.Array? && Plain(j) && i < |j.items| && e < |c|
    requires At(c, Skip(c, e + 1), ItemsText(j, i, fmt, d) + [RBRACKET]) && depth + ItemsNesting(j, i) <= NESTING_LIMIT
    ensures ParseItems(c, e, depth, strtod) == Parsed(j.items[i..], Skip(c, e + 1) + |ItemsText(j, i, fmt, d)| + 1)
    decreases j, 0, |j.items| - i, 1
  {
    hide Plain, Text, ItemsText, ItemsNesting, Nesting, ParseItems, ParseValue, Skip, At;
    var o, item, text := Skip(c, e + 1), j.items[i], Text(j.items[i], fmt, d);
    ItemsSplit(j, i, fmt, d);
    ItemsNestingSplit(j, i);
    PlainItem(j, i);
    if i + 1 == |j.items| {
      ValueThen(c, o, item, fmt, d, depth, strtod, [RBRACKET]);
      ItemStep(c, e, depth, strtod, item, o + |text|);
      assert j.items[i..] == [item];
    } else {
      var tail := Separator(fmt) + ItemsText(j, i + 1, fmt, d) + [RBRACKET];
      assert ItemsText(j, i, fmt, d) + [RBRACKET] == text + tail;
      MoreItems(c, e, j, i, fmt, d, depth, strtod, o + |text|, tail);
    }
  }

  /** An item that is not the last: the separator, then the items behind it. */
  lemma {:induction false} MoreItems(c: seq<byte>, e: nat, j: Json, i: nat, fmt: bool, d: nat, depth: nat,
                                     strtod: Strtod, next: nat, tail: seq<byte>)
    requires j.Array? && Plain(j) && i + 1 < |j.items| && e < |c| && depth + ItemsNesting(j, i) <= NESTING_LIMIT
    requires tail == Separator(fmt) + ItemsText(j, i + 1, fmt, d) + [RBRACKET]
    requires At(c, Skip(c, e + 1), Text(j.items[i], fmt, d) + tail)
    requires next == Skip(c, e + 1) + |Text(j.items[i], fmt, d)|
    ensures ParseItems(c, e, depth, strtod) == Parsed(j.items[i..], next + |tail|)
    decreases j, 0, |j.items| - i, 0
  {
    hide Plain, Text, ItemsText, ItemsNesting, Nesting, ParseItems, ParseValue, Skip, At;
    ItemsNestingSplit(j, i);
    PlainItem(j, i);
    ValueThen(c, Skip(c, e + 1), j.items[i], fmt, d, depth, strtod, tail);
    AfterComma(c, next, j, i + 1, fmt, d);
    assert tail[0] == COMMA;
    hide InNumber, Separator;
    ItemStep(c, e, depth, strtod, j.items[i], next);
    ItemsParse(c, next, j, i + 1, fmt, d, depth, strtod);
    assert |tail| == |Separator(fmt)| + |ItemsText(j, i + 1, fmt, d)| + 1;
    FrontItem(j.items, i);
  }

  lemma PlainItem(j: Json, i: nat)
    requires j.Array? && Plain(j) && i < |j.items|
    ensures Plain(j.items[i])
  {
  }

  lemma FrontItem(items: seq<Json>, i: nat)
    requires i < |items|
    ensures items[i..] == [items[i]] + items[i + 1..]
  {
  }

  lemma NoMoreItems(j: Json, fmt: bool, d: nat)
    requires j.Array?
    ensures ItemsText(j, |j.items|, fmt, d) == []
  {
  }

  lemma CommaRegroup(a: seq<byte>, b: seq<byte>, c: seq<byte>, d: seq<byte>)
    ensures (a + b) + c + d == a + (b + (c + d))
  {
  }

  lemma ItemsHead(j: Json, i: nat, fmt: bool, d: nat)
    requires j.Array? && Plain(j) && i < |j.items|
    ensures ItemsText(j, i, fmt, d) != [] && ItemsText(j, i, fmt, d)[0] > 32
  {
    hide Text, ItemsText, FirstByte;
    PlainItem(j, i);
    ItemsSplit(j, i, fmt, d);
    FirstOfText(j.items[i], fmt, d);
  }

  lemma BehindComma(c: seq<byte>, o: nat, space: seq<byte>, rest: seq<byte>)
    requires At(c, o, [COMMA] + (space + rest)) && Blank(space) && rest != [] && rest[0] > 32
    ensures o < |c| && Skip(c, o + 1) == o + 1 + |space| && At(c, Skip(c, o + 1), rest)
  {
    hide At, Skip, Blank;
    AtAppend(c, o, [COMMA], space + rest);
    AtByteIn(c, o, [COMMA]);
    SkipBlank(c, o + 1, space, rest);
  }

  /** Behind the separator the next item starts. */
  lemma AfterComma(c: seq<byte>, o: nat, j: Json, i: nat, fmt: bool, d: nat)
    requires j.Array? && Plain(j) && i < |j.items|
    requires At(c, o, Separator(fmt) + ItemsText(j, i, fmt, d) + [RBRACKET])
    ensures o < |c| && Skip(c, o + 1) == o + |Separator(fmt)|
    ensures At(c, Skip(c, o + 1), ItemsText(j, i, fmt, d) + [RBRACKET])
  {
    var space: seq<byte> := if fmt then [SPACE] else [];
    assert Separator(fmt) == [COMMA] + space && Blank(space);
    ItemsHead(j, i, fmt, d);
    hide Plain, ItemsText, Separator, At, Skip, Blank;
    var text := ItemsText(j, i, fmt, d);
    CommaRegroup([COMMA], space, text, [RBRACKET]);
    BehindComma(c, o, space, text + [RBRACKET]);
  }

  // ----- objects -----

  lemma {:induction false} TabsBlank(n: nat)
    ensures forall i :: 0 <= i < n ==> Tabs(n)[i] == TAB
  {
    if n > 0 {
      TabsBlank(n - 1);
    }
  }

  predicate Blank(s: seq<byte>) { forall i :: 0 <= i < |s| ==> s[i] <= 32 }

  /** White space before a text that starts with a printable byte is skipped. */
  lemma SkipBlank(c: seq<byte>, o: nat, blank: seq<byte>, rest: seq<byte>)
    requires At(c, o, blank + rest) && Blank(blank) && rest != [] && rest[0] > 32
    ensures Skip(c, o) == o + |blank| && At(c, Skip(c, o), rest)
  {
    AtAppend(c, o, blank, rest);
    AtByte(c, o + |blank|, rest, 0);
    forall i | o <= i < o + |blank|
      ensures c[i] <= 32
    {
      AtByte(c, o, blank, i - o);
    }
    SkipSpaces(c, o, |blank|);
  }

  /** White space in front of each member, and in front of the closing brace. */
  function Indent(fmt: bool, n: nat): (s: seq<byte>)
    ensures Blank(s)
  {
    TabsBlank(n);
    if fmt then Tabs(n) else []
  }

  function Break(fmt: bool): (s: seq<byte>)
    ensures Blank(s)
  {
    if fmt then [NEWLINE] else []
  }

  function Gap(fmt: bool): (s: seq<byte>)
    ensures Blank(s)
  {
    if fmt then [TAB] else []
  }

  /** The members from number `i` on without the white space before the first, up to and with the closing brace. */
  function MembersTail(j: Json, i: nat, fmt: bool, d: nat): seq<byte>
    requires j.Object? && i < |j.members| && d > 0
    decreases |j.members| - i, 1
  {
    var m := j.members[i];
    Quoted(m.name) + ([COLON] + (Gap(fmt) + (Text(m.value, fmt, d) + AfterValue(j, i, fmt, d))))
  }

  function AfterValue(j: Json, i: nat, fmt: bool, d: nat): seq<byte>
    requires j.Object? && i < |j.members| && d > 0
    decreases |j.members| - i, 0
  {
    if i + 1 == |j.members| then Break(fmt) + Indent(fmt, d - 1) + [RBRACE]
    else [COMMA] + (Break(fmt) + Indent(fmt, d) + MembersTail(j, i + 1, fmt, d))
  }

  lemma HeaderTrailer(name: seq<byte>, fmt: bool, d: nat, last: bool)
    ensures Header(name, fmt, d) == Indent(fmt, d) + Quoted(name) + [COLON] + Gap(fmt)
    ensures Trailer(fmt, last) == (if last then [] else [COMMA]) + Break(fmt)
  {
    hide Quoted;
  }

  lemma RegroupLast(a: seq<byte>, q: seq<byte>, k: seq<byte>, g: seq<byte>, v: seq<byte>, r: seq<byte>, x: seq<byte>,
                    z: seq<byte>)
    ensures a + q + k + g + v + r + x + z == a + (q + (k + (g + (v + (r + x + z)))))
  {
  }

  lemma TailHead(j: Json, i: nat, fmt: bool, d: nat)
    requires j.Object? && i < |j.members| && d > 0
    ensures MembersTail(j, i, fmt, d) != [] && MembersTail(j, i, fmt, d)[0] == QUOTE
  {
    hide Text, AfterValue, Gap, Escape;
    assert Quoted(j.members[i].name)[0] == QUOTE;
    hide Quoted;
  }

  lemma MembersTextSplit(j: Json, i: nat, fmt: bool, d: nat)
    requires j.Object? && i < |j.members|
    ensures var m := j.members[i];
      MembersText(j, i, fmt, d) ==
        Header(m.name, fmt, d) + Text(m.value, fmt, d) + Trailer(fmt, i + 1 == |j.members|) +
          MembersText(j, i + 1, fmt, d)
  {
    hide Header, Text, Trailer;
  }

  /** What follows a member's value, up to and with the closing brace. */
  lemma AfterValueIs(j: Json, i: nat, fmt: bool, d: nat, rest: seq<byte>)
    requires j.Object? && i < |j.members| && d > 0
    requires if i + 1 == |j.members| then rest == []
      else rest + Indent(fmt, d - 1) + [RBRACE] == Indent(fmt, d) + MembersTail(j, i + 1, fmt, d)
    ensures Trailer(fmt, i + 1 == |j.members|) + rest + Indent(fmt, d - 1) + [RBRACE] == AfterValue(j, i, fmt, d)
  {
    hide MembersTail, Indent, Break;
    var last := i + 1 == |j.members|;
    HeaderTrailer([], fmt, d, last);
    hide Trailer;
    AfterRegroup(Trailer(fmt, last), rest, Indent(fmt, d - 1), [RBRACE]);
    if !last {
      AfterRegroup([COMMA], Break(fmt), Indent(fmt, d), MembersTail(j, i + 1, fmt, d));
    }
  }

  lemma {:induction false} MembersRegroup(j: Json, i: nat, fmt: bool, d: nat)
    requires j.Object? && i < |j.members| && d > 0
    ensures MembersText(j, i, fmt, d) + Indent(fmt, d - 1) + [RBRACE] == Indent(fmt, d) + MembersTail(j, i, fmt, d)
    decreases |j.members| - i
  {
    var m, last := j.members[i], i + 1 == |j.members|;
    var rest, value := MembersText(j, i + 1, fmt, d), Text(m.value, fmt, d);
    var after := Trailer(fmt, last) + rest;
    HeaderTrailer(m.name, fmt, d, last);
    MembersTextSplit(j, i, fmt, d);
    if last {
      NoMoreMembers(j, fmt, d);
    } else {
      MembersRegroup(j, i + 1, fmt, d);
    }
    AfterValueIs(j, i, fmt, d, rest);
    hide MembersText, Header, Trailer, Indent, Break, Gap, Text, Quoted, AfterValue;
    assert MembersTail(j, i, fmt, d) == Quoted(m.name) + ([COLON] + (Gap(fmt) + (value + AfterValue(j, i, fmt, d))));
    hide MembersTail;
    RegroupLast(Indent(fmt, d), Quoted(m.name), [COLON], Gap(fmt), value, after, Indent(fmt, d - 1), [RBRACE]);
    TrailerRegroup(Header(m.name, fmt, d) + value, Trailer(fmt, last), rest);
  }

  lemma AfterRegroup(a: seq<byte>, b: seq<byte>, c: seq<byte>, d: seq<byte>)
    ensures a + b + c + d == a + (b + c + d) && a + b + c + d == (a + b) + (c + d)
    ensures a + (b + c + d) == a + (b + (c + d))
  {
  }

  lemma TrailerRegroup(a: seq<byte>, b: seq<byte>, c: seq<byte>)
    ensures a + b + c == a + (b + c)
  {
  }

  lemma NoMoreMembers(j: Json, fmt: bool, d: nat)
    requires j.Object?
    ensures MembersText(j, |j.members|, fmt, d) == []
  {
  }

  /** One parsed member: its name, its value and the byte behind it. */
  lemma MemberStep(c: seq<byte>, e: nat, depth: nat, strtod: Strtod, name: seq<byte>, colon: nat, v: Json, next: nat)
    requires e < |c| && ParseString(c, Skip(c, e + 1)) == Parsed(name, colon) && colon < |c| && c[colon] == COLON
    requires ParseValue(c, Skip(c, colon + 1), depth, strtod) == Parsed(v, next) && Skip(c, next) < |c|
    ensures var o := Skip(c, next);
      && (c[o] == RBRACE ==> ParseMembers(c, e, depth, strtod) == Parsed([Member(name, v)], o + 1))
      && (c[o] == COMMA ==>
          ParseMembers(c, e, depth, strtod) == Cons(Member(name, v), ParseMembers(c, o, depth, strtod)))
  {
    hide ParseValue, ParseString;
    SkipSpaces(c, colon, 0);
  }

  lemma PlainMember(j: Json, i: nat)
    requires j.Object? && Plain(j) && i < |j.members|
    ensures NoNul(j.members[i].name) && Plain(j.members[i].value)
  {
  }

  lemma MembersNestingSplit(j: Json, i: nat)
    requires j.Object? && i < |j.members|
    ensures Nesting(j.members[i].value) <= MembersNesting(j, i) && MembersNesting(j, i + 1) <= MembersNesting(j, i)
  {
  }

  lemma FrontMember(ms: seq<Member>, i: nat)
    requires i < |ms|
    ensures ms[i..] == [Member(ms[i].name, ms[i].value)] + ms[i + 1..]
  {
  }

  /** What follows a member's value: no number character. */
  lemma AfterValueHead(j: Json, i: nat, fmt: bool, d: nat)
    requires j.Object? && i < |j.members| && d > 0
    ensures AfterValue(j, i, fmt, d) != [] && !InNumber(AfterValue(j, i, fmt, d)[0])
  {
    hide MembersTail;
    if i + 1 == |j.members| && !fmt {
      assert AfterValue(j, i, fmt, d) == [RBRACE];
    }
  }

  /** The name and the colon parse, and the value starts behind them. */
  lemma MemberHead(c: seq<byte>, e: nat, j: Json, i: nat, fmt: bool, d: nat) returns (colon: nat)
    requires j.Object? && Plain(j) && i < |j.members| && e < |c| && d > 0
    requires At(c, Skip(c, e + 1), MembersTail(j, i, fmt, d))
    ensures ParseString(c, Skip(c, e + 1)) == Parsed(j.members[i].name, colon) && colon < |c| && c[colon] == COLON
    ensures At(c, Skip(c, colon + 1), Text(j.members[i].value, fmt, d) + AfterValue(j, i, fmt, d))
    ensures At(c, Skip(c, colon + 1), Text(j.members[i].value, fmt, d))
    ensures Skip(c, colon + 1) + |Text(j.members[i].value, fmt, d)| + |AfterValue(j, i, fmt, d)|
      == Skip(c, e + 1) + |MembersTail(j, i, fmt, d)|
  {
    hide Plain, Text, ParseString, Skip, Quoted, At, AfterValue, Gap;
    var o, m, after := Skip(c, e + 1), j.members[i], AfterValue(j, i, fmt, d);
    var value := Text(m.value, fmt, d) + after;
    var spaced := Gap(fmt) + value;
    PlainMember(j, i);
    assert MembersTail(j, i, fmt, d) == Quoted(m.name) + ([COLON] + spaced);
    AtAppend(c, o, Quoted(m.name), [COLON] + spaced);
    StringParses(c, o, m.name);
    colon := o + |Quoted(m.name)|;
    AtAppend(c, colon, [COLON], spaced);
    AtByteIn(c, colon, [COLON]);
    FirstOfText(m.value, fmt, d);
    SkipBlank(c, colon + 1, Gap(fmt), value);
    AtAppend(c, Skip(c, colon + 1), Text(m.value, fmt, d), after);
  }

  /** The name and the colon, then the value: where each starts. */
  lemma {:induction false} MemberParses(c: seq<byte>, e: nat, j: Json, i: nat, fmt: bool, d: nat, depth: nat,
                                        strtod: Strtod)
    returns (colon: nat, next: nat)
    requires j.Object? && Plain(j) && i < |j.members| && e < |c| && d > 0
    requires At(c, Skip(c, e + 1), MembersTail(j, i, fmt, d)) && depth + Nesting(j.members[i].value) <= NESTING_LIMIT
    ensures var m := j.members[i];
      && ParseString(c, Skip(c, e + 1)) == Parsed(m.name, colon) && colon < |c| && c[colon] == COLON
      && ParseValue(c, Skip(c, colon + 1), depth, strtod) == Parsed(m.value, next)
    ensures At(c, next, AfterValue(j, i, fmt, d))
    ensures next + |AfterValue(j, i, fmt, d)| == Skip(c, e + 1) + |MembersTail(j, i, fmt, d)|
    decreases j, 0, |j.members| - i, 0
  {
    hide Plain, Text, Nesting, ParseValue, ParseString, Skip, At, AfterValue, InNumber, MembersTail;
    var m := j.members[i];
    PlainMember(j, i);
    colon := MemberHead(c, e, j, i, fmt, d);
    AfterValueHead(j, i, fmt, d);
    next := Skip(c, colon + 1) + |Text(m.value, fmt, d)|;
    ValueThen(c, Skip(c, colon + 1), m.value, fmt, d, depth, strtod, AfterValue(j, i, fmt, d));
  }

  /** Behind the last value: white space and the brace. */
  lemma AfterLast(c: seq<byte>, next: nat, j: Json, i: nat, fmt: bool, d: nat)
    requires j.Object? && i + 1 == |j.members| && d > 0 && At(c, next, AfterValue(j, i, fmt, d))
    ensures Skip(c, next) < |c| && c[Skip(c, next)] == RBRACE && Skip(c, next) + 1 == next + |AfterValue(j, i, fmt, d)|
  {
    assert AfterValue(j, i, fmt, d) == Break(fmt) + Indent(fmt, d - 1) + [RBRACE];
    hide Skip, At, Indent, Break, AfterValue;
    BlankAppend(Break(fmt), Indent(fmt, d - 1));
    SkipBlank(c, next, Break(fmt) + Indent(fmt, d - 1), [RBRACE]);
    AtByteIn(c, Skip(c, next), [RBRACE]);
  }

  /** Behind a value that is not the last: the comma, white space, the next member. */
  lemma AfterOther(c: seq<byte>, next: nat, j: Json, i: nat, fmt: bool, d: nat)
    requires j.Object? && i + 1 < |j.members| && d > 0 && At(c, next, AfterValue(j, i, fmt, d))
    ensures next < |c| && Skip(c, next) == next && c[next] == COMMA
    ensures At(c, Skip(c, next + 1), MembersTail(j, i + 1, fmt, d))
    ensures Skip(c, next + 1) + |MembersTail(j, i + 1, fmt, d)| == next + |AfterValue(j, i, fmt, d)|
  {
    hide MembersTail, Skip, At;
    var tail, blank := MembersTail(j, i + 1, fmt, d), Break(fmt) + Indent(fmt, d);
    assert AfterValue(j, i, fmt, d) == [COMMA] + (blank + tail);
    TailHead(j, i + 1, fmt, d);
    BlankAppend(Break(fmt), Indent(fmt, d));
    hide Indent, Break, AfterValue;
    AtAppend(c, next, [COMMA], blank + tail);
    AtByteIn(c, next, [COMMA]);
    SkipSpaces(c, next, 0);
    SkipBlank(c, next + 1, blank, tail);
  }

  /** The members from number `i` on, printed after the byte at `e` and any white space. */
  lemma {:induction false} MembersParse(c: seq<byte>, e: nat, j: Json, i: nat, fmt: bool, d: nat, depth: nat,
                                        strtod: Strtod)
    requires j.Object? && Plain(j) && i < |j.members| && e < |c| && d > 0
    requires At(c, Skip(c, e + 1), MembersTail(j, i, fmt, d)) && depth + MembersNesting(j, i) <= NESTING_LIMIT
    ensures ParseMembers(c, e, depth, strtod) == Parsed(j.members[i..], Skip(c, e + 1) + |MembersTail(j, i, fmt, d)|)
    decreases j, 0, |j.members| - i, 1
  {
    hide Plain, Nesting, MembersNesting, ParseValue, ParseString, ParseMembers, Skip, At, AfterValue, MembersTail;
    MembersNestingSplit(j, i);
    var colon, next := MemberParses(c, e, j, i, fmt, d, depth, strtod);
    var m := j.members[i];
    FrontMember(j.members, i);
    if i + 1 == |j.members| {
      AfterLast(c, next, j, i, fmt, d);
      MemberStep(c, e, depth, strtod, m.name, colon, m.value, next);
      assert j.members[i..] == [Member(m.name, m.value)];
    } else {
      AfterOther(c, next, j, i, fmt, d);
      MemberStep(c, e, depth, strtod, m.name, colon, m.value, next);
      MembersParse(c, next, j, i + 1, fmt, d, depth, strtod);
    }
  }

  lemma BlankAppend(a: seq<byte>, b: seq<byte>)
    requires Blank(a) && Blank(b)
    ensures Blank(a + b)
  {
  }

  lemma NestingOfObject(j: Json)
    requires j.Object?
    ensures Nesting(j) == 1 + MembersNesting(j, 0)
  {
  }

  /** The text of an object, taken apart at the brace and the white space behind it. */
  lemma ObjectText(j: Json, fmt: bool, d: nat)
    requires j.Object?
    ensures Text(j, fmt, d) == [LBRACE] + (if j.members == [] then Break(fmt) + Indent(fmt, d) + [RBRACE]
      else Break(fmt) + Indent(fmt, d + 1) + MembersTail(j, 0, fmt, d + 1))
  {
    var body := MembersText(j, 0, fmt, d + 1);
    assert Text(j, fmt, d) == [LBRACE] + Break(fmt) + body + Indent(fmt, d) + [RBRACE];
    if j.members == [] {
      assert body == [] by { NoMoreMembers(j, fmt, d + 1); }
    } else {
      MembersRegroup(j, 0, fmt, d + 1);
    }
    hide Text, MembersText, Break, Indent, MembersTail;
    ObjectRegroup([LBRACE], Break(fmt), body, Indent(fmt, d), [RBRACE]);
    if j.members != [] {
      TrailerRegroup(Break(fmt), Indent(fmt, d + 1), MembersTail(j, 0, fmt, d + 1));
    }
  }

  lemma ObjectRegroup(a: seq<byte>, b: seq<byte>, c: seq<byte>, d: seq<byte>, e: seq<byte>)
    ensures a + b + c + d + e == a + (b + (c + d + e))
    ensures c == [] ==> a + b + c + d + e == a + (b + d + e)
  {
  }

  lemma EmptyObject(c: seq<byte>, o: nat, j: Json, fmt: bool, d: nat, depth: nat, strtod: Strtod)
    requires j.Object? && j.members == [] && At(c, o, Text(j, fmt, d)) && depth < NESTING_LIMIT
    ensures ParseValue(c, o, depth, strtod) == Parsed(j, o + |Text(j, fmt, d)|)
  {
    hide Text, At, Break, Indent;
    ObjectText(j, fmt, d);
    var blank := Break(fmt) + Indent(fmt, d);
    AtAppend(c, o, [LBRACE], blank + [RBRACE]);
    AtByteIn(c, o, [LBRACE]);
    BlankAppend(Break(fmt), Indent(fmt, d));
    SkipBlank(c, o + 1, blank, [RBRACE]);
    AtByteIn(c, Skip(c, o + 1), [RBRACE]);
    NoWords(c, o);
  }

  /** A nonempty object is its members, parsed from the byte before the first. */
  lemma ObjectIsMembers(c: seq<byte>, o: nat, depth: nat, strtod: Strtod)
    requires o < |c| && c[o] == LBRACE && depth < NESTING_LIMIT
    requires Skip(c, o + 1) < |c| && o < Skip(c, o + 1) && c[Skip(c, o + 1)] == QUOTE
    ensures ParseValue(c, o, depth, strtod) ==
      match ParseMembers(c, Skip(c, o + 1) - 1, depth + 1,
        strtod) case Failed => Failed case Parsed(ms, next) => Parsed(Object(ms), next)
    ensures Skip(c, Skip(c, o + 1)) == Skip(c, o + 1)
  {
    hide At, ParseMembers;
    NoWords(c, o);
    SkipSpaces(c, Skip(c, o + 1), 0);
  }

  lemma {:induction false} ObjectParses(c: seq<byte>, o: nat, j: Json, fmt: bool, d: nat, depth: nat, strtod: Strtod)
    requires j.Object? && Plain(j) && At(c, o, Text(j, fmt, d)) && depth + Nesting(j) <= NESTING_LIMIT
    ensures ParseValue(c, o, depth, strtod) == Parsed(j, o + |Text(j, fmt, d)|)
    decreases j, 0, |j.members| + 1
  {
    hide Plain, Nesting, MembersNesting, ParseMembers, ParseValue, Text, At, MembersTail, Skip;
    NestingOfObject(j);
    if j.members == [] {
      EmptyObject(c, o, j, fmt, d, depth, strtod);
    } else {
      ObjectHead(c, o, j, fmt, d);
      ObjectIsMembers(c, o, depth, strtod);
      MembersParse(c, Skip(c, o + 1) - 1, j, 0, fmt, d + 1, depth + 1, strtod);
      assert j.members[0..] == j.members;
    }
  }

  // ----- the nesting limit -----

  /** A printed value nested beyond the limit is refused. */
  lemma {:induction false} TooDeep(c: seq<byte>, o: nat, j: Json, fmt: bool, d: nat, depth: nat, strtod: Strtod)
    requires Plain(j) && At(c, o, Text(j, fmt, d)) && depth <= NESTING_LIMIT < depth + Nesting(j)
    ensures ParseValue(c, o, depth, strtod) == Failed
    decreases j, 1, 0
  {
    FirstAt(c, o, j, fmt, d);
    assert j.Array? || j.Object?;
    hide Plain, At, Text, ParseValue, Nesting;
    if j.Array? {
      ArrayTooDeep(c, o, j, fmt, d, depth, strtod);
    } else {
      ObjectTooDeep(c, o, j, fmt, d, depth, strtod);
    }
  }

  lemma {:induction false} ArrayTooDeep(c: seq<byte>, o: nat, j: Json, fmt: bool, d: nat, depth: nat, strtod: Strtod)
    requires j.Array? && Plain(j) && At(c, o, Text(j, fmt, d)) && depth <= NESTING_LIMIT < depth + Nesting(j)
    requires o < |c| && c[o] == LBRACKET
    ensures ParseValue(c, o, depth, strtod) == Failed
    decreases j, 0, |j.items| + 1
  {
    hide Plain, At, Text, ParseValue, ParseItems, Skip, Nesting, ItemsNesting;
    NestingOfArray(j);
    if depth >= NESTING_LIMIT {
      AtLimit(c, o, depth, strtod);
    } else {
      ArrayHead(c, o, j, fmt, d);
      NoItemsNesting(j);
      SkipSpaces(c, o + 1, 0);
      ItemsTooDeep(c, o, j, 0, fmt, d + 1, depth + 1, strtod);
      ArrayIsItems(c, o, depth, strtod);
    }
  }

  lemma {:induction false} ObjectTooDeep(c: seq<byte>, o: nat, j: Json, fmt: bool, d: nat, depth: nat, strtod: Strtod)
    requires j.Object? && Plain(j) && At(c, o, Text(j, fmt, d)) && depth <= NESTING_LIMIT < depth + Nesting(j)
    requires o < |c| && c[o] == LBRACE
    ensures ParseValue(c, o, depth, strtod) == Failed
    decreases j, 0, |j.members| + 1
  {
    hide Plain, At, Text, ParseValue, ParseMembers, Skip, Nesting, MembersNesting, MembersTail;
    NestingOfObject(j);
    if depth >= NESTING_LIMIT {
      AtLimit(c, o, depth, strtod);
    } else {
      NoMembersNesting(j);
      ObjectHead(c, o, j, fmt, d);
      ObjectIsMembers(c, o, depth, strtod);
      MembersTooDeep(c, Skip(c, o + 1) - 1, j, 0, fmt, d + 1, depth + 1, strtod);
    }
  }

  lemma AtLimit(c: seq<byte>, o: nat, depth: nat, strtod: Strtod)
    requires o < |c| && (c[o] == LBRACKET || c[o] == LBRACE) && depth >= NESTING_LIMIT
    ensures ParseValue(c, o, depth, strtod) == Failed
  {
    NoWords(c, o);
    hide At;
  }

  /** A nonempty array is its items, parsed from the bracket. */
  lemma ArrayIsItems(c: seq<byte>, o: nat, depth: nat, strtod: Strtod)
    requires o + 1 < |c| && c[o] == LBRACKET && depth < NESTING_LIMIT && Skip(c, o + 1) == o + 1 && c[o + 1] != RBRACKET
    ensures ParseValue(c, o, depth, strtod) ==
      match ParseItems(c, o, depth + 1, strtod)
      case Failed => Failed
      case Parsed(items, next) => Parsed(Array(items), next)
  {
    NoWords(c, o);
    hide At, ParseItems;
  }

  lemma NoItemsNesting(j: Json)
    requires j.Array?
    ensures j.items == [] ==> ItemsNesting(j, 0) == 0
  {
  }

  lemma NoMembersNesting(j: Json)
    requires j.Object?
    ensures j.members == [] ==> MembersNesting(j, 0) == 0
  {
  }

  /** Where the items of a printed array start. */
  lemma ArrayHead(c: seq<byte>, o: nat, j: Json, fmt: bool, d: nat)
    requires j.Array? && Plain(j) && At(c, o, Text(j, fmt, d))
    ensures j.items != [] ==> o + 1 < |c| && c[o + 1] > 32 && c[o + 1] != RBRACKET
    ensures o < |c| && c[o] == LBRACKET && At(c, o + 1, ItemsText(j, 0, fmt, d + 1) + [RBRACKET])
    ensures |Text(j, fmt, d)| == |ItemsText(j, 0, fmt, d + 1)| + 2
  {
    hide ItemsText, Plain;
    var body := ItemsText(j, 0, fmt, d + 1);
    assert Text(j, fmt, d) == [LBRACKET] + (body + [RBRACKET]);
    AtAppend(c, o, [LBRACKET], body + [RBRACKET]);
    AtByteIn(c, o, [LBRACKET]);
    AtAppend(c, o + 1, body, [RBRACKET]);
    hide At, Text;
    if j.items != [] {
      FirstItem(c, o + 1, j, fmt, d + 1);
    }
  }

  /** Where the members of a printed object start. */
  lemma ObjectHead(c: seq<byte>, o: nat, j: Json, fmt: bool, d: nat)
    requires j.Object? && j.members != [] && At(c, o, Text(j, fmt, d))
    ensures o < |c| && c[o] == LBRACE && o < Skip(c, o + 1) < |c| && c[Skip(c, o + 1)] == QUOTE
    ensures At(c, Skip(c, o + 1), MembersTail(j, 0, fmt, d + 1))
    ensures Skip(c, o + 1) + |MembersTail(j, 0, fmt, d + 1)| == o + |Text(j, fmt, d)|
  {
    hide MembersTail, At, Skip, Text, Break, Indent;
    var tail, blank := MembersTail(j, 0, fmt, d + 1), Break(fmt) + Indent(fmt, d + 1);
    ObjectText(j, fmt, d);
    TailHead(j, 0, fmt, d + 1);
    AtAppend(c, o, [LBRACE], blank + tail);
    AtByteIn(c, o, [LBRACE]);
    BlankAppend(Break(fmt), Indent(fmt, d + 1));
    SkipBlank(c, o + 1, blank, tail);
    AtByteIn(c, Skip(c, o + 1), tail);
  }

  lemma DeepestItem(j: Json, i: nat)
    requires j.Array? && i < |j.items|
    ensures ItemsNesting(j, i) == Max(Nesting(j.items[i]), ItemsNesting(j, i + 1))
    ensures i + 1 == |j.items| ==> ItemsNesting(j, i + 1) == 0
  {
    hide Nesting;
  }

  /** The items from number `i` on: the first, and what follows it up to the bracket. */
  lemma TextAndTail(j: Json, i: nat, fmt: bool, d: nat) returns (tail: seq<byte>)
    requires j.Array? && i < |j.items|
    ensures tail == if i + 1 == |j.items| then [RBRACKET] else Separator(fmt) + ItemsText(j, i + 1, fmt, d) + [RBRACKET]
    ensures ItemsText(j, i, fmt, d) + [RBRACKET] == Text(j.items[i], fmt, d) + tail
  {
    hide Text, ItemsText, Separator;
    ItemsSplit(j, i, fmt, d);
    tail := if i + 1 == |j.items| then [RBRACKET] else Separator(fmt) + ItemsText(j, i + 1, fmt, d) + [RBRACKET];
  }

  lemma ItemFails(c: seq<byte>, e: nat, depth: nat, strtod: Strtod)
    requires e < |c| && ParseValue(c, Skip(c, e + 1), depth, strtod) == Failed
    ensures ParseItems(c, e, depth, strtod) == Failed
  {
    hide ParseValue, Skip;
  }

  lemma {:induction false} ItemsTooDeep(c: seq<byte>, e: nat, j: Json, i: nat, fmt: bool, d: nat, depth: nat,
                                        strtod: Strtod)
    requires j.Array? && Plain(j) && i < |j.items| && e < |c|
    requires At(c, Skip(c, e + 1), ItemsText(j, i, fmt, d) + [RBRACKET])
    requires depth <= NESTING_LIMIT < depth + ItemsNesting(j, i)
    ensures ParseItems(c, e, depth, strtod) == Failed
    decreases j, 0, |j.items| - i
  {
    hide Plain, Text, ItemsText, Nesting, ItemsNesting, ParseValue, ParseItems, Skip, At;
    var o, item, text := Skip(c, e + 1), j.items[i], Text(j.items[i], fmt, d);
    PlainItem(j, i);
    DeepestItem(j, i);
    var tail := TextAndTail(j, i, fmt, d);
    if depth + Nesting(item) > NESTING_LIMIT {
      AtAppend(c, o, text, tail);
      TooDeep(c, o, item, fmt, d, depth, strtod);
      ItemFails(c, e, depth, strtod);
    } else {
      ValueThen(c, o, item, fmt, d, depth, strtod, tail);
      AfterComma(c, o + |text|, j, i + 1, fmt, d);
      ItemsTooDeep(c, o + |text|, j, i + 1, fmt, d, depth, strtod);
      ItemStep(c, e, depth, strtod, item, o + |text|);
    }
  }

  lemma {:induction false} MembersTooDeep(c: seq<byte>, e: nat, j: Json, i: nat, fmt: bool, d: nat, depth: nat,
                                          strtod: Strtod)
    requires j.Object? && Plain(j) && i < |j.members| && e < |c| && d > 0
    requires At(c, Skip(c, e + 1), MembersTail(j, i, fmt, d)) && depth <= NESTING_LIMIT < depth + MembersNesting(j, i)
    ensures ParseMembers(c, e, depth, strtod) == Failed
    decreases j, 0, |j.members| - i
  {
    hide Plain, Text, Nesting, ParseValue, ParseString, Skip, At, MembersTail, AfterValue;
    var m := j.members[i];
    PlainMember(j, i);
    if depth + Nesting(m.value) > NESTING_LIMIT {
      var colon := MemberHead(c, e, j, i, fmt, d);
      TooDeep(c, Skip(c, colon + 1), m.value, fmt, d, depth, strtod);
      SkipSpaces(c, colon, 0);
    } else {
      assert i + 1 < |j.members|;
      var colon, next := MemberParses(c, e, j, i, fmt, d, depth, strtod);
      AfterOther(c, next, j, i, fmt, d);
      MembersTooDeep(c, next, j, i + 1, fmt, d, depth, strtod);
      MemberStep(c, e, depth, strtod, m.name, colon, m.value, next);
    }
  }

  /**
   * JSON round trip, exactly: a plain value, printed formatted or not, parses back to itself, with or without the
   * demand that nothing follows, if and only if it is nested at most 1000 deep.
   */
  lemma PrintParse(j: Json, fmt: bool, requireNull: bool, strtod: Strtod)
    requires Plain(j)
    ensures Parse(Text(j, fmt, 0) + [0], requireNull, strtod) == Parsed(j, |Text(j, fmt, 0)|) <==>
      Nesting(j) <= NESTING_LIMIT
    ensures Parse(Text(j, fmt, 0) + [0], requireNull, strtod).Failed? <==> Nesting(j) > NESTING_LIMIT
  {
    var t := Text(j, fmt, 0);
    var c := t + [0];
    FirstOfText(j, fmt, 0);
    assert c[0] == FirstByte(j) && c[0] != 0xef;
    hide Text, ParseValue, FirstByte, Nesting;
    assert At(c, 0, t);
    assert SkipBom(c) == 0 by {
      if |c| > 4 {
        assert c[..3][0] == c[0];
      }
    }
    SkipSpaces(c, 0, 0);
    SkipEnd(c);
    if Nesting(j) <= NESTING_LIMIT {
      TextParses(c, 0, j, fmt, 0, 0, strtod);
    } else {
      TooDeep(c, 0, j, fmt, 0, 0, strtod);
    }
  }

  /** At the final NUL skipping white space stays on it. */
  lemma SkipEnd(c: seq<byte>)
    requires c != [] && c[|c| - 1] == 0
    ensures Skip(c, |c| - 1) == |c| - 1
  {
    assert SkipTo(c, |c|) == |c|;
  }
}
