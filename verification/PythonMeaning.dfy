/** How Python's `json.dumps` writes: every character in its one ASCII spelling, and white space by the indent. */
module PythonMeaning {
  import opened Words
  import opened JsonString
  import opened Json
  import opened PythonText
  import opened PythonJson
  import opened PrintMeaning
  import M = JsonMeaning

  // ----- characters -----

  /** A code unit as \u and four digits in lower case. */
  ghost predicate UnitText(t: seq<byte>, v: nat)
  {
    && |t| == 6 && t[0] == 0x5c && t[1] == 0x75 && M.UnitAt(t, 2, v)
    && M.SomeDigit(t[2]) && M.SomeDigit(t[3]) && M.SomeDigit(t[4]) && M.SomeDigit(t[5])
    && forall k :: 2 <= k < 6 ==> !(0x41 <= t[k] <= 0x5a)
  }

  lemma UnitMeans(v: nat)
    requires v < 0x1_0000
    ensures UnitText(EscapeUnit(v), v)
  {
    var t := EscapeUnit(v);
    CharDigit(v / 0x1000);
    CharDigit(v / 0x100 % 16);
    CharDigit(v / 16 % 16);
    CharDigit(v % 16);
    hide M.DigitFor, HexChar;
  }

  /**
   * How a character is written: a short escape where there is one but for the slash, printable ASCII as itself, and
   * otherwise one or two code units.
   */
  lemma CharMeans(code: nat)
    requires 0 < code <= 0x10_ffff && !(0xd800 <= code <= 0xdfff)
    ensures var t := EscapeChar(code);
      if code < 0x100 && HasShort(code) then |t| == 2 && t[0] == 0x5c && M.EscapeFor(t[1], code)
      else if 0x20 <= code < 0x7f then t == [code]
      else if code < 0x1_0000 then UnitText(t, code)
      else exists h: nat, l: nat ::
        && 0xd800 <= h < 0xdc00 <= l < 0xe000 && code == 0x1_0000 + 0x400 * (h - 0xd800) + (l - 0xdc00)
        && |t| == 12 && UnitText(t[..6], h) && UnitText(t[6..], l)
  {
    hide UnitText, EscapeUnit, HasShort, M.EscapeFor;
    if code == 8 || code == 9 || code == 10 || code == 12 || code == 13 || code == 0x22 || code == 0x5c {
      ShortMeans(code);
    } else if code < 0x1_0000 {
      if code < 0x100 {
        NoShort(code);
      }
      if !(0x20 <= code < 0x7f) {
        UnitMeans(code);
      }
    } else {
      UnitMeans(High(code));
      UnitMeans(Low(code));
      TwoUnits(EscapeUnit(High(code)), EscapeUnit(Low(code)));
    }
  }

  lemma TwoUnits(a: seq<byte>, b: seq<byte>)
    requires |a| == 6 && |b| == 6
    ensures (a + b)[..6] == a && (a + b)[6..] == b
  {
  }

  lemma NoShort(code: nat)
    requires code < 0x100 && code !in {8, 9, 10, 12, 13, 0x22, 0x5c}
    ensures !HasShort(code)
  {
  }

  lemma ShortMeans(code: nat)
    requires code in {8, 9, 10, 12, 13, 0x22, 0x5c}
    ensures var t := EscapeChar(code); HasShort(code) && |t| == 2 && t[0] == 0x5c && M.EscapeFor(t[1], code)
  {
    hide EscapeUnit, High, Low;
    var e := if code == 8 then 0x62 else if code == 9 then 0x74 else if code == 10 then 0x6e
      else if code == 12 then 0x66 else if code == 13 then 0x72 else code;
    assert M.EscapeFor(e, code);
  }

  // ----- strings stay as they are -----

  lemma UnitInside(p: Place, v: nat)
    requires p.mode.In? && v < 0x1_0000
    ensures Gives(p, EscapeUnit(v), EscapeUnit(v), p)
  {
    UnitPlain(v);
    EscapedInside(p, EscapeUnit(v));
  }

  lemma UnitPlain(v: nat)
    requires v < 0x1_0000
    ensures var t := EscapeUnit(v); t[0] == 0x5c && forall k :: 2 <= k < |t| ==> t[k] != 0x22 && t[k] != 0x5c
  {
    CharDigit(v / 0x1000);
    CharDigit(v / 0x100 % 16);
    CharDigit(v / 16 % 16);
    CharDigit(v % 16);
  }

  /** A backslash, any character, and characters that are neither quotes nor backslashes. */
  lemma EscapedInside(p: Place, t: seq<byte>)
    requires p.mode.In? && |t| >= 2 && t[0] == 0x5c
    requires forall k :: 2 <= k < |t| ==> t[k] != 0x22 && t[k] != 0x5c
    ensures Gives(p, t, t, p)
  {
    hide Gives;
    var q := p.(mode := Esc);
    var a, e, tail := [t[0]], [t[1]], t[2..];
    One(p, t[0]);
    One(q, t[1]);
    InsideString(p, tail);
    Join(q, e, tail, e, tail, p, p);
    Join(p, a, e + tail, a, e + tail, q, p);
    assert t == a + (e + tail);
  }

  lemma CharInside(p: Place, code: nat)
    requires p.mode.In? && IsChar(code)
    ensures Gives(p, EscapeChar(code), EscapeChar(code), p)
  {
    hide Gives, EscapeUnit;
    var t := EscapeChar(code);
    if code >= 0x1_0000 {
      UnitInside(p, High(code));
      UnitInside(p, Low(code));
      Join(p, EscapeUnit(High(code)), EscapeUnit(Low(code)), EscapeUnit(High(code)), EscapeUnit(Low(code)), p, p);
    } else if |t| == 1 {
      InsideString(p, t);
    } else if |t| == 2 {
      EscapedInside(p, t);
    } else {
      UnitInside(p, code);
    }
  }

  lemma {:induction false} TextInside(p: Place, s: seq<byte>)
    requires p.mode.In?
    ensures Gives(p, EscapeText(s), EscapeText(s), p)
    decreases |s|
  {
    hide Gives, EscapeChar;
    if StartsChar(s) {
      var e, rest := EscapeChar(FirstChar(s)), EscapeText(AfterChar(s));
      CharInside(p, FirstChar(s));
      TextInside(p, AfterChar(s));
      Join(p, e, rest, e, rest, p, p);
    } else {
      Nothing(p);
    }
  }

  lemma TextGives(p: Place, s: seq<byte>)
    requires Ready(p)
    ensures Gives(p, QuotedText(s), Lead(p) + QuotedText(s), p.(mode := Out))
  {
    hide Gives, EscapeText, Lead;
    var q := p.(mode := In);
    QuoteGives(p);
    TextInside(q, s);
    Three(p, q, q, p.(mode := Out), [0x22], EscapeText(s), [0x22], Lead(p) + [0x22], EscapeText(s), [0x22]);
    Regroup(Lead(p), [0x22], EscapeText(s), [0x22]);
  }

  // ----- the dump is an indented text -----

  /** A dumped value, wherever it stands, is a text without white space outside strings, indented. */
  lemma {:induction false} DumpGives(j: Json, p: Place) returns (c: seq<byte>)
    requires Dumpable(j) && Ready(p) && p.style.Dumped?
    ensures Gives(p, c, Lead(p) + Dump(j, |p.open|), p.(mode := Out))
    decreases j, 1, 0
  {
    hide Gives, Quiet, Lead;
    match j
    case String(s) =>
      TextGives(p, s);
      c := QuotedText(s);
    case Array(items) =>
      c := ArrayDump(j, p);
    case Object(members) =>
      c := ObjectDump(j, p);
    case OtherNumber(_) =>
      assert false;
    case _ =>
      c := Text(j, true, |p.open|);
      PlainQuiet(j, |p.open|);
      QuietRun(p, c);
  }

  lemma PlainQuiet(j: Json, d: nat)
    requires j.Null? || j.True? || j.False? || j.Number?
    ensures var t := Text(j, true, d); t != [] && forall k :: 0 <= k < |t| ==> Quiet(t[k])
  {
    WordsQuiet();
    if j.Number? {
      DecimalQuiet(j.n);
    }
  }

  /** An opening bracket, a closing one behind it, and one behind something else. */
  lemma BracketOpens(p: Place, b: byte, close: byte)
    requires Ready(p) && p.style.Dumped? && (b == 0x5b || b == 0x7b) && (close == 0x5d || close == 0x7d)
    ensures var q := Place(Dumped, Fresh, p.open + [b]);
      && Gives(p, [b], Lead(p) + [b], q) && Lead(q) == Line(|p.open| + 1)
      && Gives(q, [close], [close], p.(mode := Out))
      && Gives(q.(mode := Out), [close], Line(|p.open|) + [close], p.(mode := Out))
  {
    var q := Place(Dumped, Fresh, p.open + [b]);
    hide Line;
    One(p, b);
    One(q, close);
    One(q.(mode := Out), close);
    assert Pop(q.open) == p.open;
    assert Lead(p) + [b] + [] == Lead(p) + [b] && [] + [close] == [close];
  }

  lemma CommaBreaks(q: Place)
    requires q.mode.Out? && q.style.Dumped?
    ensures Gives(q, [0x2c], [0x2c], q.(mode := Fresh))
  {
    One(q, 0x2c);
    assert [] + [0x2c] + [] == [0x2c];
  }

  lemma {:induction false} ArrayDump(j: Json, p: Place) returns (c: seq<byte>)
    requires Dumpable(j) && Ready(p) && p.style.Dumped? && j.Array?
    ensures Gives(p, c, Lead(p) + Dump(j, |p.open|), p.(mode := Out))
    decreases j, 0, |j.items| + 1
  {
    hide Gives, Lead, Dumpable, DumpItems, Line;
    var q := Place(Dumped, Fresh, p.open + [0x5b]);
    BracketOpens(p, 0x5b, 0x5d);
    if j.items == [] {
      Join(p, [0x5b], [0x5d], Lead(p) + [0x5b], [0x5d], q, p.(mode := Out));
      c := [0x5b] + [0x5d];
      assert Lead(p) + [0x5b] + [0x5d] == Lead(p) + Dump(j, |p.open|);
    } else {
      var a := ItemsDump(j, 0, q, p.(mode := Out));
      c := [0x5b] + a;
      Join(p, [0x5b], a, Lead(p) + [0x5b], Lead(q) + DumpItems(j, 0, |q.open|), q, p.(mode := Out));
      assert Lead(p) + [0x5b] + (Lead(q) + DumpItems(j, 0, |q.open|)) == Lead(p) + Dump(j, |p.open|);
    }
  }

  lemma DumpItemsUnfold(j: Json, i: nat, d: nat)
    requires j.Array? && i < |j.items| && d > 0
    ensures i + 1 == |j.items| ==> DumpItems(j, i, d) == Dump(j.items[i], d) + (Line(d - 1) + [0x5d])
    ensures i + 1 < |j.items| ==>
      DumpItems(j, i, d) == Dump(j.items[i], d) + ([0x2c] + (Line(d) + DumpItems(j, i + 1, d)))
  {
    hide Dump, Line;
  }

  lemma {:induction false} ItemsDump(j: Json, i: nat, q: Place, r: Place) returns (c: seq<byte>)
    requires Dumpable(j) && j.Array? && i < |j.items| && q.mode.Fresh? && q.style.Dumped? && q.open != []
    requires Lead(q) == Line(|q.open|)
    requires Gives(q.(mode := Out), [0x5d], Line(|q.open| - 1) + [0x5d], r)
    ensures Gives(q, c, Lead(q) + DumpItems(j, i, |q.open|), r)
    decreases j, 0, |j.items| - i
  {
    hide Gives, Lead, DumpItems, Line, Dump;
    DumpableItem(j, i);
    hide Dumpable;
    var d, o, item := |q.open|, q.(mode := Out), j.items[i];
    var a := DumpGives(item, q);
    DumpItemsUnfold(j, i, d);
    if i + 1 == |j.items| {
      c := a + [0x5d];
      Join(q, a, [0x5d], Lead(q) + Dump(item, d), Line(d - 1) + [0x5d], o, r);
      Together(Lead(q), Dump(item, d), Line(d - 1) + [0x5d]);
    } else {
      CommaBreaks(o);
      var b := ItemsDump(j, i + 1, q, r);
      c := a + [0x2c] + b;
      Three(q, o, q, r, a, [0x2c], b, Lead(q) + Dump(item, d), [0x2c], Line(d) + DumpItems(j, i + 1, d));
      TogetherMore(Lead(q), Dump(item, d), [0x2c], Line(d) + DumpItems(j, i + 1, d));
    }
  }

  lemma Together(l: seq<byte>, a: seq<byte>, b: seq<byte>)
    ensures l + a + b == l + (a + b)
  {
  }

  lemma TogetherMore(l: seq<byte>, a: seq<byte>, b: seq<byte>, c: seq<byte>)
    ensures (l + a) + b + c == l + (a + (b + c))
  {
  }

  lemma {:induction false} ObjectDump(j: Json, p: Place) returns (c: seq<byte>)
    requires Dumpable(j) && Ready(p) && p.style.Dumped? && j.Object?
    ensures Gives(p, c, Lead(p) + Dump(j, |p.open|), p.(mode := Out))
    decreases j, 0, |j.members| + 1
  {
    hide Gives, Lead, Dumpable, DumpMembers, Line;
    var q := Place(Dumped, Fresh, p.open + [0x7b]);
    BracketOpens(p, 0x7b, 0x7d);
    if j.members == [] {
      Join(p, [0x7b], [0x7d], Lead(p) + [0x7b], [0x7d], q, p.(mode := Out));
      c := [0x7b] + [0x7d];
      assert Lead(p) + [0x7b] + [0x7d] == Lead(p) + Dump(j, |p.open|);
    } else {
      var a := MembersDump(j, 0, q, p.(mode := Out));
      c := [0x7b] + a;
      Join(p, [0x7b], a, Lead(p) + [0x7b], Lead(q) + DumpMembers(j, 0, |q.open|), q, p.(mode := Out));
      assert Lead(p) + [0x7b] + (Lead(q) + DumpMembers(j, 0, |q.open|)) == Lead(p) + Dump(j, |p.open|);
    }
  }

  lemma DumpMembersUnfold(j: Json, i: nat, d: nat)
    requires j.Object? && i < |j.members| && d > 0
    ensures var m := j.members[i];
      && (i + 1 == |j.members| ==>
          DumpMembers(j, i, d) == QuotedText(m.name) + ([0x3a, 0x20] + (Dump(m.value, d) + (Line(d - 1) + [0x7d]))))
      && (i + 1 < |j.members| ==>
          DumpMembers(j, i, d) ==
            QuotedText(m.name) + ([0x3a, 0x20] + (Dump(m.value, d) + ([0x2c] + (Line(d) + DumpMembers(j, i + 1, d))))))
  {
    hide Dump, Line, QuotedText;
  }

  lemma ColonSpaces(o: Place)
    requires o.mode.Out? && o.style.Dumped?
    ensures Gives(o, [0x3a], [0x3a, 0x20], o)
  {
    One(o, 0x3a);
    assert [] + [0x3a] + [0x20] == [0x3a, 0x20];
  }

  lemma {:induction false} MembersDump(j: Json, i: nat, q: Place, r: Place) returns (c: seq<byte>)
    requires Dumpable(j) && j.Object? && i < |j.members| && q.mode.Fresh? && q.style.Dumped? && q.open != []
    requires Lead(q) == Line(|q.open|)
    requires Gives(q.(mode := Out), [0x7d], Line(|q.open| - 1) + [0x7d], r)
    ensures Gives(q, c, Lead(q) + DumpMembers(j, i, |q.open|), r)
    decreases j, 0, |j.members| - i
  {
    hide Gives, DumpMembers, Line, Dump, QuotedText;
    DumpableMember(j, i);
    hide Dumpable;
    var d, o, m := |q.open|, q.(mode := Out), j.members[i];
    TextGives(q, m.name);
    ColonSpaces(o);
    var v := DumpGives(m.value, o);
    NoLead(o, Dump(m.value, d));
    hide Lead;
    Three(q, o, o, o, QuotedText(m.name), [0x3a], v, Lead(q) + QuotedText(m.name), [0x3a, 0x20], Dump(m.value, d));
    var a, f := QuotedText(m.name) + [0x3a] + v, Lead(q) + QuotedText(m.name) + [0x3a, 0x20] + Dump(m.value, d);
    DumpMembersUnfold(j, i, d);
    if i + 1 == |j.members| {
      c := a + [0x7d];
      Join(q, a, [0x7d], f, Line(d - 1) + [0x7d], o, r);
      TogetherFour(Lead(q), QuotedText(m.name), [0x3a, 0x20], Dump(m.value, d), Line(d - 1) + [0x7d]);
    } else {
      CommaBreaks(o);
      var b := MembersDump(j, i + 1, q, r);
      var g := Line(d) + DumpMembers(j, i + 1, d);
      c := a + [0x2c] + b;
      Three(q, o, q, r, a, [0x2c], b, f, [0x2c], g);
      Together(f, [0x2c], g);
      TogetherFour(Lead(q), QuotedText(m.name), [0x3a, 0x20], Dump(m.value, d), [0x2c] + g);
    }
  }

  lemma TogetherFour(l: seq<byte>, a: seq<byte>, b: seq<byte>, c: seq<byte>, e: seq<byte>)
    ensures l + a + b + c + e == l + (a + (b + (c + e)))
  {
  }

  /** The whole dump. */
  lemma DumpMeans(j: Json) returns (c: seq<byte>)
    requires Dumpable(j)
    ensures Tight(Place(Dumped, Out, []), c) && Dump(j, 0) == Format(Place(Dumped, Out, []), c)
  {
    hide Dump;
    c := DumpGives(j, Place(Dumped, Out, []));
    assert Lead(Place(Dumped, Out, [])) + Dump(j, 0) == Dump(j, 0);
  }

  /** A dump is read back as the value it is of exactly when that is nested at most 1000 deep. */
  lemma DumpExactly(j: Json, strtod: Strtod)
    requires Dumpable(j)
    ensures var r := Parse(Dump(j, 0) + [0], false, strtod);
      r.Parsed? && r.value == j <==> Nesting(j) <= 1000
  {
    hide Dump, Parse, Nesting, Dumpable;
    M.NestingBounded(Dump(j, 0) + [0], false, strtod);
    if Nesting(j) <= 1000 {
      DumpRoundTrip(j, strtod);
    }
  }
}
