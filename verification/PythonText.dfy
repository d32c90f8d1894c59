/** How `json.dumps` writes strings: in ASCII, with escaped UTF-16 units, which cJSON reads back as UTF-8. */
module PythonText {
  import opened Words
  import opened JsonString
  import opened Json
  import opened JsonRoundTrip
  import opened Slices

  // ----- strings -----

  /** A character other than NUL; surrogates are none. */
  predicate IsChar(code: int) { 0 < code <= 0x10_ffff && !(0xd800 <= code < 0xe000) }

  function Utf8All(codes: seq<nat>): seq<byte>
    requires forall i :: 0 <= i < |codes| ==> IsChar(codes[i])
  {
    if codes == [] then []
    else
      assert IsChar(codes[0]);
      Utf8(codes[0]) + Utf8All(codes[1..])
  }

  /** The first character of some bytes, if they start with one. */
  predicate StartsChar(s: seq<byte>)
  {
    var (code, n) := Utf8Decode(s);
    IsChar(code) && n <= |s| && s[..n] == Utf8(code)
  }

  function FirstChar(s: seq<byte>): (code: nat)
    requires StartsChar(s)
    ensures IsChar(code)
  {
    Utf8Decode(s).0
  }

  function AfterChar(s: seq<byte>): (rest: seq<byte>)
    requires StartsChar(s)
    ensures |rest| < |s| && s == Utf8(FirstChar(s)) + rest
  {
    s[Utf8Decode(s).1..]
  }

  /** UTF-8 of characters. */
  predicate IsText(s: seq<byte>)
    decreases |s|
  {
    s == [] || (StartsChar(s) && IsText(AfterChar(s)))
  }

  // ----- escaping -----

  /** One UTF-16 unit as \uXXXX. */
  function EscapeUnit(v: nat): (e: seq<byte>)
    requires v < 0x1_0000
    ensures |e| == 6
  {
    [BACKSLASH, 0x75, HexChar(v / 0x1000), HexChar(v / 0x100 % 16), HexChar(v / 16 % 16), HexChar(v % 16)]
  }

  /** One character: itself if it is printable ASCII, an escape of two characters, or one or two units. */
  function EscapeChar(code: nat): (e: seq<byte>)
    requires IsChar(code)
    ensures 1 <= |e| <= 2 || |e| == 6 || |e| == 12
  {
    if code == QUOTE || code == BACKSLASH then [BACKSLASH, code]
    else if 0x20 <= code < 0x7f then [code]
    else if code == 0x08 then [BACKSLASH, 0x62]
    else if code == 0x0c then [BACKSLASH, 0x66]
    else if code == 0x0a then [BACKSLASH, 0x6e]
    else if code == 0x0d then [BACKSLASH, 0x72]
    else if code == 0x09 then [BACKSLASH, 0x74]
    else if code < 0x1_0000 then EscapeUnit(code)
    else EscapeUnit(High(code)) + EscapeUnit(Low(code))
  }

  /** The surrogates of a character beyond 16 bits. */
  function High(code: nat): (v: nat)
    requires 0x1_0000 <= code <= 0x10_ffff
    ensures 0xd800 <= v < 0xdc00
  {
    0xd800 + (code - 0x1_0000) / 0x400
  }

  function Low(code: nat): (v: nat)
    requires 0x1_0000 <= code <= 0x10_ffff
    ensures 0xdc00 <= v < 0xe000
  {
    0xdc00 + (code - 0x1_0000) % 0x400
  }

  /** The escaped characters of some bytes, as far as they are a text. */
  function EscapeText(s: seq<byte>): seq<byte>
    decreases |s|
  {
    if StartsChar(s) then EscapeChar(FirstChar(s)) + EscapeText(AfterChar(s)) else []
  }

  function QuotedText(s: seq<byte>): seq<byte> { [QUOTE] + EscapeText(s) + [QUOTE] }

  // ----- what texts are -----

  function EscapeAll(codes: seq<nat>): seq<byte>
    requires forall i :: 0 <= i < |codes| ==> IsChar(codes[i])
  {
    if codes == [] then [] else EscapeChar(codes[0]) + EscapeAll(codes[1..])
  }

  lemma TextAppend(code: nat, rest: seq<byte>)
    requires IsChar(code) && IsText(rest)
    ensures IsText(Utf8(code) + rest) && EscapeText(Utf8(code) + rest) == EscapeChar(code) + EscapeText(rest)
  {
    Utf8RoundTrip(code, rest);
    hide Utf8, Utf8Decode;
    var s := Utf8(code) + rest;
    assert s[..|Utf8(code)|] == Utf8(code) && s[|Utf8(code)|..] == rest;
    assert StartsChar(s) && FirstChar(s) == code && AfterChar(s) == rest;
    hide EscapeChar;
  }

  /** The UTF-8 of any characters is a text, and escaping it is escaping its characters one by one. */
  lemma {:induction false} EncodedIsText(codes: seq<nat>)
    requires forall i :: 0 <= i < |codes| ==> IsChar(codes[i])
    ensures IsText(Utf8All(codes)) && EscapeText(Utf8All(codes)) == EscapeAll(codes)
    decreases |codes|
  {
    if codes != [] {
      EncodedIsText(codes[1..]);
      hide Utf8, EscapeChar, IsText, EscapeText;
      TextAppend(codes[0], Utf8All(codes[1..]));
    }
  }

  lemma {:induction false} AsciiIsText(s: seq<byte>)
    requires forall i :: 0 <= i < |s| ==> 0 < s[i] < 0x80
    ensures IsText(s)
    decreases |s|
  {
    if s != [] {
      AsciiIsText(s[1..]);
      TextAppend(s[0], s[1..]);
      assert Utf8(s[0]) + s[1..] == s;
    }
  }

  lemma {:induction false} TextHasNoNul(s: seq<byte>)
    requires IsText(s)
    ensures NoNul(s)
    decreases |s|
  {
    if s != [] {
      TextHasNoNul(AfterChar(s));
      CharHasNoNul(FirstChar(s));
      assert s == Utf8(FirstChar(s)) + AfterChar(s);
      hide Utf8, IsText, StartsChar;
    }
  }

  lemma CharHasNoNul(code: nat)
    requires IsChar(code)
    ensures NoNul(Utf8(code))
  {
  }

  // ----- reading back -----

  lemma HexOfUnit(v: nat)
    requires v < 0x1_0000
    ensures Hex4(EscapeUnit(v)[2..]) == v
    ensures forall i :: 2 <= i < 6 ==> EscapeUnit(v)[i] != QUOTE && EscapeUnit(v)[i] != BACKSLASH
  {
    var a, b, d := v / 0x1000, v / 0x100, v / 16;
    assert v == 16 * d + v % 16 && d == 16 * b + d % 16 && b == 16 * a + b % 16 && a < 16;
    DigitOfChar(a);
    DigitOfChar(b % 16);
    DigitOfChar(d % 16);
    DigitOfChar(v % 16);
    hide HexChar, HexDigit;
  }

  lemma DigitOfChar(v: nat)
    requires v < 16
    ensures HexDigit(HexChar(v)) == v && HexChar(v) != QUOTE && HexChar(v) != BACKSLASH
  {
  }

  /** A unit in the input: what the decoder sees of it, and that the sizing pass walks over it. */
  lemma UnitAt(c: seq<byte>, p: nat, v: nat)
    requires v < 0x1_0000 && p + 6 <= |c| && c[p..p + 6] == EscapeUnit(v)
    ensures c[p] == BACKSLASH && c[p + 1] == 0x75 && Hex4(c[p + 2..p + 6]) == v
    ensures forall i :: p + 2 <= i < p + 6 ==> c[i] != QUOTE && c[i] != BACKSLASH
  {
    var e := EscapeUnit(v);
    HexOfUnit(v);
    assert c[p + 2..p + 6] == e[2..];
    hide HexChar, Hex4;
    forall i | 0 <= i < 6 ensures c[p + i] == e[i] { SliceByte(c, p, e, i); }
    assert forall i :: p + 2 <= i < p + 6 ==> c[i] == e[i - p];
    hide EscapeUnit;
  }

  lemma UnitReaches(c: seq<byte>, p: nat, v: nat, end: nat)
    requires v < 0x1_0000 && p + 6 <= end < |c| && c[p..p + 6] == EscapeUnit(v) && Reaches(c, p + 6, end)
    ensures Reaches(c, p, end)
  {
    UnitAt(c, p, v);
    hide EscapeUnit, Hex4;
    PlainRun(c, p + 2, 4, end);
    SizeUnits(c, p + 2, 1);
  }

  lemma SplitUnits(c: seq<byte>, p: nat, a: seq<byte>, b: seq<byte>)
    requires |a| == 6 && |b| == 6 && p + 12 <= |c| && c[p..p + 12] == a + b
    ensures c[p..p + 6] == a && c[p + 6..p + 12] == b
  {
    SplitAt(c, p, a, b);
  }

  lemma UnitsDecode(c: seq<byte>, p: nat, code: nat, end: nat)
    requires 0x1_0000 <= code <= 0x10_ffff && p + 12 <= end < |c|
    requires c[p..p + 12] == EscapeUnit(High(code)) + EscapeUnit(Low(code)) && Reaches(c, p + 12, end)
    ensures Reaches(c, p, end) && c[p] == BACKSLASH && c[p + 1] == 0x75 && Utf16(c, p, end) == Literal(code, 12)
  {
    hide EscapeUnit, Hex4, Reaches;
    SplitUnits(c, p, EscapeUnit(High(code)), EscapeUnit(Low(code)));
    UnitAt(c, p, High(code));
    UnitAt(c, p + 6, Low(code));
    UnitReaches(c, p + 6, Low(code), end);
    UnitReaches(c, p, High(code), end);
    var v := code - 0x1_0000;
    assert v == 0x400 * (v / 0x400) + v % 0x400;
  }

  lemma UnitDecode(c: seq<byte>, p: nat, code: nat, end: nat)
    requires IsChar(code) && code < 0x1_0000 && p + 6 <= end < |c| && c[p..p + 6] == EscapeUnit(code)
    requires Reaches(c, p + 6, end)
    ensures Reaches(c, p, end) && c[p] == BACKSLASH && c[p + 1] == 0x75 && Utf16(c, p, end) == Literal(code, 6)
  {
    UnitAt(c, p, code);
    UnitReaches(c, p, code, end);
    hide EscapeUnit, Hex4, Reaches;
  }

  lemma ShortDecode(c: seq<byte>, p: nat, code: nat, end: nat)
    requires IsChar(code) && |EscapeChar(code)| <= 2
    requires p + |EscapeChar(code)| <= end < |c| && c[p..p + |EscapeChar(code)|] == EscapeChar(code)
    requires Reaches(c, p + |EscapeChar(code)|, end)
    ensures Reaches(c, p, end) && Decode(c, p, end) == Prepend(Utf8(code), Decode(c, p + |EscapeChar(code)|, end))
  {
    var e := EscapeChar(code);
    assert code < 0x80 && Utf8(code) == [code];
    SliceByte(c, p, e, 0);
    if |e| == 1 {
      assert c[p] == code;
    } else {
      SliceByte(c, p, e, 1);
      assert c[p] == BACKSLASH && c[p + 1] == e[1] && Simple(e[1]) == code && e[1] != 0x75;
      hide Simple;
      SizeUnits(c, p + 2, 1);
    }
    hide EscapeChar;
  }

  /** The two passes over the escape of one character. */
  lemma OneChar(c: seq<byte>, p: nat, code: nat, end: nat)
    requires IsChar(code) && p + |EscapeChar(code)| <= end < |c| && c[p..p + |EscapeChar(code)|] == EscapeChar(code)
    requires Reaches(c, p + |EscapeChar(code)|, end)
    ensures Reaches(c, p, end) && Decode(c, p, end) == Prepend(Utf8(code), Decode(c, p + |EscapeChar(code)|, end))
  {
    if |EscapeChar(code)| <= 2 {
      ShortDecode(c, p, code, end);
    } else {
      hide Reaches, Utf16, EscapeUnit, Utf8;
      if code < 0x1_0000 {
        UnitDecode(c, p, code, end);
      } else {
        UnitsDecode(c, p, code, end);
      }
    }
  }

  lemma PrependChar(s: seq<byte>)
    requires StartsChar(s)
    ensures Prepend(Utf8(FirstChar(s)), Done(AfterChar(s))) == Done(s)
  {
  }

  lemma NothingEscaped(c: seq<byte>, p: nat)
    requires p < |c| && c[p] == QUOTE
    ensures EscapeText([]) == [] && Reaches(c, p, p) && Decode(c, p, p) == Done([])
  {
  }

  /** The UTF-8 of a text is what cJSON reads from the escapes of its characters. */
  lemma {:induction false} TextDecodes(c: seq<byte>, p: nat, s: seq<byte>)
    requires IsText(s) && p + |EscapeText(s)| < |c| && c[p..p + |EscapeText(s)|] == EscapeText(s)
    requires c[p + |EscapeText(s)|] == QUOTE
    ensures Reaches(c, p, p + |EscapeText(s)|) && Decode(c, p, p + |EscapeText(s)|) == Done(s)
    decreases |s|
  {
    hide EscapeChar, Utf8, Utf8Decode, Size, Prepend;
    if s == [] {
      NothingEscaped(c, p);
    } else {
      var code := FirstChar(s);
      var e, rest := EscapeChar(code), EscapeText(AfterChar(s));
      var n, end := |e|, p + |EscapeText(s)|;
      assert EscapeText(s) == e + rest;
      assert IsText(AfterChar(s));
      hide EscapeText, Reaches, Decode, FirstChar, AfterChar, StartsChar, IsText;
      SplitAt(c, p, e, rest);
      TextDecodes(c, p + n, AfterChar(s));
      OneChar(c, p, code, end);
      PrependChar(s);
    }
  }

  lemma QuotedParses(c: seq<byte>, o: nat, s: seq<byte>)
    requires IsText(s) && At(c, o, QuotedText(s))
    ensures c[o] == QUOTE && ParseString(c, o) == Parsed(s, o + |QuotedText(s)|)
  {
    hide EscapeText, Size, Decode, IsText;
    AtAppend(c, o, [QUOTE] + EscapeText(s), [QUOTE]);
    AtAppend(c, o, [QUOTE], EscapeText(s));
    AtByte(c, o, [QUOTE], 0);
    AtByte(c, o + 1 + |EscapeText(s)|, [QUOTE], 0);
    TextDecodes(c, o + 1, s);
    TextHasNoNul(s);
    CViewWhole(s);
  }
}
