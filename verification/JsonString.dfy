/** JSON string literals: the parser's two passes over an escaped string, and the printer's escaping. */
module JsonString {
  import opened Words

  const QUOTE: byte := 0x22
  const BACKSLASH: byte := 0x5c
  const SLASH: byte := 0x2f

  // ----- the sizing pass -----

  datatype Sized = Sized(end: nat, skipped: nat) | Unterminated

  /** Find the closing quote from `p` on, counting the escapes passed. */
  function Size(c: seq<byte>, p: nat, skipped: nat): (r: Sized)
    ensures r.Sized? ==> p <= r.end < |c| && c[r.end] == QUOTE
    decreases |c| - p
  {
    if p >= |c| then Unterminated
    else if c[p] == QUOTE then Sized(p, skipped)
    else if c[p] == BACKSLASH then
      if p + 1 >= |c| then Unterminated else Size(c, p + 2, skipped + 1)
    else Size(c, p + 1, skipped)
  }

  // ----- the decoding pass -----

  function HexDigit(b: byte): int
  {
    if 0x30 <= b <= 0x39 then b - 0x30
    else if 0x41 <= b <= 0x46 then b - 0x41 + 10
    else if 0x61 <= b <= 0x66 then b - 0x61 + 10
    else -1
  }

  /** Four hexadecimal digits; anything else counts as 0. */
  function Hex4(s: seq<byte>): (v: nat)
    requires |s| == 4
    ensures v < 0x1_0000
  {
    var a, b, d, e := HexDigit(s[0]), HexDigit(s[1]), HexDigit(s[2]), HexDigit(s[3]);
    if a < 0 || b < 0 || d < 0 || e < 0 then 0 else 0x1000 * a + 0x100 * b + 0x10 * d + e
  }

  function Utf8(code: nat): (bs: seq<byte>)
    requires code <= 0x10_ffff
    ensures 1 <= |bs| <= 4 && (code < 0x1_0000 ==> |bs| <= 3)
  {
    if code < 0x80 then [code]
    else if code < 0x800 then [0xc0 + code / 0x40, 0x80 + code % 0x40]
    else if code < 0x1_0000 then [0xe0 + code / 0x1000, 0x80 + code / 0x40 % 0x40, 0x80 + code % 0x40]
    else [0xf0 + code / 0x4_0000, 0x80 + code / 0x1000 % 0x40, 0x80 + code / 0x40 % 0x40, 0x80 + code % 0x40]
  }

  datatype Literal = Literal(code: nat, length: nat) | Invalid

  /** One or two \uXXXX sequences at `p`: the code point and the number of input bytes. */
  function Utf16(c: seq<byte>, p: nat, end: nat): (r: Literal)
    requires p <= end <= |c|
    ensures r.Literal? ==> r.code <= 0x10_ffff && p + r.length <= end
    ensures r.Literal? ==> (r.length == 6 && r.code < 0x1_0000) || r.length == 12
  {
    if end - p < 6 then Invalid
    else
      var first := Hex4(c[p + 2..p + 6]);
      if 0xdc00 <= first <= 0xdfff then Invalid
      else if 0xd800 <= first <= 0xdbff then
        if end - (p + 6) < 6 || c[p + 6] != BACKSLASH || c[p + 7] != 0x75 then Invalid
        else
          var second := Hex4(c[p + 8..p + 12]);
          if second < 0xdc00 || second > 0xdfff then Invalid
          else Literal(0x1_0000 + 0x400 * (first - 0xd800) + (second - 0xdc00), 12)
      else Literal(first, 6)
  }

  /** The byte a two-character escape stands for. */
  function Simple(b: byte): (r: int)
    ensures -1 <= r < 0x100
  {
    if b == 0x62 then 0x08
    else if b == 0x66 then 0x0c
    else if b == 0x6e then 0x0a
    else if b == 0x72 then 0x0d
    else if b == 0x74 then 0x09
    else if b == QUOTE || b == BACKSLASH || b == SLASH then b
    else -1
  }

  datatype Decoded = Done(bytes: seq<byte>) | Bad(at: nat)

  function Prepend(bs: seq<byte>, d: Decoded): Decoded
  {
    if d.Done? then Done(bs + d.bytes) else d
  }

  /** Decode from `p` to the end the sizing pass found. A last escape may read the closing quote. */
  function Decode(c: seq<byte>, p: nat, end: nat): Decoded
    requires end < |c|
    decreases |c| - p
  {
    if p >= end then Done([])
    else if c[p] != BACKSLASH then Prepend([c[p]], Decode(c, p + 1, end))
    else if c[p + 1] == 0x75 then
      match Utf16(c, p, end)
      case Invalid => Bad(p)
      case Literal(code, length) => Prepend(Utf8(code), Decode(c, p + length, end))
    else if Simple(c[p + 1]) < 0 then Bad(p)
    else Prepend([Simple(c[p + 1])], Decode(c, p + 2, end))
  }

  // ----- the allocation is large enough -----

  /** How many units the sizing pass counts from `s` to `end`: one for each character or escape. */
  function Units(c: seq<byte>, s: nat, end: nat): nat
    requires end <= |c|
    decreases |c| - s
  {
    if s >= end then 0 else 1 + Units(c, if c[s] == BACKSLASH then s + 2 else s + 1, end)
  }

  /** The sizing pass, started at `s`, stops at `end`. */
  predicate Reaches(c: seq<byte>, s: nat, end: nat)
  {
    Size(c, s, 0).Sized? && Size(c, s, 0).end == end
  }

  lemma {:induction false} SizeUnits(c: seq<byte>, p: nat, skipped: nat)
    ensures var r := Size(c, p, skipped);
      && (r.Sized? <==> Size(c, p, 0).Sized?)
      && (r.Sized? ==> Size(c, p, 0).end == r.end && Units(c, p, r.end) == r.end - p - (r.skipped - skipped))
    decreases |c| - p
  {
    if p < |c| && c[p] != QUOTE {
      if c[p] != BACKSLASH {
        SizeUnits(c, p + 1, skipped);
      } else if p + 1 < |c| {
        SizeUnits(c, p + 2, skipped + 1);
        SizeUnits(c, p + 2, 1);
      }
    }
  }

  lemma ReachesNext(c: seq<byte>, s: nat, end: nat)
    requires Reaches(c, s, end) && s < end
    ensures var next := if c[s] == BACKSLASH then s + 2 else s + 1;
      next <= end < |c| && Reaches(c, next, end) && Units(c, s, end) == 1 + Units(c, next, end)
  {
    if c[s] == BACKSLASH {
      SizeUnits(c, s + 2, 1);
    }
  }

  /** Moving the sizing pass to the first boundary at or past `t`: every unit covers at most two bytes. */
  lemma {:induction false} AdvanceTo(c: seq<byte>, s: nat, t: nat, end: nat) returns (s': nat)
    requires Reaches(c, s, end) && s <= t <= end
    ensures (s' == t || s' == t + 1) && s' <= end && Reaches(c, s', end)
    ensures 2 * (Units(c, s, end) - Units(c, s', end)) >= s' - s
    decreases t - s
  {
    if s == t {
      return s;
    }
    ReachesNext(c, s, end);
    var next := if c[s] == BACKSLASH then s + 2 else s + 1;
    if next > t {
      return next;
    }
    s' := AdvanceTo(c, next, t, end);
  }

  /**
   * One decoding step against the sizing pass. The two may disagree about where escapes start, by one byte; the
   * potential Units + (s - p) still pays for every byte written.
   */
  lemma DecodeStep(c: seq<byte>, p: nat, s: nat, end: nat, written: nat, length: nat) returns (s': nat)
    requires Reaches(c, s, end) && p < end && (s == p || s == p + 1)
    requires c[p] != BACKSLASH ==> written == 1 && length == 1
    requires c[p] == BACKSLASH ==>
      ((written == 1 && length == 2) ||
        (p + length <= end && (if length == 6 then written <= 3 else length == 12 && written <= 4)))
    ensures p + length <= end ==>
      (Reaches(c, s', end) && (s' == p + length || s' == p + length + 1)
       && written + Units(c, s', end) + (s' - p - length) <= Units(c, s, end) + (s - p))
    ensures p + length > end ==> written <= Units(c, s, end) + (s - p)
  {
    if s == p {
      ReachesNext(c, s, end);
    }
    if p + length <= end {
      if s == p {
        var next := if c[s] == BACKSLASH then s + 2 else s + 1;
        if length <= 2 {
          s' := next;
        } else {
          s' := AdvanceTo(c, s, p + length, end);
        }
      } else {
        if length == 1 {
          s' := s;
        } else {
          s' := AdvanceTo(c, s, p + length, end);
        }
      }
    } else {
      s' := s;
    }
  }

  /** What the decoding pass writes fits the units the sizing pass counted. */
  lemma {:induction false} OutputFits(c: seq<byte>, p: nat, s: nat, end: nat)
    requires end < |c| && p <= end && Reaches(c, s, end) && (s == p || s == p + 1)
    ensures var d := Decode(c, p, end); d.Done? ==> |d.bytes| <= Units(c, s, end) + (s - p)
    decreases |c| - p
  {
    hide Size, Units;
    var d := Decode(c, p, end);
    if p < end && d.Done? {
      if c[p] != BACKSLASH {
        var s' := DecodeStep(c, p, s, end, 1, 1);
        OutputFits(c, p + 1, s', end);
      } else if c[p + 1] == 0x75 {
        var lit := Utf16(c, p, end);
        var s' := DecodeStep(c, p, s, end, |Utf8(lit.code)|, lit.length);
        OutputFits(c, p + lit.length, s', end);
      } else {
        var s' := DecodeStep(c, p, s, end, 1, 2);
        if p + 2 <= end {
          OutputFits(c, p + 2, s', end);
        }
      }
    }
  }

  /** What the parser allocates for the string that opens at `offset`, without the byte for the NUL. */
  function Allocation(offset: nat, r: Sized): int
    requires r.Sized?
  {
    r.end - offset - r.skipped
  }

  /**
   * No overflow: for every input whose sizing pass finds a closing quote, whatever escapes it holds, the decoded bytes
   * and the NUL fit the allocation.
   */
  lemma AllocationSuffices(c: seq<byte>, offset: nat)
    requires Size(c, offset + 1, 0).Sized?
    ensures var r := Size(c, offset + 1, 0);
      var d := Decode(c, offset + 1, r.end);
      0 <= Allocation(offset, r) && (d.Done? ==> |d.bytes| + 1 <= Allocation(offset, r))
  {
    var r := Size(c, offset + 1, 0);
    SizeUnits(c, offset + 1, 0);
    OutputFits(c, offset + 1, offset + 1, r.end);
  }

  // ----- code points -----

  /** A strict UTF-8 decoder for one character: the code point and the number of bytes, or nothing. */
  function Utf8Decode(s: seq<byte>): (int, nat)
  {
    if s == [] then (-1, 0)
    else
      var a: int, b: int, d: int, e: int := s[0], Nth(s, 1), Nth(s, 2), Nth(s, 3);
      if a < 0x80 then (a, 1)
      else if 0xc0 <= a < 0xe0 && |s| >= 2 then (0x40 * (a - 0xc0) + (b - 0x80), 2)
      else if 0xe0 <= a < 0xf0 && |s| >= 3 then (0x1000 * (a - 0xe0) + 0x40 * (b - 0x80) + (d - 0x80), 3)
      else if 0xf0 <= a && |s| >= 4 then (0x4_0000 * (a - 0xf0) + 0x1000 * (b - 0x80) + 0x40 * (d - 0x80) +
        (e - 0x80), 4)
      else (-1, 0)
  }

  function Nth(s: seq<byte>, i: nat): byte { if i < |s| then s[i] else 0 }

  /** Every code point survives: encoding as UTF-8 can be undone, whatever follows. */
  lemma Utf8RoundTrip(code: nat, rest: seq<byte>)
    requires code <= 0x10_ffff
    ensures Utf8Decode(Utf8(code) + rest) == (code, |Utf8(code)|)
  {
    var a, b := code / 0x40, code / 0x1000;
    assert b == a / 0x40 && code / 0x4_0000 == b / 0x40;
    assert code == 0x40 * a + code % 0x40 && a == 0x40 * b + a % 0x40 && b == 0x40 * (b / 0x40) + b % 0x40;
  }

  // ----- escaping -----

  function HexChar(v: nat): byte
    requires v < 16
  {
    if v < 10 then 0x30 + v else 0x61 + v - 10
  }

  /** How the printer writes one byte. */
  function EscapeByte(b: byte): (e: seq<byte>)
    ensures |e| == 1 || |e| == 2 || |e| == 6
  {
    if b > 31 && b != QUOTE && b != BACKSLASH then [b]
    else if b == BACKSLASH || b == QUOTE then [BACKSLASH, b]
    else if b == 0x08 then [BACKSLASH, 0x62]
    else if b == 0x0c then [BACKSLASH, 0x66]
    else if b == 0x0a then [BACKSLASH, 0x6e]
    else if b == 0x0d then [BACKSLASH, 0x72]
    else if b == 0x09 then [BACKSLASH, 0x74]
    else [BACKSLASH, 0x75, 0x30, 0x30, HexChar(b / 16), HexChar(b % 16)]
  }

  function Escape(s: seq<byte>): seq<byte>
  {
    if s == [] then [] else EscapeByte(s[0]) + Escape(s[1..])
  }

  /** The printed literal. */
  function Quoted(s: seq<byte>): seq<byte> { [QUOTE] + Escape(s) + [QUOTE] }

  predicate NoNul(s: seq<byte>) { forall i :: 0 <= i < |s| ==> s[i] != 0 }

  lemma HexOfChar(b: byte)
    requires b < 0x20
    ensures Hex4([0x30, 0x30, HexChar(b / 16), HexChar(b % 16)]) == b
  {
  }

  /** The two passes over the escape of one byte. */
  lemma OneEscape(c: seq<byte>, p: nat, b: byte, end: nat)
    requires b != 0 && p + |EscapeByte(b)| <= end < |c| && c[p..p + |EscapeByte(b)|] == EscapeByte(b)
    requires Reaches(c, p + |EscapeByte(b)|, end)
    ensures Reaches(c, p, end)
    ensures Decode(c, p, end) == Prepend([b], Decode(c, p + |EscapeByte(b)|, end))
  {
    var e := EscapeByte(b);
    SliceByte(c, p, e, 0);
    if |e| == 1 {
      assert c[p] == b;
      hide EscapeByte;
    } else if |e| == 2 {
      SliceByte(c, p, e, 1);
      assert c[p] == BACKSLASH && c[p + 1] == e[1] && Simple(e[1]) == b && e[1] != 0x75;
      hide EscapeByte, Simple;
      SizeUnits(c, p + 2, 1);
    } else {
      SliceByte(c, p, e, 1);
      SliceByte(c, p, e, 2);
      SliceByte(c, p, e, 3);
      SliceByte(c, p, e, 4);
      SliceByte(c, p, e, 5);
      UnicodeEscape(c, p, b, end);
    }
  }

  lemma SliceByte(c: seq<byte>, p: nat, e: seq<byte>, i: nat)
    requires i < |e| && p + |e| <= |c| && c[p..p + |e|] == e
    ensures c[p + i] == e[i]
  {
    assert c[p..p + |e|][i] == e[i];
  }

  /** A control character is written as \u00XX. */
  lemma UnicodeEscape(c: seq<byte>, p: nat, b: byte, end: nat)
    requires 0 < b < 0x20 && p + 6 <= end < |c|
    requires c[p] == BACKSLASH && c[p + 1] == 0x75 && c[p + 2] == 0x30 && c[p + 3] == 0x30
    requires c[p + 4] == HexChar(b / 16) && c[p + 5] == HexChar(b % 16)
    requires Reaches(c, p + 6, end)
    ensures Reaches(c, p, end)
    ensures Decode(c, p, end) == Prepend([b], Decode(c, p + 6, end))
  {
    assert c[p + 2..p + 6] == [0x30, 0x30, HexChar(b / 16), HexChar(b % 16)];
    HexOfChar(b);
    assert HexChar(b / 16) != QUOTE && HexChar(b / 16) != BACKSLASH && HexChar(b % 16) != QUOTE &&
      HexChar(b % 16) != BACKSLASH;
    hide Hex4, HexChar;
    PlainRun(c, p + 2, 4, end);
    SizeUnits(c, p + 2, 1);
    assert Utf16(c, p, end) == Literal(b, 6) && Utf8(b) == [b];
  }

  /** The sizing pass walks over bytes that are neither quotes nor backslashes. */
  lemma {:induction false} PlainRun(c: seq<byte>, p: nat, n: nat, end: nat)
    requires p + n <= |c| && forall i :: p <= i < p + n ==> c[i] != QUOTE && c[i] != BACKSLASH
    requires Reaches(c, p + n, end)
    ensures Reaches(c, p, end)
    decreases n
  {
    if n > 0 {
      PlainRun(c, p + 1, n - 1, end);
    }
  }

  lemma SplitAt(c: seq<byte>, p: nat, a: seq<byte>, b: seq<byte>)
    requires p + |a + b| <= |c| && c[p..p + |a + b|] == a + b
    ensures c[p..p + |a|] == a && c[p + |a|..p + |a + b|] == b
  {
    assert c[p..p + |a + b|][..|a|] == a && c[p..p + |a + b|][|a|..] == b;
  }

  lemma PrependRest(s: seq<byte>)
    requires s != []
    ensures Prepend([s[0]], Done(s[1..])) == Done(s)
  {
  }

  /** String round trip: parsing what was printed gives the string back, and stops at the closing quote. */
  lemma {:induction false} EscapeDecodes(c: seq<byte>, p: nat, s: seq<byte>)
    requires NoNul(s) && p + |Escape(s)| < |c| && c[p..p + |Escape(s)|] == Escape(s) && c[p + |Escape(s)|] == QUOTE
    ensures Reaches(c, p, p + |Escape(s)|) && Decode(c, p, p + |Escape(s)|) == Done(s)
    decreases |s|
  {
    hide EscapeByte;
    if s != [] {
      var e, rest := EscapeByte(s[0]), Escape(s[1..]);
      var n, end := |e|, p + |Escape(s)|;
      assert Escape(s) == e + rest;
      hide Escape, Reaches, Decode;
      SplitAt(c, p, e, rest);
      EscapeDecodes(c, p + n, s[1..]);
      OneEscape(c, p, s[0], end);
      PrependRest(s);
    }
  }
}
