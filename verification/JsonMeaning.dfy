/**
 * What a JSON text means to the C parser: its grammar, said with the places of its pieces, and the proof that the
 * parser decides it. Every quirk of the parser is in the grammar.
 */
module JsonMeaning {
  import opened Words
  import opened JsonString
  import opened Json
  import opened Slices

  // ----- code units -----

  /** `b` is the digit for `d`, in lower or upper case. */
  predicate DigitFor(b: byte, d: int)
  {
    0 <= d < 16 && (b == "0123456789abcdef"[d] as int || b == "0123456789ABCDEF"[d] as int)
  }

  ghost predicate SomeDigit(b: byte) { exists d :: 0 <= d < 16 && DigitFor(b, d) }

  /** Four digits spell a code unit; four bytes that are not all digits count as 0. */
  ghost predicate UnitAt(c: seq<byte>, p: nat, v: nat)
  {
    && p + 4 <= |c|
    && if SomeDigit(c[p]) && SomeDigit(c[p + 1]) && SomeDigit(c[p + 2]) && SomeDigit(c[p + 3]) then
         && v < 0x1_0000 && DigitFor(c[p], v / 0x1000) && DigitFor(c[p + 1], v / 0x100 % 0x10)
         && DigitFor(c[p + 2], v / 0x10 % 0x10) && DigitFor(c[p + 3], v % 0x10)
       else v == 0
  }

  lemma DigitExactly(b: byte, d: int)
    ensures DigitFor(b, d) <==> HexDigit(b) == d && d >= 0
  {
  }

  lemma SomeExactly(b: byte)
    ensures SomeDigit(b) <==> HexDigit(b) >= 0
    ensures HexDigit(b) < 16
  {
    hide DigitFor, HexDigit;
    DigitExactly(b, HexDigit(b));
    forall d | 0 <= d < 16 ensures DigitFor(b, d) <==> HexDigit(b) == d && d >= 0 { DigitExactly(b, d); }
    DigitBound(b);
  }

  lemma DigitBound(b: byte)
    ensures HexDigit(b) < 16
  {
  }

  lemma FourDigits(w: nat, x: nat, y: nat, z: nat)
    requires w < 16 && x < 16 && y < 16 && z < 16
    ensures var v := 0x1000 * w + 0x100 * x + 0x10 * y + z;
      v < 0x1_0000 && v / 0x1000 == w && v / 0x100 % 0x10 == x && v / 0x10 % 0x10 == y && v % 0x10 == z
  {
    var v := 0x1000 * w + 0x100 * x + 0x10 * y + z;
    DivModUnique(v, 0x1000, w, 0x100 * x + 0x10 * y + z);
    DivModUnique(v, 0x100, 0x10 * w + x, 0x10 * y + z);
    DivModUnique(v, 0x10, 0x100 * w + 0x10 * x + y, z);
    DivModUnique(0x10 * w + x, 0x10, w, x);
    DivModUnique(0x100 * w + 0x10 * x + y, 0x10, 0x10 * w + x, y);
  }

  lemma DigitsJoin(v: nat)
    requires v < 0x1_0000
    ensures v == 0x1000 * (v / 0x1000) + 0x100 * (v / 0x100 % 0x10) + 0x10 * (v / 0x10 % 0x10) + v % 0x10
  {
    var a, b, d := v / 0x10, v / 0x100, v / 0x1000;
    DivDiv(v, 0x10, 0x10);
    DivDiv(v, 0x100, 0x10);
    Parts(v, 0x10);
    Parts(a, 0x10);
    Parts(b, 0x10);
  }

  lemma Parts(v: nat, m: nat)
    requires m > 0
    ensures v == m * (v / m) + v % m
  {
  }

  lemma UnitExactly(c: seq<byte>, p: nat, v: nat)
    requires p + 4 <= |c|
    ensures UnitAt(c, p, v) <==> Hex4(c[p..p + 4]) == v
  {
    hide DigitFor, HexDigit, SomeDigit;
    var a, b, d, e := HexDigit(c[p]), HexDigit(c[p + 1]), HexDigit(c[p + 2]), HexDigit(c[p + 3]);
    SomeExactly(c[p]);
    SomeExactly(c[p + 1]);
    SomeExactly(c[p + 2]);
    SomeExactly(c[p + 3]);
    DigitExactly(c[p], v / 0x1000);
    DigitExactly(c[p + 1], v / 0x100 % 0x10);
    DigitExactly(c[p + 2], v / 0x10 % 0x10);
    DigitExactly(c[p + 3], v % 0x10);
    if a >= 0 && b >= 0 && d >= 0 && e >= 0 {
      FourDigits(a, b, d, e);
      if v < 0x1_0000 {
        DigitsJoin(v);
      }
    }
  }

  // ----- code points -----

  predicate Tail(b: int) { 0x80 <= b < 0xc0 }

  /** The UTF-8 form of a code point, in as few bytes as it takes (section 3 of RFC 3629). */
  predicate IsUtf8(bs: seq<byte>, v: nat)
  {
    if |bs| == 1 then v < 0x80 && bs[0] == v
    else if |bs| == 2 then
      var a: int, b: int := bs[0], bs[1];
      0x80 <= v < 0x800 && a >= 0xc0 && Tail(b) && v == 0x40 * (a - 0xc0) + (b - 0x80)
    else if |bs| == 3 then
      var a: int, b: int, d: int := bs[0], bs[1], bs[2];
      && 0x800 <= v < 0x1_0000 && a >= 0xe0 && Tail(b) && Tail(d)
      && v == 0x1000 * (a - 0xe0) + 0x40 * (b - 0x80) + (d - 0x80)
    else
      && |bs| == 4
      && var a: int, b: int, d: int, e: int := bs[0], bs[1], bs[2], bs[3];
         && 0x1_0000 <= v <= 0x10_ffff && a >= 0xf0 && Tail(b) && Tail(d) && Tail(e)
         && v == 0x4_0000 * (a - 0xf0) + 0x1000 * (b - 0x80) + 0x40 * (d - 0x80) + (e - 0x80)
  }

  lemma Utf8Is(v: nat)
    requires v <= 0x10_ffff
    ensures IsUtf8(Utf8(v), v)
  {
    var a, b := v / 0x40, v / 0x1000;
    assert b == a / 0x40 && v / 0x4_0000 == b / 0x40;
    assert v == 0x40 * a + v % 0x40 && a == 0x40 * b + a % 0x40 && b == 0x40 * (b / 0x40) + b % 0x40;
  }

  /** The last six bits of a number taken off, once, twice and three times. */
  lemma SixBits(v: nat, h: nat, x: nat)
    requires v == 0x40 * h + x && x < 0x40
    ensures v / 0x40 == h && v % 0x40 == x && v / 0x1000 == h / 0x40 && v / 0x4_0000 == h / 0x1000
  {
  }

  lemma Utf8Only(s: seq<byte>, v: nat)
    requires IsUtf8(s, v)
    ensures v <= 0x10_ffff && s == Utf8(v)
  {
    if |s| == 2 {
      var a: int, b: int := s[0], s[1];
      SixBits(v, a - 0xc0, b - 0x80);
      assert s == [a, b];
    } else if |s| == 3 {
      var a: int, b: int, d: int := s[0], s[1], s[2];
      var h := 0x40 * (a - 0xe0) + (b - 0x80);
      SixBits(v, h, d - 0x80);
      SixBits(h, a - 0xe0, b - 0x80);
      assert s == [a, b, d];
    } else if |s| == 4 {
      var a: int, b: int, d: int, e: int := s[0], s[1], s[2], s[3];
      var h := 0x40 * (a - 0xf0) + (b - 0x80);
      var g := 0x40 * h + (d - 0x80);
      SixBits(v, g, e - 0x80);
      SixBits(g, h, d - 0x80);
      SixBits(h, a - 0xf0, b - 0x80);
      assert s == [a, b, d, e];
    }
  }

  lemma Utf8Exactly(s: seq<byte>, v: nat)
    requires v <= 0x10_ffff
    ensures IsUtf8(s, v) <==> s == Utf8(v)
  {
    hide IsUtf8, Utf8;
    Utf8Is(v);
    if IsUtf8(s, v) {
      Utf8Only(s, v);
    }
  }

  // ----- the closing quote -----

  /** How many backslashes stand right in front of `p`, from `start` on. */
  function Backslashes(c: seq<byte>, start: nat, p: nat): nat
    requires p <= |c|
    decreases p
  {
    if p > start && c[p - 1] == 0x5c then 1 + Backslashes(c, start, p - 1) else 0
  }

  /** A quote with an even number of backslashes in front of it, the first such. */
  ghost predicate ClosesAt(c: seq<byte>, start: nat, end: nat)
  {
    && start <= end < |c| && c[end] == 0x22 && Backslashes(c, start, end) % 2 == 0
    && forall q :: start <= q < end && c[q] == 0x22 ==> Backslashes(c, start, q) % 2 == 1
  }

  /** Beginning behind a pair that opens with a backslash changes no parity. */
  lemma {:induction false} PairParity(c: seq<byte>, p: nat, q: nat)
    requires p + 2 <= q <= |c| && c[p] == 0x5c
    ensures Backslashes(c, p, q) % 2 == Backslashes(c, p + 2, q) % 2
    decreases q
  {
    if q > p + 2 && c[q - 1] == 0x5c {
      PairParity(c, p, q - 1);
    } else if q == p + 2 {
      assert Backslashes(c, p, p + 1) == 1 + Backslashes(c, p, p);
    }
  }

  lemma {:induction false} OtherParity(c: seq<byte>, p: nat, q: nat)
    requires p + 1 <= q <= |c| && c[p] != 0x5c
    ensures Backslashes(c, p, q) == Backslashes(c, p + 1, q)
    decreases q
  {
    if q > p + 1 && c[q - 1] == 0x5c {
      OtherParity(c, p, q - 1);
    }
  }

  lemma {:induction false} SizeExactly(c: seq<byte>, p: nat, skipped: nat, end: nat)
    ensures Size(c, p, skipped).Sized? && Size(c, p, skipped).end == end <==> ClosesAt(c, p, end)
    decreases |c| - p
  {
    if p < |c| && c[p] != 0x22 {
      var n := if c[p] == 0x5c then 2 else 1;
      if p + n <= |c| {
        SizeExactly(c, p + n, if n == 2 then skipped + 1 else skipped, end);
        forall q | p + n <= q < |c| ensures Backslashes(c, p, q) % 2 == Backslashes(c, p + n, q) % 2 {
          if n == 2 {
            PairParity(c, p, q);
          } else {
            OtherParity(c, p, q);
          }
        }
        assert n == 2 ==> Backslashes(c, p, p + 1) == 1 + Backslashes(c, p, p);
      }
    } else if p < |c| {
      assert Backslashes(c, p, p) == 0;
    }
  }

  // ----- string literals -----

  /** What the character behind a backslash stands for. */
  predicate EscapeFor(e: byte, b: byte)
  {
    || (e == 0x62 && b == 8) || (e == 0x66 && b == 12) || (e == 0x6e && b == 10) || (e == 0x72 && b == 13)
    || (e == 0x74 && b == 9) || (e == 0x22 && b == 0x22) || (e == 0x5c && b == 0x5c) || (e == 0x2f && b == 0x2f)
  }

  /** The two halves of a surrogate pair. */
  ghost predicate HalvesAt(c: seq<byte>, p: nat, h: nat, l: nat, v: nat)
  {
    && UnitAt(c, p + 2, h) && UnitAt(c, p + 8, l) && 0xd800 <= h < 0xdc00 <= l < 0xe000
    && v == 0x1_0000 + 0x400 * (h - 0xd800) + (l - 0xdc00)
  }

  /** A code point that is no half of a surrogate pair, or both halves of one, in \u escapes from `p` to `next`. */
  ghost predicate CodeAt(c: seq<byte>, p: nat, next: nat, end: nat, v: nat)
  {
    && next <= end <= |c| && p + 6 <= |c| && c[p] == 0x5c && c[p + 1] == 0x75
    && if v < 0x1_0000 then UnitAt(c, p + 2, v) && !(0xd800 <= v < 0xe000) && next == p + 6
       else
         && p + 12 <= |c| && c[p + 6] == 0x5c && c[p + 7] == 0x75 && next == p + 12
         && exists h: nat, l: nat :: HalvesAt(c, p, h, l, v)
  }

  /** One character or escape from `p` to `next`, and the bytes it stands for. */
  ghost predicate PieceAt(c: seq<byte>, p: nat, next: nat, end: nat, bs: seq<byte>)
  {
    && p < end < |c|
    && (|| (c[p] != 0x5c && next == p + 1 && bs == [c[p]])
        || (c[p] == 0x5c && next == p + 2 && |bs| == 1 && EscapeFor(c[p + 1], bs[0]))
        || exists v: nat :: v <= 0x10_ffff && CodeAt(c, p, next, end, v) && IsUtf8(bs, v))
  }

  /** Pieces up to `end`, and the bytes they stand for; the last may take the byte at `end`. */
  ghost predicate PiecesAt(c: seq<byte>, p: nat, end: nat, bs: seq<byte>)
    decreases |c| - p
  {
    if p >= end then bs == []
    else
      end < |c| && exists next: nat, n: nat ::
        p < next <= |c| && n <= |bs| && PieceAt(c, p, next, end, bs[..n]) && PiecesAt(c, next, end, bs[n..])
  }

  lemma EscapeExactly(e: byte, b: byte)
    ensures EscapeFor(e, b) <==> Simple(e) == b
  {
  }

  lemma CodeExactly(c: seq<byte>, p: nat, next: nat, end: nat, v: nat)
    requires p < end < |c| && c[p] == 0x5c && c[p + 1] == 0x75
    ensures CodeAt(c, p, next, end, v) <==>
      Utf16(c, p, end).Literal? && v == Utf16(c, p, end).code && next == p + Utf16(c, p, end).length
  {
    hide UnitAt, Hex4;
    if p + 6 <= end {
      var a, b := p + 2, p + 8;
      var h := Hex4(c[p + 2..p + 6]);
      forall u: nat ensures UnitAt(c, a, u) <==> u == h { UnitExactly(c, a, u); }
      if p + 12 <= end {
        var l := Hex4(c[p + 8..p + 12]);
        forall u: nat ensures UnitAt(c, b, u) <==> u == l { UnitExactly(c, b, u); }
        assert Utf16(c, p, end).Literal? && Utf16(c, p, end).length == 12 ==>
          HalvesAt(c, p, h, l, Utf16(c, p, end).code);
      }
    }
  }

  /** The piece the decoding pass takes at `p`, if any. */
  ghost predicate Takes(c: seq<byte>, p: nat, end: nat, next: nat, b: seq<byte>)
    requires p < end < |c|
  {
    if c[p] != BACKSLASH then next == p + 1 && b == [c[p]]
    else if c[p + 1] == 0x75 then
      var r := Utf16(c, p, end);
      r.Literal? && next == p + r.length && b == Utf8(r.code)
    else Simple(c[p + 1]) >= 0 && next == p + 2 && b == [Simple(c[p + 1])]
  }

  lemma PieceExactly(c: seq<byte>, p: nat, next: nat, end: nat, b: seq<byte>)
    requires p < end < |c|
    ensures PieceAt(c, p, next, end, b) <==> Takes(c, p, end, next, b)
  {
    hide CodeAt, IsUtf8, Utf16, Utf8, EscapeFor, Simple;
    if c[p] == BACKSLASH && c[p + 1] == 0x75 {
      NoEscape(0x75);
      forall v: nat | v <= 0x10_ffff
        ensures CodeAt(c, p, next, end, v) && IsUtf8(b, v) <==>
          Utf16(c, p, end).Literal? && v == Utf16(c, p, end).code && next == p + Utf16(c, p, end).length && b == Utf8(v)
      {
        CodeExactly(c, p, next, end, v);
        Utf8Exactly(b, v);
      }
    } else {
      forall v: nat ensures !CodeAt(c, p, next, end, v) { NoCode(c, p, next, end, v); }
      var e := c[p + 1];
      forall x: byte ensures EscapeFor(e, x) <==> Simple(e) == x { EscapeExactly(e, x); }
    }
  }

  lemma NoEscape(e: byte)
    requires e == 0x75
    ensures forall b :: !EscapeFor(e, b)
  {
  }

  lemma NoCode(c: seq<byte>, p: nat, next: nat, end: nat, v: nat)
    requires p + 1 < |c| && !(c[p] == 0x5c && c[p + 1] == 0x75)
    ensures !CodeAt(c, p, next, end, v)
  {
  }

  lemma TakesOne(c: seq<byte>, p: nat, end: nat)
    requires p < end < |c| && Decode(c, p, end).Done?
    ensures var bs := Decode(c, p, end).bytes;
      exists next: nat, n: nat ::
        p < next <= |c| && n <= |bs| && Takes(c, p, end, next, bs[..n]) && Decode(c, next, end) == Done(bs[n..])
  {
    hide Utf16, Simple, Utf8;
    var d := Decode(c, p, end);
    var b := if c[p] != BACKSLASH then [c[p]] else if c[p + 1] == 0x75 then Utf8(Utf16(c, p, end).code)
      else [Simple(c[p + 1])];
    var next := if c[p] != BACKSLASH then p + 1 else if c[p + 1] == 0x75 then p + Utf16(c, p, end).length else p + 2;
    assert d.bytes[..|b|] == b;
    assert Decode(c, next, end).Done? && d.bytes[|b|..] == Decode(c, next, end).bytes;
    assert Takes(c, p, end, next, d.bytes[..|b|]);
  }

  lemma TakesUnique(c: seq<byte>, p: nat, end: nat, next: nat, b: seq<byte>)
    requires p < end < |c| && Takes(c, p, end, next, b) && next <= |c|
    ensures p < next && Decode(c, p, end) == Prepend(b, Decode(c, next, end))
  {
    hide Utf16, Simple, Utf8;
  }

  /** The decoding pass gives what the pieces stand for, and fails where there are none. */
  lemma {:induction false} PiecesExactly(c: seq<byte>, p: nat, end: nat, bs: seq<byte>)
    requires end < |c|
    ensures Decode(c, p, end) == Done(bs) <==> PiecesAt(c, p, end, bs)
    decreases |c| - p
  {
    hide PieceAt, Takes;
    if p < end {
      if PiecesAt(c, p, end, bs) {
        var next: nat, n: nat :|
          p < next <= |c| && n <= |bs| && PieceAt(c, p, next, end, bs[..n]) && PiecesAt(c, next, end, bs[n..]);
        PieceExactly(c, p, next, end, bs[..n]);
        TakesUnique(c, p, end, next, bs[..n]);
        PiecesExactly(c, next, end, bs[n..]);
        assert bs == bs[..n] + bs[n..];
      }
      if Decode(c, p, end) == Done(bs) {
        TakesOne(c, p, end);
        var next: nat, n: nat :|
          p < next <= |c| && n <= |bs| && Takes(c, p, end, next, bs[..n]) && Decode(c, next, end) == Done(bs[n..]);
        PieceExactly(c, p, next, end, bs[..n]);
        PiecesExactly(c, next, end, bs[n..]);
      }
    }
  }

  /** A string literal from `i` to behind its closing quote: the bytes it stands for, up to the first NUL. */
  ghost predicate StringAt(c: seq<byte>, i: nat, j: nat, s: seq<byte>)
  {
    && i + 1 < j <= |c| && c[i] == 0x22 && ClosesAt(c, i + 1, j - 1)
    && exists bs: seq<byte> :: PiecesAt(c, i + 1, j - 1, bs) && CutAtNul(bs, s)
  }

  ghost predicate CutAtNul(bs: seq<byte>, s: seq<byte>)
  {
    s <= bs && (forall k :: 0 <= k < |s| ==> s[k] != 0) && (|s| < |bs| ==> bs[|s|] == 0)
  }

  lemma {:induction false} CutExactly(bs: seq<byte>, s: seq<byte>)
    ensures CutAtNul(bs, s) <==> s == CView(bs)
  {
    if bs != [] {
      if bs[0] == 0 {
        assert s != [] && s <= bs ==> s[0] == 0;
      } else {
        if s != [] {
          CutExactly(bs[1..], s[1..]);
          assert s <= bs && s[0] == bs[0] ==> s[1..] <= bs[1..];
          assert s[1..] <= bs[1..] && s[0] == bs[0] ==> s == [bs[0]] + s[1..] && s <= bs;
          assert forall k :: 0 < k < |s| ==> s[k] == s[1..][k - 1];
          assert forall k :: 0 <= k < |s| - 1 ==> s[1..][k] == s[k + 1];
        }
      }
    }
  }

  lemma StringExactly(c: seq<byte>, i: nat, j: nat, s: seq<byte>)
    ensures ParseString(c, i) == Parsed(s, j) <==> StringAt(c, i, j, s)
  {
    hide Size, Decode, CView, CutAtNul, PiecesAt, ClosesAt;
    if i < |c| && c[i] == QUOTE {
      var r := Size(c, i + 1, 0);
      if r.Sized? {
        SizeExactly(c, i + 1, 0, r.end);
      }
      if i + 1 < j <= |c| {
        SizeExactly(c, i + 1, 0, j - 1);
        forall bs: seq<byte>
          ensures PiecesAt(c, i + 1, j - 1, bs) && CutAtNul(bs, s) <==>
            Decode(c, i + 1, j - 1) == Done(bs) && s == CView(bs)
        {
          PiecesExactly(c, i + 1, j - 1, bs);
          CutExactly(bs, s);
        }
      }
    }
  }

  // ----- numbers -----

  /** A row of decimal digits, the last of them the units. */
  ghost predicate Spells(t: seq<byte>, v: nat)
  {
    t != [] && t[|t| - 1] == 0x30 + v % 10 && if |t| == 1 then v < 10 else Spells(t[..|t| - 1], v / 10)
  }

  /** Digits, possibly behind a minus sign. */
  ghost predicate SpellsSigned(t: seq<byte>, v: int)
  {
    if t != [] && t[0] == 0x2d then v <= 0 && Spells(t[1..], -v) else v >= 0 && Spells(t, v)
  }

  predicate NumberByte(b: byte) { 0x30 <= b <= 0x39 || b == 0x2b || b == 0x2d || b == 0x2e || b == 0x45 || b == 0x65 }

  /** The digits, signs, points and exponent letters from `i` on, but no more than 63 of them. */
  ghost predicate RunAt(c: seq<byte>, i: nat, j: nat)
  {
    && i <= j <= |c| && j - i <= 63 && (forall k :: i <= k < j ==> NumberByte(c[k]))
    && (j - i < 63 && j < |c| ==> !NumberByte(c[j]))
  }

  /**
   * What the characters of a number mean. A row of digits is taken as a whole and is its value; of anything else the
   * library function `strtod` says how much is a number. What is no 32-bit integer is kept as text.
   */
  ghost predicate NumberIs(run: seq<byte>, length: int, v: Json, strtod: Strtod)
  {
    if exists n :: SpellsSigned(run, n) then
      && length == |run|
      && if v.Number? then SpellsSigned(run, v.n)
         else v == OtherNumber(run) && exists n :: SpellsSigned(run, n) && !(-0x8000_0000 <= n < 0x8000_0000)
    else 0 < strtod(run) <= |run| && length == strtod(run) && v == OtherNumber(run[..length])
  }

  ghost predicate NumberAt(c: seq<byte>, i: nat, j: nat, v: Json, strtod: Strtod)
  {
    exists e: nat :: RunAt(c, i, e) && NumberIs(c[i..e], j - i, v, strtod)
  }

  lemma {:induction false} RunExactly(c: seq<byte>, o: nat, room: nat)
    requires o <= |c|
    ensures var r := NumberRun(c, o, room);
      && r == c[o..o + |r|] && (forall k :: o <= k < o + |r| ==> NumberByte(c[k]))
      && (|r| < room && o + |r| < |c| ==> !NumberByte(c[o + |r|]))
    decreases room
  {
    if room > 0 && o < |c| && InNumber(c[o]) {
      RunExactly(c, o + 1, room - 1);
    }
  }

  lemma RunUnique(c: seq<byte>, i: nat, e: nat)
    requires i <= |c|
    ensures RunAt(c, i, e) <==> e == i + |NumberRun(c, i, 63)|
  {
    RunExactly(c, i, 63);
  }

  lemma {:induction false} SpellsExactly(t: seq<byte>, v: nat)
    requires t != [] && AllDigits(t)
    ensures DigitsValue(t) >= 0
    ensures Spells(t, v) <==> DigitsValue(t) == v
  {
    var last, init := t[|t| - 1], t[..|t| - 1];
    assert IsDigit(last);
    if |t| == 1 {
      assert init == [] && DigitsValue([]) == 0;
    } else {
      assert forall k :: 0 <= k < |init| ==> init[k] == t[k];
      SpellsExactly(init, v / 10);
      SpellsExactly(init, DigitsValue(init));
      TenTimes(DigitsValue(init), last - 0x30, v);
    }
  }

  lemma TenTimes(q: nat, d: nat, v: nat)
    requires d < 10
    ensures 10 * q + d == v <==> v / 10 == q && v % 10 == d
  {
  }

  lemma SignedExactly(t: seq<byte>, v: int)
    requires IsDecimal(t)
    ensures SpellsSigned(t, v) <==> DecimalValue(t) == v
  {
    if t[0] == 0x2d {
      SpellsExactly(t[1..], if v <= 0 then -v else 0);
    } else {
      SpellsExactly(t, if v >= 0 then v else 0);
    }
    hide DigitsValue, Spells;
  }

  lemma {:induction false} SpelledDigits(t: seq<byte>, v: nat)
    requires Spells(t, v)
    ensures AllDigits(t)
  {
    if |t| > 1 {
      SpelledDigits(t[..|t| - 1], v / 10);
      forall k | 0 <= k < |t| ensures IsDigit(t[k]) {
        assert k < |t| - 1 ==> t[..|t| - 1][k] == t[k];
      }
    }
  }

  lemma SpelledDecimal(t: seq<byte>, v: int)
    requires SpellsSigned(t, v)
    ensures IsDecimal(t)
  {
    hide Spells;
    if t != [] && t[0] == 0x2d {
      SpelledDigits(t[1..], -v);
      SpelledSome(t[1..], -v);
    } else {
      SpelledDigits(t, v);
      SpelledSome(t, v);
    }
  }

  lemma SpelledSome(t: seq<byte>, v: nat)
    requires Spells(t, v)
    ensures t != []
  {
  }

  lemma NumberIsExactly(run: seq<byte>, length: int, v: Json, strtod: Strtod)
    ensures NumberIs(run, length, v, strtod) <==>
      if IsDecimal(run) then
        var n := DecimalValue(run);
        length == |run| && v == if -TWO31 <= n < TWO31 then Number(n) else OtherNumber(run)
      else 0 < strtod(run) <= |run| && length == strtod(run) && v == OtherNumber(run[..length])
  {
    hide SpellsSigned, IsDecimal, DecimalValue;
    if IsDecimal(run) {
      forall n: int ensures SpellsSigned(run, n) <==> DecimalValue(run) == n { SignedExactly(run, n); }
      assert SpellsSigned(run, DecimalValue(run));
    } else {
      forall n: int ensures !SpellsSigned(run, n) {
        if SpellsSigned(run, n) {
          SpelledDecimal(run, n);
        }
      }
    }
  }

  lemma NumberExactly(c: seq<byte>, i: nat, j: nat, v: Json, strtod: Strtod)
    requires i < |c|
    ensures ParseNumber(c, i, strtod) == Parsed(v, j) <==> NumberAt(c, i, j, v, strtod)
  {
    hide SpellsSigned, IsDecimal, RunAt, DecimalValue, NumberIs, NumberRun;
    var run := NumberRun(c, i, 63);
    RunExactly(c, i, 63);
    var e := i + |run|;
    RunUnique(c, i, e);
    forall x: nat ensures RunAt(c, i, x) <==> x == e { RunUnique(c, i, x); }
    NumberIsExactly(run, j - i, v, strtod);
    assert RunAt(c, i, e) && c[i..e] == run;
  }

  // ----- values -----

  /** White space: every byte up to the blank, NUL among them. */
  ghost predicate Blank(c: seq<byte>, i: nat, j: nat)
  {
    i <= j <= |c| && forall k :: i <= k < j ==> c[k] <= 0x20
  }

  /** The characters of a word. */
  ghost predicate WordAt(c: seq<byte>, i: nat, j: nat, w: string)
  {
    i + |w| == j <= |c| && forall k :: 0 <= k < |w| ==> c[i + k] == w[k] as int
  }

  /** A value inside `depth` brackets. */
  ghost predicate ValueAt(c: seq<byte>, i: nat, j: nat, v: Json, depth: nat, strtod: Strtod)
    decreases v, 1, 0, 0
  {
    && i < j <= |c|
    && match v
       case Null => WordAt(c, i, j, "null")
       case False => WordAt(c, i, j, "false")
       case True => WordAt(c, i, j, "true")
       case Number(_) => (c[i] == 0x2d || 0x30 <= c[i] <= 0x39) && NumberAt(c, i, j, v, strtod)
       case OtherNumber(_) => (c[i] == 0x2d || 0x30 <= c[i] <= 0x39) && NumberAt(c, i, j, v, strtod)
       case String(s) => StringAt(c, i, j, s)
       case Array(items) =>
         && depth < 1000 && c[i] == 0x5b
         && if items == [] then Blank(c, i + 1, j - 1) && c[j - 1] == 0x5d
            else ItemsAt(c, i, j, v, 0, depth + 1, strtod)
       case Object(members) =>
         && depth < 1000 && c[i] == 0x7b
         && if members == [] then Blank(c, i + 1, j - 1) && c[j - 1] == 0x7d
            else MembersAt(c, i, j, v, 0, depth + 1, strtod)
  }

  /** White space around what stands from `a` to `b`: from behind `e` to `o`. */
  ghost predicate Around(c: seq<byte>, e: nat, a: nat, b: nat, o: nat)
  {
    Blank(c, e + 1, a) && Blank(c, b, o) && o < |c|
  }

  /** Behind the bracket or comma at `e` the items from number `k` on, with commas between them, and the bracket. */
  ghost predicate ItemsAt(c: seq<byte>, e: nat, j: nat, v: Json, k: nat, depth: nat, strtod: Strtod)
    requires v.Array? && k < |v.items|
    decreases v, 0, |v.items| - k, 0
  {
    exists a: nat, b: nat, o: nat ::
      && Around(c, e, a, b, o) && ValueAt(c, a, b, v.items[k], depth, strtod)
      && if k + 1 == |v.items| then c[o] == 0x5d && j == o + 1
         else c[o] == 0x2c && ItemsAt(c, o, j, v, k + 1, depth, strtod)
  }

  /** A name from `a` to `b` and the colon at `m`. */
  ghost predicate NameAt(c: seq<byte>, e: nat, a: nat, b: nat, m: nat, name: seq<byte>)
  {
    Around(c, e, a, b, m) && StringAt(c, a, b, name) && c[m] == 0x3a
  }

  /** The same for members, a name, a colon and a value each. */
  ghost predicate MembersAt(c: seq<byte>, e: nat, j: nat, v: Json, k: nat, depth: nat, strtod: Strtod)
    requires v.Object? && k < |v.members|
    decreases v, 0, |v.members| - k, 1
  {
    exists a: nat, b: nat, m: nat ::
      NameAt(c, e, a, b, m, v.members[k].name) && ColonAt(c, m, j, v, k, depth, strtod)
  }

  /** Behind the colon at `m` the value of member `k`, and what follows. */
  ghost predicate ColonAt(c: seq<byte>, m: nat, j: nat, v: Json, k: nat, depth: nat, strtod: Strtod)
    requires v.Object? && k < |v.members|
    decreases v, 0, |v.members| - k, 0
  {
    exists x: nat, y: nat, o: nat ::
      && Around(c, m, x, y, o) && ValueAt(c, x, y, v.members[k].value, depth, strtod)
      && if k + 1 == |v.members| then c[o] == 0x7d && j == o + 1
         else c[o] == 0x2c && MembersAt(c, o, j, v, k + 1, depth, strtod)
  }

  // ----- the parser decides the grammar -----

  lemma {:induction false} SkipToExactly(c: seq<byte>, o: nat)
    requires o <= |c|
    ensures Blank(c, o, SkipTo(c, o)) && (SkipTo(c, o) < |c| ==> c[SkipTo(c, o)] > 0x20)
    decreases |c| - o
  {
    if o < |c| && c[o] <= 32 {
      SkipToExactly(c, o + 1);
    }
  }

  /** The cursor skips to a byte that is no white space exactly if there is only white space in front of it. */
  lemma SkipExactly(c: seq<byte>, o: nat, a: nat)
    requires a < |c| && c[a] > 0x20
    ensures Blank(c, o, a) <==> Skip(c, o) == a
  {
    if o < |c| {
      SkipToExactly(c, o);
    }
  }

  /** Strings begin with a quote. */
  lemma StringBegins(c: seq<byte>, i: nat, j: nat, s: seq<byte>)
    requires StringAt(c, i, j, s)
    ensures i < j <= |c| && c[i] == 0x22
  {
  }

  lemma ValueBegins(c: seq<byte>, i: nat, j: nat, v: Json, depth: nat, strtod: Strtod)
    requires ValueAt(c, i, j, v, depth, strtod)
    ensures i < j <= |c| && c[i] > 0x20
  {
    hide StringAt, NumberAt, ItemsAt, MembersAt;
    match v
    case String(s) => StringBegins(c, i, j, s);
    case Null => assert c[i + 0] == "null"[0] as int;
    case False => assert c[i + 0] == "false"[0] as int;
    case True => assert c[i + 0] == "true"[0] as int;
    case _ =>
  }

  lemma WordExactly(c: seq<byte>, i: nat, w: seq<byte>, t: string)
    requires |w| == |t| && forall k :: 0 <= k < |w| ==> w[k] == t[k] as int
    ensures At(c, i, w) <==> WordAt(c, i, i + |w|, t)
  {
    if At(c, i, w) {
      forall k | 0 <= k < |t| ensures c[i + k] == t[k] as int { AtByte(c, i, w, k); }
    }
    if WordAt(c, i, i + |w|, t) {
      assert c[i..i + |w|] == w;
    }
  }

  lemma WordsExactly(c: seq<byte>, i: nat)
    ensures At(c, i, NULL_TEXT) <==> WordAt(c, i, i + 4, "null")
    ensures At(c, i, FALSE_TEXT) <==> WordAt(c, i, i + 5, "false")
    ensures At(c, i, TRUE_TEXT) <==> WordAt(c, i, i + 4, "true")
  {
    hide At, WordAt;
    WordExactly(c, i, NULL_TEXT, "null");
    WordExactly(c, i, FALSE_TEXT, "false");
    WordExactly(c, i, TRUE_TEXT, "true");
  }

  lemma WordsEnd(c: seq<byte>, i: nat, j: nat)
    ensures WordAt(c, i, j, "null") || WordAt(c, i, j, "true") ==> j == i + 4
    ensures WordAt(c, i, j, "false") ==> j == i + 5
  {
  }

  lemma WordsBegin(c: seq<byte>, i: nat)
    ensures At(c, i, NULL_TEXT) ==> i < |c| && c[i] == 0x6e
    ensures At(c, i, FALSE_TEXT) ==> i < |c| && c[i] == 0x66
    ensures At(c, i, TRUE_TEXT) ==> i < |c| && c[i] == 0x74
  {
    if At(c, i, NULL_TEXT) {
      AtByteIn(c, i, NULL_TEXT);
    }
    if At(c, i, FALSE_TEXT) {
      AtByteIn(c, i, FALSE_TEXT);
    }
    if At(c, i, TRUE_TEXT) {
      AtByteIn(c, i, TRUE_TEXT);
    }
  }

  lemma BlankJoin(c: seq<byte>, i: nat, j: nat, k: nat)
    requires Blank(c, i, j) && j <= k
    ensures Blank(c, j, k) <==> Blank(c, i, k)
  {
  }

  /** White space that begins behind the cursor's first stop, or where the cursor began. */
  lemma SkipBlank(c: seq<byte>, o: nat)
    requires o < |c|
    ensures Blank(c, o, Skip(c, o))
  {
    SkipToExactly(c, o);
  }

  lemma ItemsFrom(c: seq<byte>, e: nat, f: nat, j: nat, v: Json, k: nat, depth: nat, strtod: Strtod)
    requires v.Array? && k < |v.items| && e <= f && Blank(c, e + 1, f + 1)
    ensures ItemsAt(c, f, j, v, k, depth, strtod) ==> ItemsAt(c, e, j, v, k, depth, strtod)
  {
    if ItemsAt(c, f, j, v, k, depth, strtod) {
      var a: nat, b: nat, o: nat :|
        && Around(c, f, a, b, o) && ValueAt(c, a, b, v.items[k], depth, strtod)
        && if k + 1 == |v.items| then c[o] == 0x5d && j == o + 1
           else c[o] == 0x2c && ItemsAt(c, o, j, v, k + 1, depth, strtod);
      BlankJoin(c, e + 1, f + 1, a);
      assert Around(c, e, a, b, o);
    }
  }

  lemma MembersFrom(c: seq<byte>, e: nat, f: nat, j: nat, v: Json, k: nat, depth: nat, strtod: Strtod)
    requires v.Object? && k < |v.members| && e <= f && Blank(c, e + 1, f + 1)
    ensures MembersAt(c, f, j, v, k, depth, strtod) ==> MembersAt(c, e, j, v, k, depth, strtod)
  {
    hide StringAt, ColonAt;
    if MembersAt(c, f, j, v, k, depth, strtod) {
      var a: nat, b: nat, m: nat :|
        NameAt(c, f, a, b, m, v.members[k].name) && ColonAt(c, m, j, v, k, depth, strtod);
      BlankJoin(c, e + 1, f + 1, a);
      assert NameAt(c, e, a, b, m, v.members[k].name);
    }
  }

  /** What the parser accepts is in the grammar. */
  lemma {:induction false} ParsedValue(c: seq<byte>, i: nat, j: nat, v: Json, depth: nat, strtod: Strtod)
    requires ParseValue(c, i, depth, strtod) == Parsed(v, j)
    ensures ValueAt(c, i, j, v, depth, strtod)
    decreases |c| - i, 1
  {
    hide At, WordAt, Blank, StringAt, ParseString, NumberAt, ParseNumber, ItemsAt, MembersAt, ParseItems, ParseMembers,
      Skip;
    WordsExactly(c, i);
    if !At(c, i, NULL_TEXT) && !At(c, i, FALSE_TEXT) && !At(c, i, TRUE_TEXT) {
      if c[i] == QUOTE {
        StringExactly(c, i, j, v.s);
      } else if c[i] == 0x2d || IsDigit(c[i]) {
        NumberKind(c, i, strtod);
        NumberExactly(c, i, j, v, strtod);
      } else if c[i] == LBRACKET {
        var first := Skip(c, i + 1);
        SkipFacts(c, i + 1);
        if c[first] == RBRACKET {
          SkipExactly(c, i + 1, first);
        } else {
          ParsedNonempty(c, first - 1, depth + 1, strtod);
          assert v.items[0..] == v.items;
          ParsedItems(c, first - 1, j, v, 0, depth + 1, strtod);
          ItemsFrom(c, i, first - 1, j, v, 0, depth + 1, strtod);
        }
      } else {
        var first := Skip(c, i + 1);
        SkipFacts(c, i + 1);
        if c[first] == RBRACE {
          SkipExactly(c, i + 1, first);
        } else {
          ParsedNonempty(c, first - 1, depth + 1, strtod);
          assert v.members[0..] == v.members;
          ParsedMembers(c, first - 1, j, v, 0, depth + 1, strtod);
          MembersFrom(c, i, first - 1, j, v, 0, depth + 1, strtod);
        }
      }
    }
  }

  lemma SkipFacts(c: seq<byte>, o: nat)
    ensures o < |c| ==> Blank(c, o, Skip(c, o)) && o <= Skip(c, o) < |c|
    ensures o >= |c| ==> Skip(c, o) == o
  {
    if o < |c| {
      SkipBlank(c, o);
    }
  }

  lemma NumberKind(c: seq<byte>, o: nat, strtod: Strtod)
    ensures ParseNumber(c, o, strtod).Parsed? ==>
      ParseNumber(c, o, strtod).value.Number? || ParseNumber(c, o, strtod).value.OtherNumber?
  {
    hide IsDecimal, DecimalValue, NumberRun;
  }

  lemma {:induction false} ParsedItems(c: seq<byte>, e: nat, j: nat, v: Json, k: nat, depth: nat, strtod: Strtod)
    requires e < |c| && v.Array? && k < |v.items|
    requires ParseItems(c, e, depth, strtod) == Parsed(v.items[k..], j)
    ensures ItemsAt(c, e, j, v, k, depth, strtod)
    decreases |c| - e, 0
  {
    hide Blank, ParseValue, ValueAt, Skip;
    SkipFacts(c, e + 1);
    var a := Skip(c, e + 1);
    var r := ParseValue(c, a, depth, strtod);
    assert r.value == v.items[k..][0] == v.items[k];
    ParsedValue(c, a, r.offset, v.items[k], depth, strtod);
    ValueBegins(c, a, r.offset, v.items[k], depth, strtod);
    SkipExactly(c, e + 1, a);
    var o := Skip(c, r.offset);
    SkipExactly(c, r.offset, o);
    if c[o] == COMMA {
      assert v.items[k..][1..] == v.items[k + 1..];
      ParsedNonempty(c, o, depth, strtod);
      ParsedItems(c, o, j, v, k + 1, depth, strtod);
    }
    assert Around(c, e, a, r.offset, o);
  }

  lemma ParsedNonempty(c: seq<byte>, e: nat, depth: nat, strtod: Strtod)
    requires e < |c|
    ensures ParseItems(c, e, depth, strtod).Parsed? ==> ParseItems(c, e, depth, strtod).value != []
    ensures ParseMembers(c, e, depth, strtod).Parsed? ==> ParseMembers(c, e, depth, strtod).value != []
  {
    hide ParseValue, ParseString, Skip;
  }

  lemma {:induction false} ParsedMembers(c: seq<byte>, e: nat, j: nat, v: Json, k: nat, depth: nat, strtod: Strtod)
    requires e < |c| && v.Object? && k < |v.members|
    requires ParseMembers(c, e, depth, strtod) == Parsed(v.members[k..], j)
    ensures MembersAt(c, e, j, v, k, depth, strtod)
    decreases |c| - e, 0
  {
    hide Blank, ParseValue, ValueAt, Skip, ParseString, StringAt;
    var member := v.members[k];
    SkipFacts(c, e + 1);
    var a := Skip(c, e + 1);
    var n := ParseString(c, a);
    StringExactly(c, a, n.offset, n.value);
    StringBegins(c, a, n.offset, n.value);
    SkipExactly(c, e + 1, a);
    var m := Skip(c, n.offset);
    SkipExactly(c, n.offset, m);
    SkipFacts(c, m + 1);
    var x := Skip(c, m + 1);
    var r := ParseValue(c, x, depth, strtod);
    assert Member(n.value, r.value) == v.members[k..][0] == member;
    ParsedValue(c, x, r.offset, r.value, depth, strtod);
    ValueBegins(c, x, r.offset, r.value, depth, strtod);
    SkipExactly(c, m + 1, x);
    var o := Skip(c, r.offset);
    SkipExactly(c, r.offset, o);
    if c[o] == COMMA {
      assert v.members[k..][1..] == v.members[k + 1..];
      ParsedNonempty(c, o, depth, strtod);
      ParsedMembers(c, o, j, v, k + 1, depth, strtod);
    }
    assert Around(c, m, x, r.offset, o);
    assert NameAt(c, e, a, n.offset, m, member.name) && ColonAt(c, m, j, v, k, depth, strtod);
  }

  /** What is in the grammar the parser accepts, and gives its value. */
  lemma {:induction false} GrammarValue(c: seq<byte>, i: nat, j: nat, v: Json, depth: nat, strtod: Strtod)
    requires ValueAt(c, i, j, v, depth, strtod)
    ensures ParseValue(c, i, depth, strtod) == Parsed(v, j)
    decreases v, 1, 0
  {
    hide At, WordAt, Blank, StringAt, ParseString, NumberAt, ParseNumber, ItemsAt, MembersAt, ParseItems, ParseMembers,
      Skip;
    WordsExactly(c, i);
    WordsBegin(c, i);
    WordsEnd(c, i, j);
    match v
    case Null =>
    case False =>
    case True =>
    case Number(_) => NumberExactly(c, i, j, v, strtod);
    case OtherNumber(_) => NumberExactly(c, i, j, v, strtod);
    case String(s) =>
      StringBegins(c, i, j, s);
      StringExactly(c, i, j, s);
    case Array(items) =>
      if items == [] {
        BlankBounds(c, i + 1, j - 1);
        SkipExactly(c, i + 1, j - 1);
      } else {
        var first := ItemsBegin(c, i, j, v, 0, depth + 1, strtod);
        GrammarItems(c, first - 1, j, v, 0, depth + 1, strtod);
        assert v.items[0..] == v.items;
      }
    case Object(members) =>
      if members == [] {
        BlankBounds(c, i + 1, j - 1);
        SkipExactly(c, i + 1, j - 1);
      } else {
        var first := MembersBegin(c, i, j, v, 0, depth + 1, strtod);
        GrammarMembers(c, first - 1, j, v, 0, depth + 1, strtod);
        assert v.members[0..] == v.members;
      }
  }

  lemma BlankBounds(c: seq<byte>, i: nat, j: nat)
    requires Blank(c, i, j)
    ensures i <= j <= |c|
  {
  }

  /** Values do not begin with a closing bracket. */
  lemma NoClosing(c: seq<byte>, i: nat, j: nat, v: Json, depth: nat, strtod: Strtod)
    requires ValueAt(c, i, j, v, depth, strtod)
    ensures i < |c| && c[i] != 0x5d
  {
    hide StringAt, NumberAt, ItemsAt, MembersAt;
    match v
    case String(s) => StringBegins(c, i, j, s);
    case Null => assert c[i + 0] == "null"[0] as int;
    case False => assert c[i + 0] == "false"[0] as int;
    case True => assert c[i + 0] == "true"[0] as int;
    case _ =>
  }

  /** Where the first item is, and that the items may be said to begin there. */
  lemma ItemsBegin(c: seq<byte>, e: nat, j: nat, v: Json, k: nat, depth: nat, strtod: Strtod) returns (first: nat)
    requires v.Array? && k < |v.items| && ItemsAt(c, e, j, v, k, depth, strtod)
    ensures e < first == Skip(c, e + 1) && first < |c| && c[first] != 0x5d
    ensures ItemsAt(c, first - 1, j, v, k, depth, strtod)
  {
    var a: nat, b: nat, o: nat :|
      && Around(c, e, a, b, o) && ValueAt(c, a, b, v.items[k], depth, strtod)
      && if k + 1 == |v.items| then c[o] == 0x5d && j == o + 1
         else c[o] == 0x2c && ItemsAt(c, o, j, v, k + 1, depth, strtod);
    ValueBegins(c, a, b, v.items[k], depth, strtod);
    NoClosing(c, a, b, v.items[k], depth, strtod);
    SkipExactly(c, e + 1, a);
    first := a;
    assert Around(c, a - 1, a, b, o);
  }

  lemma MembersBegin(c: seq<byte>, e: nat, j: nat, v: Json, k: nat, depth: nat, strtod: Strtod) returns (first: nat)
    requires v.Object? && k < |v.members| && MembersAt(c, e, j, v, k, depth, strtod)
    ensures e < first == Skip(c, e + 1) && first < |c| && c[first] != 0x7d
    ensures MembersAt(c, first - 1, j, v, k, depth, strtod)
  {
    hide StringAt, ColonAt;
    var a: nat, b: nat, m: nat :|
      NameAt(c, e, a, b, m, v.members[k].name) && ColonAt(c, m, j, v, k, depth, strtod);
    StringBegins(c, a, b, v.members[k].name);
    SkipExactly(c, e + 1, a);
    first := a;
    assert NameAt(c, a - 1, a, b, m, v.members[k].name);
  }

  lemma ItemsOpen(c: seq<byte>, e: nat, j: nat, v: Json, k: nat, depth: nat, strtod: Strtod)
    returns (a: nat, b: nat, o: nat)
    requires v.Array? && k < |v.items| && ItemsAt(c, e, j, v, k, depth, strtod)
    ensures Skip(c, e + 1) == a && ValueAt(c, a, b, v.items[k], depth, strtod) && Skip(c, b) == o && o < |c|
    ensures if k + 1 == |v.items| then c[o] == 0x5d && j == o + 1
      else c[o] == 0x2c && ItemsAt(c, o, j, v, k + 1, depth, strtod)
  {
    hide Blank, ValueAt, Skip;
    a, b, o :|
      && Around(c, e, a, b, o) && ValueAt(c, a, b, v.items[k], depth, strtod)
      && if k + 1 == |v.items| then c[o] == 0x5d && j == o + 1
         else c[o] == 0x2c && ItemsAt(c, o, j, v, k + 1, depth, strtod);
    ValueBegins(c, a, b, v.items[k], depth, strtod);
    hide ItemsAt;
    SkipExactly(c, e + 1, a);
    SkipExactly(c, b, o);
  }

  lemma ItemsStep(c: seq<byte>, e: nat, depth: nat, strtod: Strtod, item: Json, b: nat, rest: seq<Json>, j: nat)
    requires e < |c| && ParseValue(c, Skip(c, e + 1), depth, strtod) == Parsed(item, b) && Skip(c, b) < |c|
    requires if rest == [] then c[Skip(c, b)] == RBRACKET && j == Skip(c, b) + 1
      else c[Skip(c, b)] == COMMA && ParseItems(c, Skip(c, b), depth, strtod) == Parsed(rest, j)
    ensures ParseItems(c, e, depth, strtod) == Parsed([item] + rest, j)
  {
    hide ParseValue, Skip;
    assert [item] + [] == [item];
  }

  lemma {:induction false} GrammarItems(c: seq<byte>, e: nat, j: nat, v: Json, k: nat, depth: nat, strtod: Strtod)
    requires v.Array? && k < |v.items| && e < |c| && ItemsAt(c, e, j, v, k, depth, strtod)
    ensures ParseItems(c, e, depth, strtod) == Parsed(v.items[k..], j)
    decreases v, 0, |v.items| - k
  {
    hide ParseValue, ParseItems, ValueAt, Skip, ItemsAt;
    var a, b, o := ItemsOpen(c, e, j, v, k, depth, strtod);
    GrammarValue(c, a, b, v.items[k], depth, strtod);
    if k + 1 < |v.items| {
      GrammarItems(c, o, j, v, k + 1, depth, strtod);
    }
    ItemsStep(c, e, depth, strtod, v.items[k], b, v.items[k + 1..], j);
    assert v.items[k..] == [v.items[k]] + v.items[k + 1..];
  }

  lemma NameOpen(c: seq<byte>, e: nat, j: nat, v: Json, k: nat, depth: nat, strtod: Strtod)
    returns (a: nat, b: nat, m: nat)
    requires v.Object? && k < |v.members| && MembersAt(c, e, j, v, k, depth, strtod)
    ensures Skip(c, e + 1) == a && ParseString(c, a) == Parsed(v.members[k].name, b) && Skip(c, b) == m && m < |c|
    ensures c[m] == COLON && ColonAt(c, m, j, v, k, depth, strtod)
  {
    hide StringAt, ColonAt, ParseString, Skip, Blank;
    a, b, m :| NameAt(c, e, a, b, m, v.members[k].name) && ColonAt(c, m, j, v, k, depth, strtod);
    StringBegins(c, a, b, v.members[k].name);
    StringExactly(c, a, b, v.members[k].name);
    SkipExactly(c, e + 1, a);
    SkipExactly(c, b, m);
  }

  lemma ColonOpen(c: seq<byte>, m: nat, j: nat, v: Json, k: nat, depth: nat, strtod: Strtod)
    returns (x: nat, y: nat, o: nat)
    requires v.Object? && k < |v.members| && ColonAt(c, m, j, v, k, depth, strtod)
    ensures Skip(c, m + 1) == x && ValueAt(c, x, y, v.members[k].value, depth, strtod) && Skip(c, y) == o && o < |c|
    ensures if k + 1 == |v.members| then c[o] == 0x7d && j == o + 1
      else c[o] == 0x2c && MembersAt(c, o, j, v, k + 1, depth, strtod)
  {
    hide Blank, ValueAt, Skip, MembersAt;
    x, y, o :|
      && Around(c, m, x, y, o) && ValueAt(c, x, y, v.members[k].value, depth, strtod)
      && if k + 1 == |v.members| then c[o] == 0x7d && j == o + 1
         else c[o] == 0x2c && MembersAt(c, o, j, v, k + 1, depth, strtod);
    ValueBegins(c, x, y, v.members[k].value, depth, strtod);
    SkipExactly(c, m + 1, x);
    SkipExactly(c, y, o);
  }

  lemma MembersStep(c: seq<byte>, e: nat, depth: nat, strtod: Strtod, name: seq<byte>, b: nat, item: Json, y: nat,
                    rest: seq<Member>, j: nat)
    requires e < |c| && ParseString(c, Skip(c, e + 1)) == Parsed(name, b)
    requires Skip(c, b) < |c| && c[Skip(c, b)] == COLON
    requires ParseValue(c, Skip(c, Skip(c, b) + 1), depth, strtod) == Parsed(item, y) && Skip(c, y) < |c|
    requires if rest == [] then c[Skip(c, y)] == RBRACE && j == Skip(c, y) + 1
      else c[Skip(c, y)] == COMMA && ParseMembers(c, Skip(c, y), depth, strtod) == Parsed(rest, j)
    ensures ParseMembers(c, e, depth, strtod) == Parsed([Member(name, item)] + rest, j)
  {
    hide ParseValue, ParseString, Skip;
    assert [Member(name, item)] + [] == [Member(name, item)];
  }

  lemma {:induction false} GrammarMembers(c: seq<byte>, e: nat, j: nat, v: Json, k: nat, depth: nat, strtod: Strtod)
    requires v.Object? && k < |v.members| && e < |c| && MembersAt(c, e, j, v, k, depth, strtod)
    ensures ParseMembers(c, e, depth, strtod) == Parsed(v.members[k..], j)
    decreases v, 0, |v.members| - k
  {
    hide ParseValue, ParseString, ParseMembers, ValueAt, Skip, MembersAt, ColonAt;
    var a, b, m := NameOpen(c, e, j, v, k, depth, strtod);
    var x, y, o := ColonOpen(c, m, j, v, k, depth, strtod);
    var member := v.members[k];
    GrammarValue(c, x, y, member.value, depth, strtod);
    if k + 1 < |v.members| {
      GrammarMembers(c, o, j, v, k + 1, depth, strtod);
    }
    MembersStep(c, e, depth, strtod, member.name, b, member.value, y, v.members[k + 1..], j);
    assert v.members[k..] == [member] + v.members[k + 1..];
  }

  /** The parser accepts exactly the values of the grammar. */
  lemma ValueExactly(c: seq<byte>, i: nat, j: nat, v: Json, depth: nat, strtod: Strtod)
    ensures ParseValue(c, i, depth, strtod) == Parsed(v, j) <==> ValueAt(c, i, j, v, depth, strtod)
  {
    hide ParseValue, ValueAt;
    if ValueAt(c, i, j, v, depth, strtod) {
      GrammarValue(c, i, j, v, depth, strtod);
    }
    if ParseValue(c, i, depth, strtod) == Parsed(v, j) {
      ParsedValue(c, i, j, v, depth, strtod);
    }
  }

  /**
   * What stands around the value from `i` to `j` in a document: a byte order mark, if more than one byte is behind it,
   * and white space; behind it anything, or, if it is asked for, only white space that ends with a NUL.
   */
  ghost predicate Surrounded(c: seq<byte>, requireNull: bool, i: nat, j: nat, end: nat)
  {
    && Blank(c, if |c| > 4 && c[0] == 0xef && c[1] == 0xbb && c[2] == 0xbf then 3 else 0, i)
    && if requireNull then Blank(c, j, |c|) && j < |c| && c[|c| - 1] == 0 && end == |c| - 1 else end == j
  }

  ghost predicate DocumentAt(c: seq<byte>, requireNull: bool, strtod: Strtod, v: Json, end: nat)
  {
    exists i: nat, j: nat :: Surrounded(c, requireNull, i, j, end) && ValueAt(c, i, j, v, 0, strtod)
  }

  lemma LastIsNul(c: seq<byte>, j: nat)
    requires j <= |c|
    ensures Skip(c, j) < |c| && c[Skip(c, j)] == 0 <==> j < |c| && Blank(c, j, |c|) && c[|c| - 1] == 0
    ensures Skip(c, j) < |c| && c[Skip(c, j)] == 0 ==> Skip(c, j) == |c| - 1
  {
    if j < |c| {
      SkipToExactly(c, j);
    }
  }

  lemma BomExactly(c: seq<byte>)
    ensures SkipBom(c) == if |c| > 4 && c[0] == 0xef && c[1] == 0xbb && c[2] == 0xbf then 3 else 0
  {
    if |c| > 4 {
      assert c[..3] == [c[0], c[1], c[2]];
    }
  }

  /** Parsing a document: accepted exactly if it is one of the grammar, with its value. */
  lemma DocumentExactly(c: seq<byte>, requireNull: bool, strtod: Strtod, v: Json, end: nat)
    ensures Parse(c, requireNull, strtod) == Parsed(v, end) <==> DocumentAt(c, requireNull, strtod, v, end)
  {
    hide ParseValue, ValueAt, Skip, Blank, SkipBom;
    BomExactly(c);
    if DocumentAt(c, requireNull, strtod, v, end) {
      var i: nat, j: nat :| Surrounded(c, requireNull, i, j, end) && ValueAt(c, i, j, v, 0, strtod);
      ValueBegins(c, i, j, v, 0, strtod);
      SkipExactly(c, SkipBom(c), i);
      ValueExactly(c, i, j, v, 0, strtod);
      LastIsNul(c, j);
    }
    if Parse(c, requireNull, strtod) == Parsed(v, end) {
      var i := Skip(c, SkipBom(c));
      var j := ParseValue(c, i, 0, strtod).offset;
      ValueExactly(c, i, j, v, 0, strtod);
      ValueBegins(c, i, j, v, 0, strtod);
      SkipExactly(c, SkipBom(c), i);
      LastIsNul(c, j);
      assert Surrounded(c, requireNull, i, j, end);
    }
  }

  // ----- nesting -----

  /** No value of the grammar is nested more deeply than the limit. */
  lemma {:induction false} ValueNesting(c: seq<byte>, i: nat, j: nat, v: Json, depth: nat, strtod: Strtod)
    requires ValueAt(c, i, j, v, depth, strtod) && depth <= 1000
    ensures depth + Nesting(v) <= 1000
    decreases v, 1, 0
  {
    hide ItemsAt, MembersAt, StringAt, NumberAt, WordAt, Blank;
    match v
    case Array(items) =>
      if items != [] {
        ItemsNested(c, i, j, v, 0, depth + 1, strtod);
      }
    case Object(members) =>
      if members != [] {
        MembersNested(c, i, j, v, 0, depth + 1, strtod);
      }
    case _ =>
  }

  lemma {:induction false} ItemsNested(c: seq<byte>, e: nat, j: nat, v: Json, k: nat, depth: nat, strtod: Strtod)
    requires v.Array? && k < |v.items| && ItemsAt(c, e, j, v, k, depth, strtod) && depth <= 1000
    ensures depth + ItemsNesting(v, k) <= 1000
    decreases v, 0, |v.items| - k
  {
    hide ValueAt, ItemsAt;
    var a, b, o := ItemsOpen(c, e, j, v, k, depth, strtod);
    ValueNesting(c, a, b, v.items[k], depth, strtod);
    if k + 1 < |v.items| {
      ItemsNested(c, o, j, v, k + 1, depth, strtod);
    }
  }

  lemma {:induction false} MembersNested(c: seq<byte>, e: nat, j: nat, v: Json, k: nat, depth: nat, strtod: Strtod)
    requires v.Object? && k < |v.members| && MembersAt(c, e, j, v, k, depth, strtod) && depth <= 1000
    ensures depth + MembersNesting(v, k) <= 1000
    decreases v, 0, |v.members| - k
  {
    hide ValueAt, MembersAt, ColonAt;
    var a, b, m := NameOpen(c, e, j, v, k, depth, strtod);
    var x, y, o := ColonOpen(c, m, j, v, k, depth, strtod);
    ValueNesting(c, x, y, v.members[k].value, depth, strtod);
    if k + 1 < |v.members| {
      MembersNested(c, o, j, v, k + 1, depth, strtod);
    }
  }

  /** Whatever the input, what the parser returns is nested at most 1000 deep. */
  lemma NestingBounded(c: seq<byte>, requireNull: bool, strtod: Strtod)
    ensures Parse(c, requireNull, strtod).Parsed? ==> Nesting(Parse(c, requireNull, strtod).value) <= 1000
  {
    hide ValueAt, Parse;
    if Parse(c, requireNull, strtod).Parsed? {
      var r := Parse(c, requireNull, strtod);
      DocumentExactly(c, requireNull, strtod, r.value, r.offset);
      var i: nat, j: nat :| Surrounded(c, requireNull, i, j, r.offset) && ValueAt(c, i, j, r.value, 0, strtod);
      ValueNesting(c, i, j, r.value, 0, strtod);
    }
  }
}
