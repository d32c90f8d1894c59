/** What the pieces of the payload's reader and writer do, said of single bytes and numbers. */
module PayloadMeaning {
  import opened Words
  import opened Ebpf
  import opened JsonString
  import opened Json
  import opened Payload
  import M = JsonMeaning
  import opened PrintMeaning

  // ----- names -----

  /** A letter A to Z and the same letter a to z. */
  predicate CasePair(upper: byte, lower: byte) { 0x41 <= upper <= 0x5a && lower == upper + 0x20 }

  predicate SameName(s: seq<byte>, t: seq<byte>)
  {
    |s| == |t| && forall i :: 0 <= i < |s| ==> s[i] == t[i] || CasePair(s[i], t[i]) || CasePair(t[i], s[i])
  }

  lemma LowerExactly(a: byte, b: byte)
    ensures ToLower(a) == ToLower(b) <==> a == b || CasePair(a, b) || CasePair(b, a)
  {
  }

  lemma {:induction false} LowerAt(s: seq<byte>, i: nat)
    requires i < |s|
    ensures Lower(s)[i] == ToLower(s[i])
  {
    if i > 0 {
      LowerAt(s[1..], i - 1);
    }
  }

  lemma NamesExactly(s: seq<byte>, t: seq<byte>)
    ensures Lower(s) == Lower(t) <==> SameName(s, t)
  {
    hide Lower, ToLower, CasePair;
    if |s| == |t| {
      forall i | 0 <= i < |s|
        ensures Lower(s)[i] == Lower(t)[i] <==> s[i] == t[i] || CasePair(s[i], t[i]) || CasePair(t[i], s[i])
      {
        LowerAt(s, i);
        LowerAt(t, i);
        LowerExactly(s[i], t[i]);
      }
      if SameName(s, t) {
        assert forall i :: 0 <= i < |s| ==> Lower(s)[i] == Lower(t)[i];
      }
    }
  }

  ghost predicate NoneBefore(ms: seq<Member>, name: seq<byte>, k: nat)
    requires k <= |ms|
  {
    forall i :: 0 <= i < k ==> !SameName(ms[i].name, name)
  }

  /** What is found is the value of the first member whose name differs in the case of letters at most. */
  lemma {:induction false} ItemExactly(ms: seq<Member>, name: seq<byte>)
    ensures match Item(ms, name)
      case None => forall k :: 0 <= k < |ms| ==> !SameName(ms[k].name, name)
      case Some(v) =>
        exists k :: 0 <= k < |ms| && SameName(ms[k].name, name) && v == ms[k].value && NoneBefore(ms, name, k)
  {
    hide SameName, Lower;
    if ms != [] {
      NamesExactly(ms[0].name, name);
      ItemExactly(ms[1..], name);
      if !SameName(ms[0].name, name) && Item(ms, name).Some? {
        var k :| 0 <= k < |ms| - 1 && SameName(ms[1..][k].name, name) && Item(ms, name).value == ms[1..][k].value
          && NoneBefore(ms[1..], name, k);
        forall i | 0 <= i < k + 1 ensures !SameName(ms[i].name, name) {
          assert i > 0 ==> ms[i] == ms[1..][i - 1];
        }
        assert ms[k + 1] == ms[1..][k];
      }
      forall i | 0 < i < |ms| ensures ms[i] == ms[1..][i - 1] {}
    }
  }

  /** An entry of a dictionary is replaced where its name stands first, or added behind all others. */
  lemma {:induction false} UpdateExactly(ms: seq<Member>, m: Member, k: nat)
    requires k <= |ms| && (forall i :: 0 <= i < k ==> ms[i].name != m.name) && (k < |ms| ==> ms[k].name == m.name)
    ensures Update(ms, m) == if k < |ms| then ms[k := m] else ms + [m]
  {
    if k > 0 {
      UpdateExactly(ms[1..], m, k - 1);
      assert ms == [ms[0]] + ms[1..];
    }
  }

  lemma KeysSpelled()
    ensures |EBPF_PATCH| == 10 && forall k :: 0 <= k < 10 ==> EBPF_PATCH[k] == "ebpf_patch"[k] as int
    ensures |EBPF_PATCH_LEN| == 14 && forall k :: 0 <= k < 14 ==> EBPF_PATCH_LEN[k] == "ebpf_patch_len"[k] as int
    ensures |NAME| == 4 && forall k :: 0 <= k < 4 ==> NAME[k] == "name"[k] as int
  {
  }

  // ----- numbers -----

  /** The integer field of an item: its value, held inside the range of an int; 1 for true and 0 for other items. */
  lemma ValueIntMeans(j: Json)
    ensures j.Number? ==> ValueInt(j) == Some(j.n)
    ensures !j.Number? && !j.OtherNumber? ==> ValueInt(j) == Some(if j.True? then 1 else 0)
    ensures j.OtherNumber? ==> forall n :: M.SpellsSigned(j.text, n) ==>
      ValueInt(j) == Some(if n > 0x7fff_ffff then 0x7fff_ffff else if n < -0x8000_0000 then -0x8000_0000 else n)
    ensures j.OtherNumber? && (forall n :: !M.SpellsSigned(j.text, n)) ==> ValueInt(j).None?
  {
    hide M.SpellsSigned, IsDecimal, DecimalValue;
    if j.OtherNumber? {
      forall n | M.SpellsSigned(j.text, n) ensures IsDecimal(j.text) && DecimalValue(j.text) == n {
        M.SpelledDecimal(j.text, n);
        M.SignedExactly(j.text, n);
      }
      if IsDecimal(j.text) {
        M.SignedExactly(j.text, DecimalValue(j.text));
      }
    }
  }

  /** Hexadecimal digits in either case, the last of them the units; none is 0. */
  ghost predicate SpellsHex(t: seq<byte>, v: nat)
  {
    if t == [] then v == 0 else M.DigitFor(t[|t| - 1], v % 16) && SpellsHex(t[..|t| - 1], v / 16)
  }

  ghost predicate AllHex(s: seq<byte>, i: nat, j: nat)
  {
    i <= j <= |s| && forall k :: i <= k < j ==> M.SomeDigit(s[k])
  }

  predicate Space(b: byte) { b == 0x20 || b == 0x09 || b == 0x0a || b == 0x0b || b == 0x0c || b == 0x0d }

  /** A 0x or 0X in front of a digit. */
  ghost predicate PrefixAt(t: seq<byte>, i: nat)
  {
    i + 2 < |t| && t[i] == 0x30 && (t[i + 1] == 0x78 || t[i + 1] == 0x58) && M.SomeDigit(t[i + 2])
  }

  /**
   * How `strtoul` reads a token in base 16: white space up to `a`, a sign or none up to `b`, a prefix or none up to
   * `c`, and as many digits as there are, up to `d`.
   */
  ghost predicate ReadAt(t: seq<byte>, a: nat, b: nat, c: nat, d: nat)
  {
    && a <= b <= c <= d <= |t|
    && (forall k :: 0 <= k < a ==> Space(t[k])) && (a < |t| ==> !Space(t[a]))
    && b == (if a < |t| && (t[a] == 0x2b || t[a] == 0x2d) then a + 1 else a)
    && c == (if PrefixAt(t, b) then b + 2 else b)
    && AllHex(t, c, d) && (d < |t| ==> !M.SomeDigit(t[d]))
  }

  lemma {:induction false} SpacesSkipped(t: seq<byte>) returns (a: nat)
    ensures a <= |t| && SkipSpace(t) == t[a..]
    ensures (forall k :: 0 <= k < a ==> Space(t[k])) && (a < |t| ==> !Space(t[a]))
  {
    if t != [] && IsSpace(t[0]) {
      var b := SpacesSkipped(t[1..]);
      a := b + 1;
      assert t[1..][b..] == t[a..];
    } else {
      a := 0;
    }
  }

  /** The run of digits that begins a text, read behind the digits `before`. */
  lemma {:induction false} RunRead(before: seq<byte>, t: seq<byte>, v: nat) returns (d: nat)
    requires SpellsHex(before, v)
    ensures d <= |t| && AllHex(t, 0, d) && (d < |t| ==> !M.SomeDigit(t[d]))
    ensures SpellsHex(before + t[..d], HexRun(t, v))
    decreases |t|
  {
    hide M.SomeDigit, M.DigitFor, SpellsHex;
    if t != [] {
      M.SomeExactly(t[0]);
    }
    if t == [] || HexDigit(t[0]) < 0 {
      d := 0;
      assert before + t[..0] == before;
    } else {
      OneMore(before, t[0], v);
      var e := RunRead(before + [t[0]], t[1..], 16 * v + HexDigit(t[0]));
      d := e + 1;
      assert before + [t[0]] + t[1..][..e] == before + t[..d];
      forall k | 0 <= k < d ensures M.SomeDigit(t[k]) { assert k > 0 ==> t[k] == t[1..][k - 1]; }
    }
  }

  lemma OneMore(before: seq<byte>, b: byte, v: nat)
    requires SpellsHex(before, v) && HexDigit(b) >= 0
    ensures SpellsHex(before + [b], 16 * v + HexDigit(b))
  {
    hide HexDigit;
    var x := HexDigit(b);
    M.DigitExactly(b, x);
    M.SomeExactly(b);
    var t := before + [b];
    assert t[..|t| - 1] == before && t[|t| - 1] == b;
    DivModUnique(16 * v + x, 16, v, x);
  }

  lemma DigitsRead(t: seq<byte>, c: nat) returns (d: nat)
    requires c <= |t|
    ensures c <= d && AllHex(t, c, d) && (d < |t| ==> !M.SomeDigit(t[d])) && SpellsHex(t[c..d], HexRun(t[c..], 0))
  {
    var rest := t[c..];
    var e := RunRead([], rest, 0);
    hide SpellsHex, M.SomeDigit, HexRun;
    d := c + e;
    assert [] + rest[..e] == t[c..d];
    forall k | c <= k < d ensures M.SomeDigit(t[k]) { assert t[k] == rest[k - c]; }
  }

  /** The number read; a minus sign negates it modulo 2 to the 64th, and a number too large is the largest. */
  lemma StrtoulMeans(t: seq<byte>) returns (a: nat, b: nat, c: nat, d: nat, n: nat)
    ensures ReadAt(t, a, b, c, d) && SpellsHex(t[c..d], n)
    ensures Strtoul16(t) ==
      if n >= 0x1_0000_0000_0000_0000 then 0xffff_ffff_ffff_ffff
      else if a < |t| && t[a] == 0x2d then (0 - n) % 0x1_0000_0000_0000_0000 else n
  {
    hide SpellsHex, M.SomeDigit, Strtoul16, Unsigned, HexRun, SkipSpace, AllHex, Space;
    a := SpacesSkipped(t);
    b := if a < |t| && (t[a] == 0x2b || t[a] == 0x2d) then a + 1 else a;
    c := if PrefixAt(t, b) then b + 2 else b;
    d := DigitsRead(t, c);
    n := HexRun(t[c..], 0);
    UnsignedRead(t, b, c);
    SignRead(t, a, b);
    Negative(n);
    HexInside(t, c, d);
  }

  lemma HexInside(t: seq<byte>, c: nat, d: nat)
    requires AllHex(t, c, d)
    ensures d <= |t|
  {
  }

  lemma UnsignedRead(t: seq<byte>, b: nat, c: nat)
    requires b <= |t| && c == if PrefixAt(t, b) then b + 2 else b
    ensures c <= |t| && Unsigned(t[b..]) == HexRun(t[c..], 0)
  {
    hide HexRun, M.SomeDigit;
    var u := t[b..];
    if |u| > 2 {
      M.SomeExactly(t[b + 2]);
      assert u[2..] == t[b + 2..];
    }
  }

  lemma FirstOf(t: seq<byte>, a: nat)
    requires a < |t|
    ensures t[a..] != [] && t[a..][0] == t[a] && t[a..][1..] == t[a + 1..]
  {
  }

  lemma SignRead(t: seq<byte>, a: nat, b: nat)
    requires a <= |t| && SkipSpace(t) == t[a..] && b == if a < |t| && (t[a] == 0x2b || t[a] == 0x2d) then a + 1 else a
    ensures var v: int := Unsigned(t[b..]);
      Strtoul16(t) == if v >= TWO64 then TWO64 - 1 else if a < |t| && t[a] == 0x2d then Wrap64(-v) else v
  {
    if a < |t| {
      FirstOf(t, a);
    }
    SignOfText(t[a..], t);
  }

  /** The reader from the first character that is no white space on. */
  lemma SignOfText(u: seq<byte>, t: seq<byte>)
    requires SkipSpace(t) == u
    ensures var signed := u != [] && (u[0] == 0x2b || u[0] == 0x2d);
      var v: int := Unsigned(if signed then u[1..] else u);
      Strtoul16(t) == if v >= TWO64 then TWO64 - 1 else if u != [] && u[0] == 0x2d then Wrap64(-v) else v
  {
    hide SkipSpace, Unsigned;
  }

  lemma Negative(n: int)
    ensures Wrap64(-n) == (0 - n) % 0x1_0000_0000_0000_0000
  {
  }

  // ----- tokens -----

  predicate Delimiter(b: byte) { b == 0x5c || b == 0x78 }

  ghost predicate AllDelimiters(s: seq<byte>, i: nat, j: nat)
  {
    i <= j <= |s| && forall k :: i <= k < j ==> Delimiter(s[k])
  }

  ghost predicate NoDelimiter(s: seq<byte>, i: nat, j: nat)
  {
    i <= j <= |s| && forall k :: i <= k < j ==> !Delimiter(s[k])
  }

  lemma {:induction false} DelimitersSkipped(s: seq<byte>, p: nat)
    requires p <= |s|
    ensures var r := SkipDelimiters(s, p); AllDelimiters(s, p, r) && (r < |s| ==> !Delimiter(s[r]))
    decreases |s| - p
  {
    if p < |s| && IsDelimiter(s[p]) {
      DelimitersSkipped(s, p + 1);
    }
  }

  lemma {:induction false} TokenRuns(s: seq<byte>, p: nat)
    requires p <= |s|
    ensures var r := TokenEnd(s, p); NoDelimiter(s, p, r) && (r < |s| ==> Delimiter(s[r]))
    decreases |s| - p
  {
    if p < |s| && !IsDelimiter(s[p]) {
      TokenRuns(s, p + 1);
    }
  }

  /**
   * The next token from `p` on: behind any delimiters, the longest run of other characters, and the place behind the
   * one delimiter that ends it; none if there are only delimiters.
   */
  lemma NextTokenMeans(s: seq<byte>, p: nat) returns (start: nat, end: nat)
    requires p <= |s|
    ensures AllDelimiters(s, p, start) && NoDelimiter(s, start, end) && (end < |s| ==> Delimiter(s[end]))
    ensures start == |s| ==> NextToken(s, p).None?
    ensures start < |s| ==>
      start < end && NextToken(s, p) == Some((s[start..end], if end < |s| then end + 1 else end))
  {
    DelimitersSkipped(s, p);
    start := SkipDelimiters(s, p);
    TokenRuns(s, start);
    end := TokenEnd(s, start);
  }

  /** The tokens of a text, in order. */
  ghost predicate Tokens(s: seq<byte>, p: nat, ts: seq<seq<byte>>)
    requires p <= |s|
    decreases |ts|
  {
    match NextToken(s, p)
    case None => ts == []
    case Some((t, next)) => ts != [] && t == ts[0] && Tokens(s, next, ts[1..])
  }

  /** The bytes read are the numbers of the tokens modulo 256, as many as there is room for. */
  lemma {:induction false} BytesOfTokens(s: seq<byte>, p: nat, room: nat, ts: seq<seq<byte>>)
    requires p <= |s| && Tokens(s, p, ts)
    ensures |TokenBytes(s, p, room)| == if room < |ts| then room else |ts|
    ensures forall i :: 0 <= i < |TokenBytes(s, p, room)| ==> TokenBytes(s, p, room)[i] == Strtoul16(ts[i]) % 256
    decreases room
  {
    hide NextToken, Strtoul16;
    if room > 0 && ts != [] {
      var (t, next) := NextToken(s, p).value;
      BytesOfTokens(s, next, room - 1, ts[1..]);
    }
  }

  // ----- the hexadecimal text -----

  /** A backslash, x and the two digits of a byte. */
  ghost predicate WrittenAt(t: seq<byte>, o: nat, b: byte)
  {
    && o + 4 <= |t| && t[o] == 0x5c && t[o + 1] == 0x78
    && LowerDigit(t[o + 2], b / 16) && LowerDigit(t[o + 3], b % 16)
  }

  lemma WrittenBehind(head: seq<byte>, t: seq<byte>, o: nat, b: byte)
    requires WrittenAt(t, o, b)
    ensures WrittenAt(head + t, |head| + o, b)
  {
  }

  /** Each byte has its four characters. */
  lemma {:induction false} HexTextAt(ops: seq<byte>, k: nat)
    requires k < |ops|
    ensures |HexText(ops)| == 4 * |ops| && WrittenAt(HexText(ops), 4 * k, ops[k])
  {
    HexLength(ops);
    hide LowerDigit, HexChar;
    var head, rest := [BACKSLASH, LOWER_X] + Hex(ops[0]), HexText(ops[1..]);
    assert HexText(ops) == head + rest;
    hide HexText;
    if k > 0 {
      HexTextAt(ops[1..], k - 1);
      WrittenBehind(head, rest, 4 * (k - 1), ops[k]);
    } else {
      HexDigits(ops[0]);
    }
  }

  lemma {:induction false} HexLength(ops: seq<byte>)
    ensures |HexText(ops)| == 4 * |ops|
  {
    if ops != [] {
      HexLength(ops[1..]);
    }
  }

  lemma HexDigits(b: byte)
    ensures LowerDigit(HexChar(b / 16), b / 16) && LowerDigit(HexChar(b % 16), b % 16)
  {
    CharDigit(b / 16);
    CharDigit(b % 16);
  }
}
