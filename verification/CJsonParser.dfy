/** The parser: a cursor over the input text, moved by the parse functions. */
module CJsonParser {
  import opened Words
  import opened JsonString
  import G = Json

  /** `items` in front of what is still to be parsed. */
  function PrependAll<T>(items: seq<T>, r: G.Parsed<seq<T>>): G.Parsed<seq<T>>
  {
    match r
    case Failed => G.Failed
    case Parsed(rest, end) => G.Parsed(items + rest, end)
  }

  class ParseBuffer {
    const content: seq<byte>
    var offset: nat
    var depth: nat

    constructor (text: seq<byte>)
      ensures content == text && offset == 0 && depth == 0
    {
      content, offset, depth := text, 0, 0;
    }

    method SkipWhitespace()
      modifies this`offset
      ensures offset == G.Skip(content, old(offset))
    {
      if offset >= |content| {
        return;
      }
      while offset < |content| && content[offset] <= 32
        invariant old(offset) <= offset <= |content|
        invariant G.SkipTo(content, old(offset)) == G.SkipTo(content, offset)
      {
        offset := offset + 1;
      }
      if offset == |content| {
        offset := offset - 1;
      }
    }

    method SkipUtf8Bom()
      requires offset == 0
      modifies this`offset
      ensures offset == G.SkipBom(content)
    {
      if |content| > 4 && content[..3] == [0xef, 0xbb, 0xbf] {
        offset := 3;
      }
    }

    // ----- strings -----

    /** Find the end of the string and the size of the output; `p` is behind the opening quote. */
    method SizeString(p: nat) returns (ok: bool, end: nat, skipped: nat)
      ensures ok == Size(content, p, 0).Sized?
      ensures ok ==> Size(content, p, 0) == Sized(end, skipped)
    {
      end, skipped := p, 0;
      while end < |content| && content[end] != QUOTE
        invariant p <= end
        invariant Size(content, p, 0) == Size(content, end, skipped)
      {
        if content[end] == BACKSLASH {
          if end + 1 >= |content| {
            return false, end, skipped;
          }
          skipped := skipped + 1;
          end := end + 1;
        }
        end := end + 1;
      }
      ok := end < |content|;
    }

    /** Convert the \uXXXX literal at `p` and write it to the output; a length of 0 means it is invalid. */
    method Utf16LiteralToUtf8(p: nat, end: nat, output: array<byte>, at: nat) returns (length: nat, written: nat)
      requires p <= end <= |content|
      requires Utf16(content, p, end).Literal? ==> at + |Utf8(Utf16(content, p, end).code)| <= output.Length
      modifies output
      ensures var lit := Utf16(content, p, end);
        if lit.Invalid? then length == 0 && output[..] == old(output[..])
        else (length == lit.length && written == |Utf8(lit.code)| && at + written <= output.Length
              && output[..at] == old(output[..at]) && output[at..at + written] == Utf8(lit.code))
    {
      length, written := 0, 0;
      if end - p < 6 {
        return;
      }
      var first := Hex4(content[p + 2..p + 6]);
      if 0xdc00 <= first <= 0xdfff {
        return;
      }
      var codepoint;
      if 0xd800 <= first <= 0xdbff {
        var second := p + 6;
        if end - second < 6 || content[second] != BACKSLASH || content[second + 1] != 0x75 {
          return;
        }
        var secondCode := Hex4(content[second + 2..second + 6]);
        if secondCode < 0xdc00 || secondCode > 0xdfff {
          return;
        }
        codepoint := 0x1_0000 + 0x400 * (first - 0xd800) + (secondCode - 0xdc00);
        length := 12;
      } else {
        codepoint := first;
        length := 6;
      }
      assert Utf16(content, p, end) == Literal(codepoint, length);
      hide Utf16;
      written := WriteUtf8(codepoint, output, at);
    }

    /** The length of the encoding and the mark of its first byte. */
    static method Utf8Shape(code: nat) returns (length: nat, mark: nat)
      requires code <= 0x10_ffff
      ensures length == |Utf8(code)| && Utf8(code)[0] == mark + Shifted(code, length - 1)
      ensures forall k :: 0 < k < length ==> Utf8(code)[k] == 0x80 + Shifted(code, length - 1 - k) % 0x40
    {
      Utf8Bytes(code);
      hide Utf8, Shifted;
      if code < 0x80 {
        return 1, 0;
      } else if code < 0x800 {
        return 2, 0xc0;
      } else if code < 0x1_0000 {
        return 3, 0xe0;
      } else {
        return 4, 0xf0;
      }
    }

    /** The continuation bytes from the last to the second, then the first byte with its length mark. */
    static method WriteUtf8(code: nat, output: array<byte>, at: nat) returns (written: nat)
      requires code <= 0x10_ffff && at + |Utf8(code)| <= output.Length
      modifies output
      ensures written == |Utf8(code)| && output[..at] == old(output[..at]) && output[at..at + written] == Utf8(code)
    {
      hide Utf8, Shifted;
      var mark;
      written, mark := Utf8Shape(code);
      ghost var bytes := Utf8(code);
      var codepoint, position := code, written - 1;
      assert Shifted(code, 0) == code by { ShiftedIs(code); }
      while position > 0
        invariant 0 <= position < written && codepoint == Shifted(code, written - 1 - position)
        invariant forall k :: 0 <= k < at ==> output[k] == old(output[k])
        invariant forall k {:trigger bytes[k]} :: position < k < written ==> output[at + k] == bytes[k]
      {
        ShiftedNext(code, written - 1 - position);
        output[at + position] := 0x80 + codepoint % 0x40;
        codepoint := codepoint / 0x40;
        position := position - 1;
      }
      output[at] := mark + codepoint;
      assert forall k {:trigger bytes[k]} :: 0 <= k < written ==> output[at + k] == bytes[k];
      assert output[at..at + written] == bytes;
    }

    /** One round of the decoding loop: a plain byte, or an escape. A length of 0 means it is invalid. */
    method DecodeOne(p: nat, end: nat, output: array<byte>, at: nat) returns (length: nat, written: nat)
      requires p < end < |content| && at + Piece(content, p, end).written <= output.Length
      requires content[p] != BACKSLASH || content[p + 1] != 0x75 ==> at < output.Length
      modifies output
      ensures length == Piece(content, p, end).length
      ensures length == 0 ==> Decode(content, p, end) == Bad(p)
      ensures length > 0 ==>
        (written == Piece(content, p, end).written && output[..at] == old(output[..at])
         && Decode(content, p, end) == Prepend(output[at..at + written], Decode(content, p + length, end)))
    {
      hide Size, Utf8, Utf16, Simple, Units;
      if content[p] != BACKSLASH {
        output[at] := content[p];
        assert output[at..at + 1] == [content[p]];
        return 1, 1;
      } else if content[p + 1] == 0x75 {
        length, written := Utf16LiteralToUtf8(p, end, output, at);
      } else if Simple(content[p + 1]) < 0 {
        return 0, 0;
      } else {
        output[at] := Simple(content[p + 1]);
        assert output[at..at + 1] == [Simple(content[p + 1])];
        return 2, 1;
      }
    }

    /**
     * Size, allocate, decode. The index checks on `output` are the proof that nothing is written past the allocation.
     */
    method ParseString() returns (ok: bool, s: seq<byte>)
      requires offset < |content|
      modifies this`offset
      ensures var r := G.ParseString(content, old(offset));
        if r.Failed? then !ok else ok && s == r.value && offset == r.offset
    {
      hide Decode, Size, Units, Room, Piece, Prepend;
      s := [];
      var start: nat, c := offset + 1, content;
      if c[offset] != QUOTE {
        offset := start;
        return false, s;
      }
      var sized, end, skipped := SizeString(start);
      if !sized {
        offset := start;
        return false, s;
      }
      var allocation := end - offset - skipped;
      ghost var boundary: nat := start;
      StartRoom(c, offset, end, skipped);
      var output := new byte[allocation + 1];
      var p: nat, at: nat := start, 0;
      PrependNone(Decode(c, start, end));
      assert output[..0] == [];
      while p < end
        invariant start <= p && offset == start - 1 && fresh(output)
        invariant at <= allocation && Room(c, p, boundary, end, at, allocation)
        invariant Decode(c, start, end) == Prepend(output[..at], Decode(c, p, end))
        decreases |c| - p
      {
        ghost var before := output[..at];
        boundary := MoreRoom(c, p, boundary, end, at, allocation);
        var length, written := DecodeOne(p, end, output, at);
        if length == 0 {
          PrependBad(before, p);
          offset := p;
          return false, s;
        }
        assert output[..at + written] == before + output[at..at + written];
        PrependTwice(before, output[at..at + written], Decode(c, p + length, end));
        p, at := p + length, at + written;
      }
      DecodeEnd(c, p, end);
      PrependDone(output[..at]);
      output[at] := 0;
      s := G.CView(output[..at]);
      offset := end + 1;
      ok := true;
    }

    // ----- numbers -----

    /** Copy at most 63 number characters; a plain decimal is converted, other text goes to `strtod`. */
    method ParseNumber(strtod: G.Strtod) returns (ok: bool, j: G.Json)
      requires offset < |content|
      modifies this`offset
      ensures var r := G.ParseNumber(content, old(offset), strtod);
        if r.Failed? then !ok else ok && j == r.value && offset == r.offset
    {
      hide G.InNumber, G.NumberRun, G.IsDecimal, G.DecimalValue;
      j := G.Null;
      var run: seq<byte> := [];
      while |run| < 63 && offset + |run| < |content| && G.InNumber(content[offset + |run|])
        invariant offset == old(offset) && |run| <= 63 && offset + |run| <= |content|
        invariant G.NumberRun(content, offset, 63) == run + G.NumberRun(content, offset + |run|, 63 - |run|)
      {
        NumberRunStep(content, offset + |run|, 63 - |run|, run);
        run := run + [content[offset + |run|]];
      }
      NumberRunEnd(content, offset + |run|, 63 - |run|, run);
      assert G.NumberRun(content, offset, 63) == run;
      if G.IsDecimal(run) {
        var v := G.DecimalValue(run);
        j := if -TWO31 <= v < TWO31 then G.Number(v) else G.OtherNumber(run);
        offset := offset + |run|;
        return true, j;
      }
      var n := strtod(run);
      if n == 0 || n > |run| {
        return false, j;
      }
      j := G.OtherNumber(run[..n]);
      offset := offset + n;
      ok := true;
    }

    // ----- values -----

    predicate CanRead(word: seq<byte>)
      reads this`offset
    {
      offset + |word| <= |content| && content[offset..offset + |word|] == word
    }

    method ParseValue(strtod: G.Strtod) returns (ok: bool, j: G.Json)
      modifies this`offset, this`depth
      ensures var r := G.ParseValue(content, old(offset), old(depth), strtod);
        if r.Failed? then !ok else ok && j == r.value && offset == r.offset && depth == old(depth)
      decreases |content| - offset, 2
    {
      hide G.ParseArray, G.ParseObject, G.ParseString, G.ParseNumber;
      j := G.Null;
      if CanRead(G.NULL_TEXT) {
        offset := offset + 4;
        return true, G.Null;
      }
      if CanRead(G.FALSE_TEXT) {
        offset := offset + 5;
        return true, G.False;
      }
      if CanRead(G.TRUE_TEXT) {
        offset := offset + 4;
        return true, G.True;
      }
      if offset >= |content| {
        return false, j;
      }
      var first := content[offset];
      if first == QUOTE {
        var s;
        ok, s := ParseString();
        j := G.String(s);
      } else if first == 0x2d || G.IsDigit(first) {
        ok, j := ParseNumber(strtod);
      } else if first == G.LBRACKET {
        ok, j := ParseArray(strtod);
      } else if first == G.LBRACE {
        ok, j := ParseObject(strtod);
      } else {
        ok := false;
      }
    }

    method ParseArray(strtod: G.Strtod) returns (ok: bool, j: G.Json)
      requires offset < |content| && content[offset] == G.LBRACKET
      modifies this`offset, this`depth
      ensures var r := G.ParseArray(content, old(offset), old(depth), strtod);
        if r.Failed? then !ok else ok && j == r.value && offset == r.offset && depth == old(depth)
      decreases |content| - offset, 1
    {
      hide G.ParseItems, G.ParseValue, G.Skip;
      ok, j := false, G.Null;
      if depth >= G.NESTING_LIMIT {
        return;
      }
      depth := depth + 1;
      offset := offset + 1;
      SkipWhitespace();
      if offset < |content| && content[offset] == G.RBRACKET {
        depth := depth - 1;
        offset := offset + 1;
        return true, G.Array([]);
      }
      if offset >= |content| {
        offset := offset - 1;
        return;
      }
      offset := offset - 1;
      ghost var e, d, c := offset, depth, content;
      var items: seq<G.Json>, more := [], true;
      assert PrependAll([], G.ParseItems(c, e, d, strtod)) == G.ParseItems(c, e, d, strtod) by {
        PrependAllNone(G.ParseItems(c, e, d, strtod));
      }
      while more
        invariant more ==> (old(offset) <= offset < |c| && depth == d
          && G.ParseItems(c, e, d, strtod) == PrependAll(items, G.ParseItems(c, offset, d, strtod)))
        invariant !more ==> depth == d && ItemsEnd(c, e, d, strtod, items, offset)
        decreases |content| - offset, if more then 1 else 0
      {
        ghost var at := offset;
        offset := offset + 1;
        SkipWhitespace();
        ghost var start := offset;
        var good, item := ParseValue(strtod);
        ItemRound(c, at, d, strtod, items);
        if !good {
          return;
        }
        SkipWhitespace();
        items := items + [item];
        more := offset < |content| && content[offset] == G.COMMA;
      }
      if offset >= |content| || content[offset] != G.RBRACKET {
        return;
      }
      depth := depth - 1;
      offset := offset + 1;
      return true, G.Array(items);
    }

    method ParseObject(strtod: G.Strtod) returns (ok: bool, j: G.Json)
      requires offset < |content| && content[offset] == G.LBRACE
      modifies this`offset, this`depth
      ensures var r := G.ParseObject(content, old(offset), old(depth), strtod);
        if r.Failed? then !ok else ok && j == r.value && offset == r.offset && depth == old(depth)
      decreases |content| - offset, 1
    {
      hide G.ParseMembers, G.ParseValue, G.ParseString, G.Skip;
      ok, j := false, G.Null;
      if depth >= G.NESTING_LIMIT {
        return;
      }
      depth := depth + 1;
      offset := offset + 1;
      SkipWhitespace();
      if offset < |content| && content[offset] == G.RBRACE {
        depth := depth - 1;
        offset := offset + 1;
        return true, G.Object([]);
      }
      if offset >= |content| {
        offset := offset - 1;
        return;
      }
      offset := offset - 1;
      ghost var e, d, c := offset, depth, content;
      var members: seq<G.Member>, more := [], true;
      assert PrependAll([], G.ParseMembers(c, e, d, strtod)) == G.ParseMembers(c, e, d, strtod) by {
        PrependAllNone(G.ParseMembers(c, e, d, strtod));
      }
      while more
        invariant more ==> (old(offset) <= offset < |c| && depth == d
          && G.ParseMembers(c, e, d, strtod) == PrependAll(members, G.ParseMembers(c, offset, d, strtod)))
        invariant !more ==> depth == d && MembersEnd(c, e, d, strtod, members, offset)
        decreases |content| - offset, if more then 1 else 0
      {
        ghost var at := offset;
        MemberRound(c, at, d, strtod, members);
        var good, member := ParseMember(strtod);
        if !good {
          return;
        }
        members := members + [member];
        more := offset < |content| && content[offset] == G.COMMA;
      }
      if offset >= |content| || content[offset] != G.RBRACE {
        return;
      }
      depth := depth - 1;
      offset := offset + 1;
      return true, G.Object(members);
    }

    /** One round of the loop over members: name, colon, value, and the white space behind. */
    method ParseMember(strtod: G.Strtod) returns (ok: bool, m: G.Member)
      requires offset < |content|
      modifies this`offset, this`depth
      ensures var r := OneMember(content, old(offset), old(depth), strtod);
        if r.Failed? then !ok else ok && m == r.value && offset == r.offset && depth == old(depth)
      decreases |content| - offset, 0
    {
      hide G.ParseValue, G.ParseString;
      ok, m := false, G.Member([], G.Null);
      offset := offset + 1;
      SkipWhitespace();
      if offset >= |content| {
        return;
      }
      var good, name := ParseString();
      if !good {
        return;
      }
      SkipWhitespace();
      if offset >= |content| || content[offset] != G.COLON {
        return;
      }
      offset := offset + 1;
      SkipWhitespace();
      var value;
      good, value := ParseValue(strtod);
      if !good {
        return;
      }
      SkipWhitespace();
      return true, G.Member(name, value);
    }

    // ----- the entry point -----

    /** Parse a whole text, which ends with a NUL, from the start. */
    method Parse(requireNullTerminated: bool, strtod: G.Strtod) returns (ok: bool, j: G.Json)
      requires offset == 0 && depth == 0
      modifies this`offset, this`depth
      ensures var r := G.Parse(content, requireNullTerminated, strtod);
        if r.Failed? then !ok else ok && j == r.value && offset == r.offset
    {
      hide G.ParseValue, G.Skip;
      if |content| == 0 {
        return false, G.Null;
      }
      SkipUtf8Bom();
      SkipWhitespace();
      ok, j := ParseValue(strtod);
      if !ok {
        return;
      }
      if requireNullTerminated {
        SkipWhitespace();
        if offset >= |content| || content[offset] != 0 {
          return false, j;
        }
      }
    }
  }

  /** One member after the byte at `e`, and the position behind the white space that follows it. */
  function OneMember(c: seq<byte>, e: nat, d: nat, strtod: G.Strtod): (r: G.Parsed<G.Member>)
    requires e < |c|
    ensures r.Parsed? ==> e < r.offset
  {
    match G.ParseString(c, G.Skip(c, e + 1))
    case Failed => G.Failed
    case Parsed(name, next) =>
      var colon := G.Skip(c, next);
      if colon >= |c| || c[colon] != G.COLON then G.Failed
      else match G.ParseValue(c, G.Skip(c, colon + 1), d, strtod)
        case Failed => G.Failed
        case Parsed(v, after) => G.Parsed(G.Member(name, v), G.Skip(c, after))
  }

  ghost predicate MembersEnd(c: seq<byte>, e: nat, d: nat, strtod: G.Strtod, members: seq<G.Member>, o: nat)
    requires e < |c|
  {
    G.ParseMembers(c, e, d, strtod) == if o < |c| && c[o] == G.RBRACE then G.Parsed(members, o + 1) else G.Failed
  }

  /** One round of the loop over members. */
  lemma MemberRound(c: seq<byte>, at: nat, d: nat, strtod: G.Strtod, members: seq<G.Member>)
    requires at < |c|
    ensures var m := OneMember(c, at, d, strtod);
      PrependAll(members, G.ParseMembers(c, at, d, strtod)) ==
        if m.Failed? then G.Failed
        else if m.offset < |c| && c[m.offset] == G.COMMA then
          PrependAll(members + [m.value], G.ParseMembers(c, m.offset, d, strtod))
        else if m.offset < |c| && c[m.offset] == G.RBRACE then G.Parsed(members + [m.value], m.offset + 1)
        else G.Failed
  {
    hide G.ParseValue, G.Skip, G.ParseString;
    var m := OneMember(c, at, d, strtod);
    if m.Parsed? && m.offset < |c| && c[m.offset] == G.COMMA {
      PrependAllTwice(members, m.value, G.ParseMembers(c, m.offset, d, strtod));
    }
  }

  /** The loop over items has stopped at `o`: either the bracket is there or the array is malformed. */
  ghost predicate ItemsEnd(c: seq<byte>, e: nat, d: nat, strtod: G.Strtod, items: seq<G.Json>, o: nat)
    requires e < |c|
  {
    G.ParseItems(c, e, d, strtod) == if o < |c| && c[o] == G.RBRACKET then G.Parsed(items, o + 1) else G.Failed
  }

  lemma PrependAllNone<T>(r: G.Parsed<seq<T>>)
    ensures PrependAll([], r) == r
  {
    if r.Parsed? {
      assert [] + r.value == r.value;
    }
  }

  lemma PrependAllTwice<T>(a: seq<T>, v: T, r: G.Parsed<seq<T>>)
    ensures PrependAll(a, PrependAll([v], r)) == PrependAll(a + [v], r)
  {
    if r.Parsed? {
      assert a + ([v] + r.value) == a + [v] + r.value;
    }
  }

  /** One round of the loop over items. */
  lemma ItemRound(c: seq<byte>, at: nat, d: nat, strtod: G.Strtod, items: seq<G.Json>)
    requires at < |c|
    ensures var v := G.ParseValue(c, G.Skip(c, at + 1), d, strtod);
      PrependAll(items, G.ParseItems(c, at, d, strtod)) ==
        if v.Failed? then G.Failed
        else
          var o := G.Skip(c, v.offset);
          if o < |c| && c[o] == G.COMMA then PrependAll(items + [v.value], G.ParseItems(c, o, d, strtod))
          else if o < |c| && c[o] == G.RBRACKET then G.Parsed(items + [v.value], o + 1)
          else G.Failed
  {
    var v := G.ParseValue(c, G.Skip(c, at + 1), d, strtod);
    if v.Parsed? {
      var o := G.Skip(c, v.offset);
      if o < |c| && c[o] == G.COMMA {
        PrependAllTwice(items, v.value, G.ParseItems(c, o, d, strtod));
      }
    }
    hide G.ParseValue, G.Skip;
  }

  /** `code` shifted right by `k` times six bits. */
  function Shifted(code: nat, k: nat): nat
  {
    if k == 0 then code else Shifted(code, k - 1) / 0x40
  }

  lemma ShiftedIs(code: nat)
    ensures Shifted(code, 0) == code
    ensures Shifted(code, 1) == code / 0x40 && Shifted(code, 2) == code / 0x1000 && Shifted(code, 3) == code / 0x4_0000
  {
    assert Shifted(code, 0) == code;
  }

  lemma ShiftedNext(code: nat, k: nat)
    ensures Shifted(code, k + 1) == Shifted(code, k) / 0x40
  {
  }

  /** Each byte of the encoding is its mark and the next six bits of the code point. */
  lemma Utf8Bytes(code: nat)
    requires code <= 0x10_ffff
    ensures var bytes, n := Utf8(code), |Utf8(code)|;
      && n == (if code < 0x80 then 1 else if code < 0x800 then 2 else if code < 0x1_0000 then 3 else 4)
      && bytes[0] == (if n == 1 then 0 else if n == 2 then 0xc0 else if n == 3 then 0xe0 else 0xf0) +
        Shifted(code, n - 1)
      && forall k :: 0 < k < n ==> bytes[k] == 0x80 + Shifted(code, n - 1 - k) % 0x40
  {
    ShiftedIs(code);
    hide Shifted;
  }

  // ----- the decoding loop -----

  /** What one round reads and writes; nothing if the escape is invalid. */
  datatype Step = Step(length: nat, written: nat)

  function Piece(c: seq<byte>, p: nat, end: nat): Step
    requires p < end < |c|
  {
    if c[p] != BACKSLASH then Step(1, 1)
    else if c[p + 1] == 0x75 then
      match Utf16(c, p, end)
      case Invalid => Step(0, 0)
      case Literal(code, length) => Step(length, |Utf8(code)|)
    else if Simple(c[p + 1]) < 0 then Step(0, 0)
    else Step(2, 1)
  }

  /**
   * The potential that bounds the output: every unit the sizing pass still has in front of it pays for one byte. `s` is
   * where the sizing pass starts a unit, at most one byte ahead of the decoding pass.
   */
  ghost predicate Room(c: seq<byte>, p: nat, s: nat, end: nat, at: nat, allocation: int)
    requires end <= |c|
  {
    if p <= end then Reaches(c, s, end) && (s == p || s == p + 1) && at + Units(c, s, end) + (s - p) <= allocation - 1
    else at <= allocation - 1
  }

  lemma StartRoom(c: seq<byte>, offset: nat, end: nat, skipped: nat)
    requires offset < |c| && Size(c, offset + 1, 0) == Sized(end, skipped)
    ensures end - offset - skipped >= 1 && Room(c, offset + 1, offset + 1, end, 0, end - offset - skipped)
  {
    hide Size, Units;
    AllocationSuffices(c, offset);
    SizeUnits(c, offset + 1, 0);
  }

  /** A round keeps the potential, and what it writes fits. */
  lemma MoreRoom(c: seq<byte>, p: nat, s: nat, end: nat, at: nat, allocation: int) returns (s': nat)
    requires p < end < |c| && Room(c, p, s, end, at, allocation)
    ensures var r := Piece(c, p, end);
      at < allocation && at + r.written < allocation &&
        (r.length > 0 ==> Room(c, p + r.length, s', end, at + r.written, allocation))
  {
    var r := Piece(c, p, end);
    PieceShape(c, p, end);
    hide Piece, Units, Size;
    assert at < allocation - 1 by {
      if s == p {
        ReachesNext(c, s, end);
      }
    }
    s' := s;
    if r.length > 0 {
      s' := DecodeStep(c, p, s, end, r.written, r.length);
    }
  }

  lemma PieceShape(c: seq<byte>, p: nat, end: nat)
    requires p < end < |c|
    ensures var r := Piece(c, p, end);
      && (r.length == 0 ==> r.written == 0) && (c[p] != BACKSLASH ==> r == Step(1, 1))
      && (c[p] == BACKSLASH && r.length > 0 ==>
          (r == Step(2, 1) || (p + r.length <= end &&
            (if r.length == 6 then r.written <= 3 else r.length == 12 && r.written <= 4))))
  {
    hide Utf16, Utf8;
  }

  lemma PrependBad(a: seq<byte>, at: nat)
    ensures Prepend(a, Bad(at)) == Bad(at)
  {
  }

  lemma PrependDone(a: seq<byte>)
    ensures Prepend(a, Done([])) == Done(a)
  {
  }

  lemma PrependNone(d: Decoded)
    ensures Prepend([], d) == d
  {
  }

  lemma PrependTwice(a: seq<byte>, b: seq<byte>, d: Decoded)
    ensures Prepend(a, Prepend(b, d)) == Prepend(a + b, d)
  {
    if d.Done? {
      assert a + (b + d.bytes) == a + b + d.bytes;
    }
  }

  lemma DecodeEnd(c: seq<byte>, p: nat, end: nat)
    requires end <= p && end < |c|
    ensures Decode(c, p, end) == Done([])
  {
  }

  lemma NumberRunStep(c: seq<byte>, o: nat, room: nat, run: seq<byte>)
    requires room > 0 && o < |c| && G.InNumber(c[o])
    ensures run + G.NumberRun(c, o, room) == (run + [c[o]]) + G.NumberRun(c, o + 1, room - 1)
  {
    hide G.InNumber;
  }

  lemma NumberRunEnd(c: seq<byte>, o: nat, room: nat, run: seq<byte>)
    requires o <= |c| && (room == 0 || o == |c| || !G.InNumber(c[o]))
    ensures run + G.NumberRun(c, o, room) == run
  {
    hide G.InNumber;
  }
}
