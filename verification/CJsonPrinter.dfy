/** The printer: a growing buffer, written at an offset that is moved by measuring the text behind it. */
module CJsonPrinter {
  import opened Words
  import opened JsonString
  import G = Json
  import R = JsonRoundTrip

  const INT_MAX := 0x7fff_ffff

  // ----- printed text holds no NUL -----

  lemma NoNulAppend(a: seq<byte>, b: seq<byte>)
    requires NoNul(a) && NoNul(b)
    ensures NoNul(a + b)
  {
  }

  lemma {:induction false} EscapeNoNul(s: seq<byte>)
    ensures NoNul(Escape(s))
  {
    if s != [] {
      EscapeNoNul(s[1..]);
      NoNulAppend(EscapeByte(s[0]), Escape(s[1..]));
    }
  }

  lemma QuotedNoNul(s: seq<byte>)
    ensures NoNul(Quoted(s))
  {
    EscapeNoNul(s);
    hide Escape;
  }

  lemma {:induction false} DigitsNoNul(n: nat)
    ensures NoNul(G.Digits(n))
  {
    if n >= 10 {
      DigitsNoNul(n / 10);
    }
  }

  lemma DecimalNoNul(n: int)
    ensures NoNul(G.Decimal(n))
  {
    DigitsNoNul(if n < 0 then -n else n);
    hide G.Digits;
  }

  lemma {:induction false} TabsNoNul(n: nat)
    ensures NoNul(G.Tabs(n))
  {
    if n > 0 {
      TabsNoNul(n - 1);
    }
  }

  lemma {:induction false} TextNoNul(j: G.Json, fmt: bool, d: nat)
    requires G.Plain(j)
    ensures NoNul(G.Text(j, fmt, d))
    decreases j, 1, 0
  {
    match j
    case Number(n) => DecimalNoNul(n);
    case String(s) => QuotedNoNul(s);
    case Array(_) =>
      hide G.ItemsText, G.Plain;
      ItemsNoNul(j, 0, fmt, d + 1);
      NoNulAppend([G.LBRACKET], G.ItemsText(j, 0, fmt, d + 1));
    case Object(_) =>
      hide G.MembersText, G.Plain, G.Tabs;
      MembersNoNul(j, 0, fmt, d + 1);
      TabsNoNul(d);
      var open: seq<byte> := if fmt then [G.LBRACE, G.NEWLINE] else [G.LBRACE];
      var tabs := if fmt then G.Tabs(d) else [];
      NoNulAppend(open, G.MembersText(j, 0, fmt, d + 1));
      NoNulAppend(open + G.MembersText(j, 0, fmt, d + 1), tabs);
    case _ =>
  }

  lemma {:induction false} ItemsNoNul(j: G.Json, i: nat, fmt: bool, d: nat)
    requires j.Array? && G.Plain(j) && i <= |j.items|
    ensures NoNul(G.ItemsText(j, i, fmt, d))
    decreases j, 0, |j.items| - i
  {
    if i < |j.items| {
      TextNoNul(j.items[i], fmt, d);
      ItemsNoNul(j, i + 1, fmt, d);
      hide G.Text;
    }
  }

  lemma {:induction false} MembersNoNul(j: G.Json, i: nat, fmt: bool, d: nat)
    requires j.Object? && G.Plain(j) && i <= |j.members|
    ensures NoNul(G.MembersText(j, i, fmt, d))
    decreases j, 0, |j.members| - i
  {
    if i < |j.members| {
      HeaderNoNul(j.members[i].name, fmt, d);
      TextNoNul(j.members[i].value, fmt, d);
      MembersNoNul(j, i + 1, fmt, d);
      hide G.Text, G.Header;
    }
  }

  lemma HeaderNoNul(name: seq<byte>, fmt: bool, d: nat)
    ensures NoNul(G.Header(name, fmt, d))
  {
    TabsNoNul(d);
    QuotedNoNul(name);
    hide Quoted, G.Tabs;
  }

  // ----- the buffer -----

  class PrintBuffer {
    var buffer: array<byte>
    var offset: nat
    var depth: nat
    const noalloc: bool
    const format: bool

    /** The text printed so far. */
    ghost function Written(): seq<byte>
      requires offset <= buffer.Length
      reads this`buffer, this`offset, buffer
    {
      buffer[..offset]
    }

    ghost predicate Valid()
      reads this`buffer, this`offset
    {
      offset < buffer.Length
    }

    /** The buffer goes on from `before` with `text` and a NUL; the offset may be anywhere inside that text. */
    ghost predicate Shows(before: seq<byte>, text: seq<byte>)
      reads this`buffer, this`offset, buffer
    {
      && |before| <= offset <= |before| + |text| < buffer.Length
      && buffer[..|before| + |text|] == before + text && buffer[|before| + |text|] == 0
    }

    constructor (size: nat, fmt: bool)
      requires size > 0
      ensures Valid() && fresh(buffer) && Written() == [] && depth == 0 && !noalloc && format == fmt
    {
      buffer := new byte[size];
      offset, depth, noalloc, format := 0, 0, false, fmt;
    }

    constructor Preallocated(memory: array<byte>, fmt: bool)
      requires memory.Length > 0
      ensures Valid() && buffer == memory && Written() == [] && depth == 0 && noalloc && format == fmt
    {
      buffer := memory;
      offset, depth, noalloc, format := 0, 0, true, fmt;
    }

    /** Whether printing `n` more bytes is certain to find room. */
    predicate Roomy(n: nat)
      reads this`offset
    {
      !noalloc && offset + n + 2 <= INT_MAX
    }

    /** Make room for `needed` bytes and a NUL behind the offset, doubling the buffer if it has to grow. */
    method Ensure(needed: nat) returns (ok: bool)
      requires Valid()
      modifies this`buffer
      ensures buffer == old(buffer) || fresh(buffer)
      ensures ok ==> offset + needed + 1 <= buffer.Length && Written() == old(Written())
      ensures var end := offset + needed + 1;
        && (ok <==> needed <= 0x7fff_ffff && (end <= old(buffer.Length) || (!noalloc && end <= 0x7fff_ffff)))
        && (!ok || end <= old(buffer.Length) ==> buffer == old(buffer))
        && (ok && end > old(buffer.Length) ==>
            buffer.Length == if end > 0x7fff_ffff / 2 then 0x7fff_ffff else 2 * end)
    {
      if needed > INT_MAX {
        return false;
      }
      var end := needed + offset + 1;
      if end <= buffer.Length {
        return true;
      }
      if noalloc {
        return false;
      }
      var newsize;
      if end > INT_MAX / 2 {
        if end > INT_MAX {
          return false;
        }
        newsize := INT_MAX;
      } else {
        newsize := end * 2;
      }
      var bigger := new byte[newsize];
      forall i | 0 <= i < offset + 1 {
        bigger[i] := buffer[i];
      }
      assert bigger[..offset] == buffer[..offset];
      buffer := bigger;
      return true;
    }

    /** Move the offset to the next NUL. */
    method UpdateOffset(ghost before: seq<byte>, ghost text: seq<byte>)
      requires Shows(before, text) && NoNul(text)
      modifies this`offset
      ensures Valid() && Written() == before + text && buffer[offset] == 0
    {
      ghost var end := |before| + |text|;
      assert forall k :: |before| <= k < end ==> buffer[k] != 0 by {
        forall k | |before| <= k < end ensures buffer[k] != 0 {
          assert buffer[k] == buffer[..end][k] == text[k - |before|];
        }
      }
      while buffer[offset] != 0
        invariant |before| <= offset <= end < buffer.Length
        invariant buffer[..end] == before + text && buffer[end] == 0
        decreases end - offset
      {
        offset := offset + 1;
      }
    }

    /** Copy `text` and a NUL behind the offset. */
    method Copy(text: seq<byte>)
      requires offset + |text| + 1 <= buffer.Length
      modifies buffer
      ensures Shows(old(Written()), text)
    {
      ghost var before := Written();
      for i := 0 to |text|
        invariant buffer[..offset + i] == before + text[..i]
      {
        buffer[offset + i] := text[i];
        assert buffer[..offset + i + 1] == buffer[..offset + i] + [text[i]];
        assert text[..i + 1] == text[..i] + [text[i]];
      }
      assert text[..|text|] == text;
      buffer[offset + |text|] := 0;
    }

    /** A fixed word, or a number. */
    method PrintWord(text: seq<byte>) returns (ok: bool)
      requires Valid()
      modifies this`buffer, buffer
      ensures buffer == old(buffer) || fresh(buffer)
      ensures ok ==> Shows(old(Written()), text)
      ensures old(Roomy(|text|)) ==> ok
    {
      ok := Ensure(|text| + 1);
      if ok {
        Copy(text);
      }
    }

    method PrintNumber(n: i32) returns (ok: bool)
      requires Valid()
      modifies this`buffer, this`offset, buffer
      ensures buffer == old(buffer) || fresh(buffer)
      ensures ok ==> Shows(old(Written()), G.Decimal(n))
      ensures old(Roomy(|G.Decimal(n)|)) ==> ok
    {
      hide G.Decimal;
      ok := Ensure(|G.Decimal(n)| + 1);
      if ok {
        Copy(G.Decimal(n));
        offset := offset + |G.Decimal(n)|;
      }
    }

    /** Copy `text` behind the offset, without a NUL. */
    method Fill(text: seq<byte>)
      requires offset + |text| <= buffer.Length
      modifies buffer
      ensures buffer[..offset + |text|] == old(Written()) + text
    {
      ghost var before := Written();
      for i := 0 to |text|
        invariant buffer[..offset + i] == before + text[..i]
      {
        buffer[offset + i] := text[i];
        assert buffer[..offset + i + 1] == buffer[..offset + i] + [text[i]];
        assert text[..i + 1] == text[..i] + [text[i]];
      }
      assert text[..|text|] == text;
    }

    /** Write `text` behind the offset, after making room for `needed` bytes, and move past it. */
    method Put(text: seq<byte>, needed: nat, terminate: bool) returns (ok: bool)
      requires Valid() && |text| <= needed && 0 < needed && (terminate ==> |text| < needed)
      modifies this`buffer, this`offset, buffer
      ensures buffer == old(buffer) || fresh(buffer)
      ensures ok ==> Valid() && Written() == old(Written()) + text
      ensures old(Roomy(needed - 1)) ==> ok
    {
      ok := Ensure(needed);
      if ok {
        Fill(text);
        if terminate {
          buffer[offset + |text|] := 0;
        }
        offset := offset + |text|;
      }
    }

    // ----- strings -----

    /** How many bytes escaping adds. */
    static method CountEscapes(s: seq<byte>) returns (n: nat)
      ensures |Escape(s)| == |s| + n
    {
      n := 0;
      assert Escape(s[..0]) == [];
      for i := 0 to |s|
        invariant |Escape(s[..i])| == i + n
      {
        EscapeSnoc(s, i);
        hide Escape;
        var b := s[i];
        if b == QUOTE || b == BACKSLASH || b == 0x08 || b == 0x0c || b == 0x0a || b == 0x0d || b == 0x09 {
          n := n + 1;
        } else if b < 32 {
          n := n + 5;
        }
      }
      assert s[..|s|] == s;
    }

    /** One byte, escaped if need be, at `at`. */
    method PutEscaped(b: byte, at: nat) returns (next: nat)
      requires at + |EscapeByte(b)| <= buffer.Length
      modifies buffer
      ensures next == at + |EscapeByte(b)| && buffer[..next] == old(buffer[..at]) + EscapeByte(b)
    {
      ghost var before := buffer[..at];
      if b > 31 && b != QUOTE && b != BACKSLASH {
        buffer[at] := b;
        next := at + 1;
      } else {
        buffer[at] := BACKSLASH;
        var letter := if b == BACKSLASH || b == QUOTE then b else if b == 0x08 then 0x62 else if b == 0x0c then 0x66
          else if b == 0x0a then 0x6e else if b == 0x0d then 0x72 else if b == 0x09 then 0x74 else 0;
        if letter != 0 {
          buffer[at + 1] := letter;
          next := at + 2;
        } else {
          buffer[at + 1], buffer[at + 2], buffer[at + 3] := 0x75, 0x30, 0x30;
          buffer[at + 4], buffer[at + 5] := HexChar(b / 16), HexChar(b % 16);
          next := at + 6;
        }
      }
      hide HexChar;
      assert buffer[at..next] == EscapeByte(b);
      assert buffer[..next] == buffer[..at] + buffer[at..next];
      assert buffer[..at] == before;
    }

    /** The literal and a NUL behind the offset. */
    method WriteQuoted(s: seq<byte>)
      requires offset + |Quoted(s)| < buffer.Length
      modifies buffer
      ensures Shows(old(Written()), Quoted(s))
    {
      hide Escape, EscapeByte;
      ghost var before, open := Written(), Written() + [QUOTE];
      buffer[offset] := QUOTE;
      assert buffer[..offset + 1] == open;
      var at: nat := offset + 1;
      assert Escape(s[..0]) == [] by { NoEscape(s); }
      for i := 0 to |s|
        invariant |Escape(s[..i])| <= |Escape(s)|
        invariant at == offset + 1 + |Escape(s[..i])| && buffer[..at] == open + Escape(s[..i])
      {
        EscapeSnoc(s, i);
        EscapePrefix(s, i + 1);
        assert open + (Escape(s[..i]) + EscapeByte(s[i])) == open + Escape(s[..i]) + EscapeByte(s[i]);
        at := PutEscaped(s[i], at);
      }
      assert s[..|s|] == s;
      buffer[at] := QUOTE;
      assert buffer[..at + 1] == open + Escape(s) + [QUOTE];
      assert open + Escape(s) + [QUOTE] == before + Quoted(s);
      buffer[at + 1] := 0;
      assert buffer[..at + 1] == before + Quoted(s);
    }

    method PrintStringPtr(s: seq<byte>) returns (ok: bool)
      requires Valid()
      modifies this`buffer, buffer
      ensures buffer == old(buffer) || fresh(buffer)
      ensures ok ==> Shows(old(Written()), Quoted(s))
      ensures old(Roomy(|Quoted(s)|)) ==> ok
    {
      hide Escape;
      var escapes := CountEscapes(s);
      ok := Ensure(|s| + escapes + 3);
      if ok {
        WriteQuoted(s);
      }
    }

    // ----- values -----

    method PrintValue(j: G.Json) returns (ok: bool)
      requires Valid() && G.Plain(j)
      modifies this, buffer
      ensures buffer == old(buffer) || fresh(buffer)
      ensures ok ==> Shows(old(Written()), G.Text(j, format, old(depth))) && depth == old(depth)
      ensures old(Roomy(|G.Text(j, format, depth)|)) ==> ok
      decreases j, 1, 0
    {
      hide Quoted, G.Decimal, G.ItemsText, G.MembersText;
      match j {
        case Null => ok := PrintWord(G.NULL_TEXT);
        case False => ok := PrintWord(G.FALSE_TEXT);
        case True => ok := PrintWord(G.TRUE_TEXT);
        case Number(n) => ok := PrintNumber(n);
        case String(s) => ok := PrintStringPtr(s);
        case Array(_) => ok := PrintArray(j);
        case Object(_) => ok := PrintObject(j);
      }
    }

    method PrintArray(j: G.Json) returns (ok: bool)
      requires Valid() && j.Array? && G.Plain(j)
      modifies this, buffer
      ensures buffer == old(buffer) || fresh(buffer)
      ensures ok ==> Shows(old(Written()), G.Text(j, format, old(depth))) && depth == old(depth)
      ensures old(Roomy(|G.Text(j, format, depth)|)) ==> ok
      decreases j, 0, |j.items| + 2
    {
      hide G.Plain, G.ItemsText;
      ghost var before, body := Written(), G.ItemsText(j, 0, format, depth + 1);
      assert G.Text(j, format, depth) == [G.LBRACKET] + body + [G.RBRACKET];
      hide G.Text;
      ok := Put([G.LBRACKET], 1, false);
      if !ok {
        return;
      }
      depth := depth + 1;
      assert offset == |before| + 1;
      ok := PrintItems(j);
      if !ok {
        return;
      }
      Bracketed(before, [G.LBRACKET], body, []);
      ok := PrintClose([G.RBRACKET], before, [G.LBRACKET] + body);
      depth := depth - 1;
    }

    /** The end of an array or object: a NUL follows, and the offset stays in front. */
    method PrintClose(text: seq<byte>, ghost before: seq<byte>, ghost head: seq<byte>) returns (ok: bool)
      requires Valid() && Written() == before + head
      modifies this`buffer, buffer
      ensures buffer == old(buffer) || fresh(buffer)
      ensures ok ==> Shows(before, head + text)
      ensures old(Roomy(|text|)) ==> ok
    {
      assert offset == |before| + |head|;
      ok := Ensure(|text| + 1);
      if ok {
        Copy(text);
        Bracketed(before, head, text, []);
      }
    }

    /** The items between the brackets. */
    method PrintItems(j: G.Json) returns (ok: bool)
      requires Valid() && j.Array? && G.Plain(j)
      modifies this, buffer
      ensures buffer == old(buffer) || fresh(buffer)
      ensures ok ==> Valid() && depth == old(depth)
      ensures ok ==> Written() == old(Written()) + G.ItemsText(j, 0, format, old(depth))
      ensures old(Roomy(|G.ItemsText(j, 0, format, depth)|)) ==> ok
      decreases j, 0, |j.items| + 1
    {
      hide G.Plain, G.ItemsText, ItemText;
      ghost var before, d, done := Written(), depth, [];
      assert before + [] == before && G.ItemsText(j, 0, format, d) == [] + G.ItemsText(j, 0, format, d);
      for i := 0 to |j.items|
        invariant Valid() && depth == d && (buffer == old(buffer) || fresh(buffer))
        invariant Written() == before + done && G.ItemsText(j, 0, format, d) == done + G.ItemsText(j, i, format, d)
        invariant offset == |before| + |done|
      {
        ItemsNext(j, i, format, d);
        ghost var text := ItemText(j, i, format, d);
        ok := PrintItem(j, i);
        if !ok {
          return;
        }
        Bracketed(before, done, text, []);
        Bracketed(done, text, G.ItemsText(j, i + 1, format, d), []);
        done := done + text;
      }
      assert G.ItemsText(j, |j.items|, format, d) == [] by { R.NoMoreItems(j, format, d); }
      assert done + [] == done;
      ok := true;
    }

    /** One item and, unless it is the last, the separator. */
    method PrintItem(j: G.Json, i: nat) returns (ok: bool)
      requires Valid() && j.Array? && G.Plain(j) && i < |j.items|
      modifies this, buffer
      ensures buffer == old(buffer) || fresh(buffer)
      ensures ok ==> Valid() && Written() == old(Written()) + ItemText(j, i, format, old(depth)) && depth == old(depth)
      ensures old(Roomy(|ItemText(j, i, format, depth)|)) ==> ok
      decreases j, 0, |j.items| - i
    {
      R.PlainItem(j, i);
      hide G.Plain, G.Text;
      ghost var before, text := Written(), G.Text(j.items[i], format, depth);
      ok := PrintValue(j.items[i]);
      if !ok {
        return;
      }
      TextNoNul(j.items[i], format, depth);
      UpdateOffset(before, text);
      if i + 1 < |j.items| {
        ok := Put(if format then [G.COMMA, G.SPACE] else [G.COMMA], (if format then 2 else 1) + 1, true);
        assert before + text + G.Separator(format) == before + (text + G.Separator(format));
      } else {
        assert text + [] == text;
      }
    }

    method PrintObject(j: G.Json) returns (ok: bool)
      requires Valid() && j.Object? && G.Plain(j)
      modifies this, buffer
      ensures buffer == old(buffer) || fresh(buffer)
      ensures ok ==> Shows(old(Written()), G.Text(j, format, old(depth))) && depth == old(depth)
      ensures old(Roomy(|G.Text(j, format, depth)|)) ==> ok
      decreases j, 0, |j.members| + 2
    {
      hide G.Plain, G.MembersText, G.Tabs;
      ghost var before, body := Written(), G.MembersText(j, 0, format, depth + 1);
      var open := if format then [G.LBRACE, G.NEWLINE] else [G.LBRACE];
      var close := (if format then G.Tabs(depth) else []) + [G.RBRACE];
      assert G.Text(j, format, depth) == open + body + close;
      hide G.Text;
      ok := Put(open, |open| + 1, false);
      if !ok {
        return;
      }
      depth := depth + 1;
      assert offset == |before| + |open|;
      ok := PrintMembers(j);
      if !ok {
        return;
      }
      Bracketed(before, open, body, []);
      ok := PrintClose(close, before, open + body);
      depth := depth - 1;
    }

    method PrintMembers(j: G.Json) returns (ok: bool)
      requires Valid() && j.Object? && G.Plain(j) && depth > 0
      modifies this, buffer
      ensures buffer == old(buffer) || fresh(buffer)
      ensures ok ==> Valid() && depth == old(depth)
      ensures ok ==> Written() == old(Written()) + G.MembersText(j, 0, format, old(depth))
      ensures old(Roomy(|G.MembersText(j, 0, format, depth)|)) ==> ok
      decreases j, 0, |j.members| + 1
    {
      hide G.Plain, G.MembersText, MemberText;
      ghost var before, d, done := Written(), depth, [];
      assert before + [] == before && G.MembersText(j, 0, format, d) == [] + G.MembersText(j, 0, format, d);
      for i := 0 to |j.members|
        invariant Valid() && depth == d && (buffer == old(buffer) || fresh(buffer))
        invariant Written() == before + done && G.MembersText(j, 0, format, d) == done + G.MembersText(j, i, format, d)
        invariant offset == |before| + |done|
      {
        MembersNext(j, i, format, d);
        ghost var text := MemberText(j, i, format, d);
        ok := PrintMember(j, i);
        if !ok {
          return;
        }
        Bracketed(before, done, text, []);
        Bracketed(done, text, G.MembersText(j, i + 1, format, d), []);
        done := done + text;
      }
      assert G.MembersText(j, |j.members|, format, d) == [] by { R.NoMoreMembers(j, format, d); }
      assert done + [] == done;
      ok := true;
    }

    /** One member: its line up to the value, the value, and what ends the line. */
    method PrintMember(j: G.Json, i: nat) returns (ok: bool)
      requires Valid() && j.Object? && G.Plain(j) && i < |j.members| && depth > 0
      modifies this, buffer
      ensures buffer == old(buffer) || fresh(buffer)
      ensures ok ==> Valid() && depth == old(depth)
      ensures ok ==> Written() == old(Written()) + MemberText(j, i, format, old(depth))
      ensures old(Roomy(|MemberText(j, i, format, depth)|)) ==> ok
      decreases j, 0, |j.members| - i
    {
      R.PlainMember(j, i);
      hide G.Plain, G.Text, G.Header;
      ghost var before, header := Written(), G.Header(j.members[i].name, format, depth);
      ghost var text := G.Text(j.members[i].value, format, depth);
      var last := i + 1 == |j.members|;
      assert MemberText(j, i, format, depth) == header + text + G.Trailer(format, last);
      ok := PrintHeader(j.members[i].name);
      if !ok {
        return;
      }
      assert offset == |before| + |header|;
      ok := PrintValue(j.members[i].value);
      if !ok {
        return;
      }
      TextNoNul(j.members[i].value, format, depth);
      UpdateOffset(before + header, text);
      assert offset == |before| + |header| + |text|;
      var trailer := (if last then [] else [G.COMMA]) + (if format then [G.NEWLINE] else []);
      ok := Put(trailer, |trailer| + 1, true);
      Bracketed(before, header, text, trailer);
      Bracketed(before, header + text, trailer, []);
    }

    method PrintHeader(name: seq<byte>) returns (ok: bool)
      requires Valid() && depth > 0
      modifies this`buffer, this`offset, buffer
      ensures buffer == old(buffer) || fresh(buffer)
      ensures ok ==> Valid() && Written() == old(Written()) + G.Header(name, format, depth)
      ensures old(Roomy(|G.Header(name, format, depth)|)) ==> ok
    {
      hide Quoted, G.Tabs;
      ghost var before := Written();
      var tabs := if format then G.Tabs(depth) else [];
      var colon := if format then [G.COLON, G.TAB] else [G.COLON];
      assert G.Header(name, format, depth) == tabs + Quoted(name) + colon;
      hide G.Header;
      if format {
        ok := Put(tabs, depth, false);
        if !ok {
          return;
        }
      } else {
        assert before + [] == before;
      }
      assert Written() == before + tabs && offset == |before| + |tabs|;
      ok := PrintStringPtr(name);
      if !ok {
        return;
      }
      QuotedNoNul(name);
      UpdateOffset(before + tabs, Quoted(name));
      assert offset == |before| + |tabs| + |Quoted(name)|;
      ok := Put(colon, |colon|, false);
      Bracketed(before, tabs, Quoted(name), colon);
      Bracketed(before, tabs + Quoted(name), colon, []);
    }

    /** Print a whole value into a fresh buffer: the text, and its length. */
    method Print(j: G.Json) returns (ok: bool)
      requires Valid() && offset == 0 && depth == 0 && G.Plain(j)
      modifies this, buffer
      ensures ok ==> Valid() && Written() == G.Text(j, format, 0) && buffer[offset] == 0
      ensures old(Roomy(|G.Text(j, format, 0)|)) ==> ok
    {
      hide G.Text;
      ok := PrintValue(j);
      if ok {
        TextNoNul(j, format, 0);
        UpdateOffset([], G.Text(j, format, 0));
        assert [] + G.Text(j, format, 0) == G.Text(j, format, 0);
      }
    }
  }

  /** The text of member `i` with what ends its line. */
  function MemberText(j: G.Json, i: nat, fmt: bool, d: nat): seq<byte>
    requires j.Object? && i < |j.members|
  {
    G.Header(j.members[i].name, fmt, d) + G.Text(j.members[i].value, fmt, d) + G.Trailer(fmt, i + 1 == |j.members|)
  }

  lemma MembersNext(j: G.Json, i: nat, fmt: bool, d: nat)
    requires j.Object? && i < |j.members|
    ensures G.MembersText(j, i, fmt, d) == MemberText(j, i, fmt, d) + G.MembersText(j, i + 1, fmt, d)
  {
    hide G.Text, G.Header;
  }

  lemma Bracketed(a: seq<byte>, b: seq<byte>, c: seq<byte>, d: seq<byte>)
    ensures (a + b) + c + d == a + (b + c + d) && (a + b) + c == a + (b + c)
  {
  }

  /** The text of item `i` and its separator. */
  function ItemText(j: G.Json, i: nat, fmt: bool, d: nat): seq<byte>
    requires j.Array? && i < |j.items|
  {
    G.Text(j.items[i], fmt, d) + (if i + 1 < |j.items| then G.Separator(fmt) else [])
  }

  lemma ItemsNext(j: G.Json, i: nat, fmt: bool, d: nat)
    requires j.Array? && i < |j.items|
    ensures G.ItemsText(j, i, fmt, d) == ItemText(j, i, fmt, d) + G.ItemsText(j, i + 1, fmt, d)
  {
    hide G.Text;
  }

  lemma {:induction false} EscapeAppend(a: seq<byte>, b: seq<byte>)
    ensures Escape(a + b) == Escape(a) + Escape(b)
    decreases |a|
  {
    hide EscapeByte;
    if a == [] {
      assert a + b == b;
    } else {
      assert (a + b)[1..] == a[1..] + b;
      EscapeAppend(a[1..], b);
    }
  }

  lemma NoEscape(s: seq<byte>)
    ensures Escape(s[..0]) == []
  {
  }

  lemma EscapeSnoc(s: seq<byte>, i: nat)
    requires i < |s|
    ensures Escape(s[..i + 1]) == Escape(s[..i]) + EscapeByte(s[i])
  {
    hide EscapeByte;
    assert s[..i + 1] == s[..i] + [s[i]];
    EscapeAppend(s[..i], [s[i]]);
    assert Escape([s[i]]) == EscapeByte(s[i]) + Escape([s[i]][1..]);
    assert [s[i]][1..] == [] && Escape([]) == [];
  }

  lemma EscapePrefix(s: seq<byte>, i: nat)
    requires i <= |s|
    ensures |Escape(s[..i])| <= |Escape(s)|
  {
    assert s == s[..i] + s[i..];
    EscapeAppend(s[..i], s[i..]);
  }
}
