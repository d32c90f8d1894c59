/** What arrives of a compiled patch: the payload round trip. */
module PayloadRoundTrip {
  import opened Words
  import opened Ebpf
  import opened JsonString
  import opened Json
  import opened PythonJson
  import opened Slices
  import I = Interp
  import R = Runs
  import opened UbpfVm
  import opened Payload

  // ----- the bytes that arrive -----

  lemma HexOfByte(b: byte)
    ensures Strtoul16(Hex(b)) == b && !IsDelimiter(Hex(b)[0]) && !IsDelimiter(Hex(b)[1])
  {
    var hi, lo := b / 16, b % 16;
    var t := Hex(b);
    assert HexDigit(t[0]) == hi && HexDigit(t[1]) == lo && !IsSpace(t[0]) && t[0] != 0x2d && t[0] != 0x2b;
    hide Hex, HexDigit;
    assert t[1..][1..] == [] && t[1..][0] == t[1];
    assert HexRun(t[1..][1..], 16 * hi + lo) == 16 * hi + lo;
    assert HexRun(t[1..], hi) == HexRun(t[1..][1..], 16 * hi + lo);
    assert HexRun(t, 0) == HexRun(t[1..], hi);
  }

  /** The token of one byte, searched from the backslash or from the letter behind it. */
  lemma OneToken(s: seq<byte>, q: nat, p: nat, b: byte)
    requires At(s, q, [BACKSLASH, LOWER_X] + Hex(b)) && (p == q || p == q + 1)
    requires q + 4 < |s| ==> s[q + 4] == BACKSLASH
    ensures NextToken(s, p) == Some((Hex(b), if q + 4 < |s| then q + 5 else q + 4))
  {
    var piece := [BACKSLASH, LOWER_X] + Hex(b);
    HexOfByte(b);
    hide Hex, Strtoul16;
    AtByte(s, q, piece, 0);
    AtByte(s, q, piece, 1);
    AtByte(s, q, piece, 2);
    AtByte(s, q, piece, 3);
    assert SkipDelimiters(s, q + 2) == q + 2 && SkipDelimiters(s, q + 1) == q + 2;
    assert TokenEnd(s, q + 4) == q + 4 && TokenEnd(s, q + 3) == q + 4;
    assert s[q + 2..q + 4] == Hex(b);
  }

  /** The hexadecimal text read from a position in it gives the bytes back. */
  lemma {:induction false} TokensAt(s: seq<byte>, q: nat, p: nat, ops: seq<byte>, room: nat)
    requires At(s, q, HexText(ops)) && q + |HexText(ops)| == |s| && room >= |ops|
    requires p == q || (ops != [] && p == q + 1)
    ensures TokenBytes(s, p, room) == ops
    decreases |ops|
  {
    hide Hex, Strtoul16, NextToken;
    if ops == [] {
      NoMoreTokens(s);
    } else {
      var b, rest := ops[0], HexText(ops[1..]);
      assert HexText(ops) == [BACKSLASH, LOWER_X] + Hex(b) + rest;
      var next := if q + 4 < |s| then q + 5 else q + 4;
      HexPieces(s, q, b, ops[1..]);
      OneToken(s, q, p, b);
      HexOfByte(b);
      hide HexText;
      TokensAt(s, q + 4, next, ops[1..], room - 1);
      assert [b] + ops[1..] == ops;
      assert TokenBytes(s, p, room) == [Strtoul16(Hex(b)) % 0x100] + TokenBytes(s, next, room - 1);
    }
  }

  lemma NoMoreTokens(s: seq<byte>)
    ensures NextToken(s, |s|) == None
  {
  }

  lemma HexPieces(s: seq<byte>, q: nat, b: byte, more: seq<byte>)
    requires At(s, q, [BACKSLASH, LOWER_X] + Hex(b) + HexText(more)) && q + 4 + |HexText(more)| == |s|
    ensures At(s, q, [BACKSLASH, LOWER_X] + Hex(b)) && At(s, q + 4, HexText(more))
    ensures more != [] <==> q + 4 < |s|
    ensures q + 4 < |s| ==> s[q + 4] == BACKSLASH
  {
    hide Hex;
    AtAppend(s, q, [BACKSLASH, LOWER_X] + Hex(b), HexText(more));
    if more != [] {
      AtByteIn(s, q + 4, HexText(more));
    }
  }

  /** The reader's loop reproduces the bytes; the array's last byte is reached by no token. */
  lemma TokensOfHex(ops: seq<byte>)
    ensures TokenBytes(HexText(ops), 0, |ops| + 1) == ops
  {
    assert HexText(ops)[0..|HexText(ops)|] == HexText(ops);
    TokensAt(HexText(ops), 0, 0, ops, |ops| + 1);
  }

  // ----- the entries that are found -----

  /** No other spelling of a name. */
  predicate OneSpelling(ms: seq<Member>, name: seq<byte>)
  {
    forall i :: 0 <= i < |ms| && Lower(ms[i].name) == Lower(name) ==> ms[i].name == name
  }

  /** After an update the new value is found under its name, and the others as before. */
  lemma {:induction false} UpdateFinds(ms: seq<Member>, m: Member, name: seq<byte>)
    requires OneSpelling(ms, name) && OneSpelling([m], name)
    ensures OneSpelling(Update(ms, m), name)
    ensures Item(Update(ms, m), name) == if m.name == name then Some(m.value) else Item(ms, name)
  {
    assert [m][0] == m;
    if ms != [] {
      UpdateFinds(ms[1..], m, name);
      assert forall i :: 0 <= i < |ms| - 1 ==> ms[1..][i] == ms[i + 1];
      var u := Update(ms, m);
      forall i | 0 <= i < |u| && Lower(u[i].name) == Lower(name) ensures u[i].name == name {
        if ms[0].name == m.name {
          assert u[i] == if i == 0 then m else ms[i];
        } else if i > 0 {
          assert u[i] == Update(ms[1..], m)[i - 1];
        }
      }
    }
  }

  /** The last update of a name counts. */
  function LastValue(news: seq<Member>, name: seq<byte>, before: Option<Json>): Option<Json>
  {
    if news == [] then before
    else LastValue(news[1..], name, Chosen(news[0], name, before))
  }

  function Chosen(m: Member, name: seq<byte>, before: Option<Json>): Option<Json>
  {
    if m.name == name then Some(m.value) else before
  }

  lemma {:induction false} UpdateAllFinds(ms: seq<Member>, news: seq<Member>, name: seq<byte>)
    requires OneSpelling(ms, name) && OneSpelling(news, name)
    ensures Item(UpdateAll(ms, news), name) == LastValue(news, name, Item(ms, name))
    decreases |news|
  {
    if news != [] {
      assert OneSpelling([news[0]], name);
      UpdateFinds(ms, news[0], name);
      UpdateAllFinds(Update(ms, news[0]), news[1..], name);
    }
  }

  predicate Avoids(ms: seq<Member>, name: seq<byte>) { forall i :: 0 <= i < |ms| ==> Lower(ms[i].name) != Lower(name) }

  lemma {:induction false} NoneAvoids(ms: seq<Member>, name: seq<byte>, before: Option<Json>)
    requires Avoids(ms, name)
    ensures LastValue(ms, name, before) == before
  {
    if ms != [] {
      NoneAvoids(ms[1..], name, before);
    }
  }

  lemma NamesDiffer()
    ensures Lower(EBPF_PATCH) != Lower(EBPF_PATCH_LEN) && Lower(NAME) != Lower(EBPF_PATCH)
    ensures Lower(NAME) != Lower(EBPF_PATCH_LEN)
  {
    assert |EBPF_PATCH| == 10 && |EBPF_PATCH_LEN| == 14 && |NAME| == 4;
  }

  /** What a configuration may hold for the code to be found: no other spelling of the two names. */
  predicate Configurable(config: seq<Member>, more: seq<Member>)
  {
    && OneSpelling(config, EBPF_PATCH) && OneSpelling(config, EBPF_PATCH_LEN)
    && Avoids(more, EBPF_PATCH) && Avoids(more, EBPF_PATCH_LEN)
  }

  lemma CodeEntriesFound(config: seq<Member>, ops: seq<byte>, src: seq<byte>, more: seq<Member>)
    requires |ops| < TWO31 - 1 && Configurable(config, more)
    ensures var ms := PatchDocument(config, ops, src, more).members;
      && Item(ms, EBPF_PATCH) == Some(String(HexText(ops)))
      && Item(ms, EBPF_PATCH_LEN) == Some(Number(|ops| + 1))
  {
    NamesDiffer();
    hide HexText;
    var entries := CodeEntries(ops, src);
    ThreeFound(config, entries[0], entries[1], entries[2], more);
  }

  lemma ThreeFound(config: seq<Member>, a: Member, b: Member, c: Member, more: seq<Member>)
    requires Lower(a.name) != Lower(b.name) && Lower(c.name) != Lower(a.name) && Lower(c.name) != Lower(b.name)
    requires OneSpelling(config, a.name) && OneSpelling(config, b.name) && Avoids(more, a.name) && Avoids(more, b.name)
    ensures Item(UpdateAll(config, [a, b, c] + more), a.name) == Some(a.value)
    ensures Item(UpdateAll(config, [a, b, c] + more), b.name) == Some(b.value)
  {
    SpellingOfThree(a, b, c, a.name);
    SpellingOfThree(a, b, c, b.name);
    hide Lower, UpdateAll, Item, LastValue, OneSpelling, Avoids;
    FoundOf(config, [a, b, c], more, a.name);
    FoundOf(config, [a, b, c], more, b.name);
    LastOfThree(a, b, c, a.name, Item(config, a.name));
    LastOfThree(a, b, c, b.name, Item(config, b.name));
  }

  lemma SpellingOfBoth(a: seq<Member>, b: seq<Member>, name: seq<byte>)
    requires OneSpelling(a, name) && Avoids(b, name)
    ensures OneSpelling(a + b, name)
  {
  }

  lemma LastOfThree(a: Member, b: Member, c: Member, name: seq<byte>, before: Option<Json>)
    requires c.name != name
    ensures LastValue([a, b, c], name, before) == if b.name == name then Some(b.value) else Chosen(a, name, before)
  {
    var x := Chosen(a, name, before);
    var y := Chosen(b, name, x);
    assert [a, b, c][1..] == [b, c] && [b, c][1..] == [c] && [c][1..] == [];
    assert LastValue([c], name, y) == LastValue([], name, y) == y;
    assert LastValue([b, c], name, x) == LastValue([c], name, y);
    assert LastValue([a, b, c], name, before) == LastValue([b, c], name, x);
  }

  lemma SpellingOfThree(a: Member, b: Member, c: Member, name: seq<byte>)
    requires forall m :: m in [a, b, c] && Lower(m.name) == Lower(name) ==> m.name == name
    ensures OneSpelling([a, b, c], name)
  {
  }

  lemma FoundOf(config: seq<Member>, entries: seq<Member>, more: seq<Member>, name: seq<byte>)
    requires OneSpelling(config, name) && OneSpelling(entries, name) && Avoids(more, name) && |entries| == 3
    ensures Item(UpdateAll(config, entries + more), name) ==
      LastValue(entries, name, Item(config, name))
  {
    var news := entries + more;
    SpellingOfBoth(entries, more, name);
    UpdateAllFinds(config, news, name);
    LastOfAll(entries, more, name, Item(config, name));
    NoneAvoids(more, name, LastValue(entries, name, Item(config, name)));
  }

  lemma {:induction false} LastOfAll(a: seq<Member>, b: seq<Member>, name: seq<byte>, before: Option<Json>)
    ensures LastValue(a + b, name, before) == LastValue(b, name, LastValue(a, name, before))
  {
    if a == [] {
      assert a + b == b;
    } else {
      assert (a + b)[1..] == a[1..] + b && (a + b)[0] == a[0];
      LastOfAll(a[1..], b, name, Chosen(a[0], name, before));
    }
  }

  /** The document's bytes, as a C string. */
  function Written(config: seq<Member>, ops: seq<byte>, src: seq<byte>, more: seq<Member>): seq<byte>
    requires |ops| < TWO31 - 1
  {
    Dump(PatchDocument(config, ops, src, more), 0) + [0]
  }

  /**
   * Payload round trip: from any configuration without another spelling of the two names, the reader finds the text and
   * an array length of one more than the code's, and the tokens of that text are the code.
   */
  lemma PayloadRoundTrip(config: seq<Member>, ops: seq<byte>, src: seq<byte>, more: seq<Member>, strtod: Strtod)
    requires |ops| < TWO31 - 1 && Configurable(config, more)
    requires Dumpable(PatchDocument(config, ops, src, more))
    requires Nesting(PatchDocument(config, ops, src, more)) <= NESTING_LIMIT
    ensures FindPatch(Written(config, ops, src, more), strtod) == Found(HexText(ops), |ops| + 1)
    ensures TokenBytes(HexText(ops), 0, |ops| + 1) == ops
  {
    hide Dumpable, Nesting, Dump, Parse, HexText, TokenBytes, Item, Configurable, UpdateAll, CodeEntries;
    DumpRoundTrip(PatchDocument(config, ops, src, more), strtod);
    CodeEntriesFound(config, ops, src, more);
    TokensOfHex(ops);
  }

  // ----- the program that arrives -----

  lemma {:induction false} DecodePrefix(code: seq<byte>, n: nat)
    requires 8 * n <= |code|
    ensures DecodeInsts(code)[..n] == DecodeInsts(code[..8 * n])
    decreases n
  {
    hide DecodeInst;
    if n > 0 {
      DecodePrefix(code[8..], n - 1);
      assert code[8..][..8 * (n - 1)] == code[..8 * n][8..] && code[..8 * n][..8] == code[..8];
    }
  }

  /**
   * The stored length is one too large. What is loaded is the program unless the code ends one byte short of a slot.
   */
  lemma OneByteMore(ops: seq<byte>, extra: byte)
    ensures DecodeInsts(ops + [extra]) == DecodeInsts(ops) <==> |ops| % 8 != 7
  {
    hide DecodeInsts;
    NextCount(|ops|);
    if |ops| % 8 != 7 {
      SamePrefix(ops, extra);
    } else {
      LengthsDiffer(ops, extra);
    }
  }

  /** The 16-bit number of instructions is right unless the code ends one byte short of a slot or is too long. */
  lemma CountOneMore(n: nat)
    ensures NumInsts(n + 1) == n / 8 <==> n % 8 != 7 && n < 8 * TWO16
  {
    var k := n / 8;
    NextCount(n);
    assert n == 8 * k + n % 8;
    if n % 8 == 7 {
      NeverEqual(k);
    } else if k < TWO16 {
      DivModUnique(k, TWO16, 0, k);
    }
  }

  lemma NextCount(n: nat)
    ensures (n + 1) / 8 == if n % 8 == 7 then n / 8 + 1 else n / 8
  {
    var k := n / 8;
    assert n == 8 * k + n % 8;
    DivModUnique(n + 1, 8, if n % 8 == 7 then k + 1 else k, if n % 8 == 7 then 0 else n % 8 + 1);
  }

  lemma LengthsDiffer(ops: seq<byte>, extra: byte)
    requires (|ops| + 1) / 8 != |ops| / 8
    ensures DecodeInsts(ops + [extra]) != DecodeInsts(ops)
  {
    hide DecodeInsts;
    assert |DecodeInsts(ops + [extra])| == |ops + [extra]| / 8;
  }

  lemma SamePrefix(ops: seq<byte>, extra: byte)
    requires (|ops| + 1) / 8 == |ops| / 8
    ensures DecodeInsts(ops + [extra]) == DecodeInsts(ops)
  {
    var code, n := ops + [extra], |ops| / 8;
    hide DecodeInsts;
    DecodePrefix(code, n);
    DecodePrefix(ops, n);
    assert code[..8 * n] == ops[..8 * n];
    assert DecodeInsts(code)[..n] == DecodeInsts(code) && DecodeInsts(ops)[..n] == DecodeInsts(ops);
  }

  lemma NeverEqual(n: nat)
    ensures (n + 1) % TWO16 != n
  {
    if n + 1 < TWO16 {
      DivModUnique(n + 1, TWO16, 0, n + 1);
    }
  }

  /**
   * A program written into a patch document, read back and run gives the result of the program, whatever the byte
   * behind it was.
   */
  method InstallAndRun(document: seq<byte>, strtod: Strtod, f: Helper3, ram: Ram, frame: u64, frameLen: u64, stack: u64,
                       h: I.Helpers, garbage: I.Regs, fuel: nat,
                       ghost p: seq<Inst>, ghost config: seq<Member>, ghost src: seq<byte>, ghost more: seq<Member>)
    returns (finished: bool, ret: i32)
    requires 8 * |p| < TWO31 - 1 && Configurable(config, more)
    requires var j := PatchDocument(config, EncodeInsts(p), src, more); Dumpable(j) && Nesting(j) <= NESTING_LIMIT
    requires document == Written(config, EncodeInsts(p), src, more)
    modifies ram
    ensures var ctx := I.Ctx(frame, frameLen, stack);
      var o := I.Run(I.Vm(p, false, ExtFuncs(f), -1), h, ctx, I.Initial(ctx, garbage, old(ram.bytes)), fuel);
      && finished == !o.Next?
      && (o.Returned? ==> ret % 0x1_0000_0000 == o.ret % 0x1_0000_0000)
      && (o.DivideByZero? || o.OutOfBounds? ==> ret == -1)
      && (!o.Undefined? ==> ram.bytes == R.MemOf(o))
  {
    var code := Install(document, strtod, p, config, src, more);
    hide Dumpable, Nesting, PatchDocument, Written, Configurable, I.Run, ExtFuncs, I.Initial, DecodeInsts;
    finished, ret := RunEbpf(code, f, ram, frame, frameLen, stack, h, garbage, fuel);
  }

  method Install(document: seq<byte>, strtod: Strtod, ghost p: seq<Inst>, ghost config: seq<Member>,
                 ghost src: seq<byte>, ghost more: seq<Member>)
    returns (code: seq<byte>)
    requires 8 * |p| < TWO31 - 1 && Configurable(config, more)
    requires var j := PatchDocument(config, EncodeInsts(p), src, more); Dumpable(j) && Nesting(j) <= NESTING_LIMIT
    requires document == Written(config, EncodeInsts(p), src, more)
    ensures DecodeInsts(code) == p
  {
    ghost var ops := EncodeInsts(p);
    hide Dumpable, Nesting, PatchDocument, Written, Configurable, FindPatch, TokenBytes, HexText, EncodeInsts,
      DecodeInsts;
    PayloadRoundTrip(config, ops, src, more, strtod);
    var bytecode := GetEbpfPatch(document, strtod);
    code := bytecode[..];
    OneLonger(code, ops);
    OneByteMore(ops, code[|ops|]);
    DecodeEncodeInsts(p);
  }

  lemma OneLonger(code: seq<byte>, ops: seq<byte>)
    requires |code| == |ops| + 1 && ops <= code
    ensures code == ops + [code[|ops|]]
  {
  }
}
