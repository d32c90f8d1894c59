/** Assembling what was disassembled. */
module AsmRoundTrip {
  import opened Words
  import opened Ebpf
  import opened Slices
  import opened Numerals
  import opened Asm
  import opened AsmParser

  // ----- keywords -----

  function WidthSuffix(w: Width): string { if w.W32? then "32" else "" }

  lemma FindAluName(a: AluOp)
    ensures FindAlu(AluName(AluCode(a))) == Some(a)
    ensures var n := AluName(AluCode(a));
      2 <= |n| <= 4 && n[0] in "asmdolrx" && (forall i :: 0 <= i < |n| ==> 'a' <= n[i] <= 'z')
  {
  }

  /** Names made of letters and something with a digit are never the same. */
  predicate Letters(w: string) { forall i :: 0 <= i < |w| ==> 'a' <= w[i] <= 'z' }

  lemma FindAluLetters(w: string)
    requires FindAlu(w).Some?
    ensures Letters(w)
  {
  }

  lemma NotUnary(a: AluOp)
    ensures FindUnary(AluName(AluCode(a))).None?
  {
  }

  lemma NotUnary32(n: string)
    requires Letters(n) && FindUnary(n + "32").Some?
    ensures n == "neg" || n == "le" || n == "be"
  {
    var w := n + "32";
    assert w[..|w| - 2] == n;
    assert FindUnary(w).Some?;
    assert w[|w| - 2] == '3' && w[|w| - 1] == '2';
  }

  lemma FindBinary(w: Width, a: AluOp)
    ensures Find(AluName(AluCode(a)) + WidthSuffix(w)) == Some(Binary(w, a))
  {
    FindAluName(a);
    NotUnary(a);
    var n := AluName(AluCode(a));
    hide AluName, FindAlu;
    if w.W64? {
      assert n + "" == n;
    } else {
      var v := n + "32";
      assert v[|v| - 2..] == "32" && v[..|v| - 2] == n;
      assert !Letters(v) by { assert v[|v| - 1] == '2'; }
      if FindAlu(v).Some? {
        FindAluLetters(v);
      }
      if FindUnary(v).Some? {
        NotUnary32(n);
        assert FindAlu("neg").None? && FindAlu("le").None? && FindAlu("be").None? by { NotAluNames(); }
      }
    }
  }

  lemma NotAluNames()
    ensures FindAlu("neg").None? && FindAlu("le").None? && FindAlu("be").None?
  {
  }

  lemma FindNeg(w: Width)
    ensures Find("neg" + WidthSuffix(w)) == Some(Unary(Neg(w), 0))
  {
    assert "neg" + "" == "neg" && "neg" + "32" == "neg32";
  }

  function EndName(big: bool, imm: int): string
    requires imm == 16 || imm == 32 || imm == 64
  {
    (if big then "be" else "le") + (if imm == 16 then "16" else if imm == 32 then "32" else "64")
  }

  lemma FindEnd(big: bool, imm: int)
    requires imm == 16 || imm == 32 || imm == 64
    ensures Find(EndName(big, imm)) == Some(Unary(End(big), imm))
  {
    assert "le" + "16" == "le16" && "le" + "32" == "le32" && "le" + "64" == "le64";
    assert "be" + "16" == "be16" && "be" + "32" == "be32" && "be" + "64" == "be64";
  }

  lemma FindSizeName(sz: Size)
    ensures FindSize(SizeName(SizeCode(sz))) == Some(sz)
    ensures var n := SizeName(SizeCode(sz)); 1 <= |n| <= 2 && Letters(n) && n[0] != 'x'
  {
  }

  /** A word that starts with these letters is neither arithmetic nor unary. */
  lemma NotArithmetic(w: string)
    requires |w| >= 2
    requires (w[..2] == "st" || w == "lddw" || (|w| > 2 && w[..3] == "ldx") || w[0] == 'j' || w[0] == 'c' ||
      w[0] == 'e')
    requires Letters(w)
    ensures FindUnary(w).None? && FindAlu(w).None? && !(|w| > 2 && w[|w| - 2..] == "32")
  {
    assert |w| > 2 ==> w[|w| - 2..][1] == w[|w| - 1];
    assert w[..2] == "st" ==> w[0] == 's' && w[1] == 't';
    assert |w| > 2 && w[..3] == "ldx" ==> w[0] == 'l' && w[1] == 'd';
  }

  lemma FindLoad(sz: Size)
    ensures Find("ldx" + SizeName(SizeCode(sz))) == Some(LoadMem(sz))
  {
    FindSizeName(sz);
    var n := SizeName(SizeCode(sz));
    var w := "ldx" + n;
    assert w[..3] == "ldx" && w[3..] == n;
    assert w != "lddw" by { assert w[2] == 'x'; }
    NotArithmetic(w);
    hide SizeName, FindSize, FindUnary, FindAlu;
  }

  lemma FindStoreReg(sz: Size)
    ensures Find("stx" + SizeName(SizeCode(sz))) == Some(StoreReg(sz))
  {
    FindSizeName(sz);
    var n := SizeName(SizeCode(sz));
    var w := "stx" + n;
    assert w[..3] == "stx" && w[3..] == n && w[..2] == "st";
    assert w[0] == 's';
    NotArithmetic(w);
    hide SizeName, FindSize, FindUnary, FindAlu;
  }

  lemma FindStoreImm(sz: Size)
    ensures Find("st" + SizeName(SizeCode(sz))) == Some(StoreImm(sz))
  {
    FindSizeName(sz);
    var n := SizeName(SizeCode(sz));
    var w := "st" + n;
    assert w[..2] == "st" && w[2..] == n;
    assert w[0] == 's' && w[2] == n[0];
    assert |w| > 3 ==> w[..3][2] == n[0];
    NotArithmetic(w);
    hide SizeName, FindSize, FindUnary, FindAlu;
  }

  lemma FindWide()
    ensures Find("lddw") == Some(LoadWide)
  {
    NotArithmetic("lddw");
    hide FindUnary, FindAlu;
  }

  lemma CondName(c: Cond)
    ensures FindJump(JmpName(CondCode(c))) == Some(Compare(c))
    ensures var n := JmpName(CondCode(c)); |n| >= 2 && Letters(n) && n[0] == 'j'
  {
  }

  lemma NotMem(w: string)
    requires |w| >= 2 && (w[0] == 'j' || w[0] == 'c' || w[0] == 'e')
    ensures FindMem(w).None?
  {
    assert w[..2][0] == w[0];
    assert |w| > 3 ==> w[..3][0] == w[0];
  }

  lemma FindJumpWord(w: string)
    requires FindJump(w).Some? && |w| >= 2 && Letters(w) && (w[0] == 'j' || w[0] == 'c' || w[0] == 'e')
    ensures Find(w) == FindJump(w)
  {
    NotArithmetic(w);
    NotMem(w);
    hide FindUnary, FindAlu, FindMem, FindJump;
  }

  lemma FindJa()
    ensures Find("ja") == Some(Jump)
  {
    FindJumpWord("ja");
    hide Find;
  }

  lemma FindCall()
    ensures Find("call") == Some(CallHelper)
  {
    FindJumpWord("call");
    hide Find;
  }

  lemma FindExit()
    ensures Find("exit") == Some(Leave)
  {
    FindJumpWord("exit");
    hide Find;
  }

  lemma FindOthers()
    ensures Find("ja") == Some(Jump) && Find("call") == Some(CallHelper) && Find("exit") == Some(Leave)
  {
    hide Find;
    FindJa();
    FindCall();
    FindExit();
  }

  // ----- numbers -----

  lemma DigitIsNoSpace(c: char)
    requires IsDigit(c, 10) || IsDigit(c, 16)
    ensures !IsSpace(c) && !IsSign(c)
  {
  }

  lemma {:induction false} DigitsRun(s: string, i: nat, t: string, base: nat)
    requires At(s, i, t) && AllDigits(t, base) && i + |t| < |s| && !IsDigit(s[i + |t|], base)
    ensures DigitsEnd(s, i, base) == i + |t|
    decreases |t|
  {
    hide IsDigit;
    if t != "" {
      AtByte(s, i, t, 0);
      assert t == [t[0]] + t[1..];
      AtAppend(s, i, [t[0]], t[1..]);
      DigitsRun(s, i + 1, t[1..], base);
    }
  }

  /** A decimal number, when neither a digit nor an x follows. */
  lemma DecimalNumber(s: string, i: nat, n: nat)
    requires At(s, i, Numeral(n, 10)) && i + |Numeral(n, 10)| < |s|
    requires !IsDigit(s[i + |Numeral(n, 10)|], 10) && s[i + |Numeral(n, 10)|] != 'x'
    ensures Number(s, i) == Ok(n, i + |Numeral(n, 10)|)
  {
    var t := Numeral(n, 10);
    NumeralDigits(n, 10);
    hide Numeral, Value, DigitsEnd;
    AtByte(s, i, t, 0);
    if |t| > 1 {
      AtByte(s, i, t, 1);
      assert s[i + 1] != 'x' by { assert IsDigit(t[1], 10); }
    }
    assert t == [t[0]] + t[1..];
    AtAppend(s, i, [t[0]], t[1..]);
    hide Numeral, DigitValue;
    assert AllDigits(t[1..], 10);
    DigitsRun(s, i + 1, t[1..], 10);
    assert s[i..i + |t|] == t;
  }

  /** A hexadecimal number with its prefix. */
  lemma HexNumber(s: string, i: nat, n: nat)
    requires At(s, i, I(n)) && i + |I(n)| < |s| && !IsDigit(s[i + |I(n)|], 16)
    ensures Number(s, i) == Ok(n, i + |I(n)|)
  {
    var t := Numeral(n, 16);
    NumeralDigits(n, 16);
    assert I(n) == "0x" + t;
    AtAppend(s, i, "0x", t);
    AtByte(s, i, "0x", 0);
    AtByte(s, i, "0x", 1);
    AtByte(s, i + 2, t, 0);
    hide Numeral, IsDigit, Value, I;
    MoreDigits(s, i + 2, t, 16);
  }

  // ----- tokens -----

  /** One blank, or none, in front of a token. */
  lemma SkipTo(s: string, i: nat, lead: string, t: string)
    requires At(s, i, lead + t) && (lead == "" || lead == " ") && t != "" && !IsSpace(t[0])
    ensures Skip(s, i) == i + |lead| && At(s, i + |lead|, t)
  {
    AtAppend(s, i, lead, t);
    AtByte(s, i + |lead|, t, 0);
    if lead == " " {
      AtByte(s, i, lead, 0);
      assert Skip(s, i) == Skip(s, i + 1);
    }
  }

  /** Nothing that could go on a number. */
  predicate Stops(tail: string)
  {
    tail != "" && !IsDigit(tail[0], 16) && tail[0] != 'x'
  }

  lemma LiteralThen(s: string, i: nat, c: char, tail: string)
    requires At(s, i, [c] + tail) && !IsSpace(c)
    ensures Literal(s, i, c) == Ok((), i + 1) && At(s, i + 1, tail)
  {
    AtAppend(s, i, [c], tail);
    AtByte(s, i, [c], 0);
  }

  lemma IntegerThen(s: string, i: nat, n: nat, tail: string)
    requires At(s, i, Numeral(n, 10) + tail) && Stops(tail)
    ensures Integer(s, i) == Ok(n, i + |Numeral(n, 10)|) && At(s, i + |Numeral(n, 10)|, tail)
    ensures Skip(s, i) == i
  {
    var t := Numeral(n, 10);
    NumeralDigits(n, 10);
    AtAppend(s, i, t, tail);
    AtByte(s, i, t, 0);
    AtByte(s, i + |t|, tail, 0);
    DigitIsNoSpace(t[0]);
    hide Numeral, DigitValue, IsSpace, IsSign, IsDigit, Value;
    MoreDigits(s, i, t, 10);
  }

  /** The digits behind the first are read to the end. */
  lemma MoreDigits(s: string, i: nat, t: string, base: nat)
    requires At(s, i, t) && t != "" && AllDigits(t, base) && i + |t| < |s| && !IsDigit(s[i + |t|], base)
    ensures DigitsEnd(s, i + 1, base) == i + |t| && s[i..i + |t|] == t
  {
    hide IsDigit;
    assert t == [t[0]] + t[1..];
    AtAppend(s, i, [t[0]], t[1..]);
    assert AllDigits(t[1..], base);
    DigitsRun(s, i + 1, t[1..], base);
  }

  lemma RegisterThen(s: string, i: nat, lead: string, n: nat, tail: string)
    requires At(s, i, lead + (R(n) + tail)) && (lead == "" || lead == " ") && Stops(tail)
    ensures var j := i + |lead| + |R(n)|; Register(s, i) == Ok(n, j) && At(s, j, tail)
  {
    hide Numeral, Integer, Stops, At, Skip, IsSpace;
    var t := Numeral(n, 10);
    assert R(n) == ['r'] + t;
    hide R;
    Reassoc(['r'], t, tail);
    assert !IsSpace('r') by { PlainChars(); }
    SkipTo(s, i, lead, ['r'] + (t + tail));
    var k := i + |lead|;
    AtAppend(s, k, ['r'], t + tail);
    AtByteIn(s, k, ['r']);
    IntegerThen(s, k + 1, n, tail);
  }

  lemma Reassoc(a: string, b: string, c: string)
    ensures (a + b) + c == a + (b + c)
  {
  }

  lemma PlainChars()
    ensures !IsSpace('r') && !IsSpace('+') && !IsSpace('-') && !IsSpace('[') && !IsSpace(']') && !IsSpace(',')
  {
  }

  lemma ImmediateThen(s: string, i: nat, n: nat, tail: string)
    requires At(s, i, " " + (I(n) + tail)) && Stops(tail)
    ensures var j := i + 1 + |I(n)|; Immediate(s, i) == Ok(n, j) && At(s, j, tail)
    ensures Register(s, i) == Failed
  {
    assert I(n)[0] == '0';
    SkipTo(s, i, " ", I(n) + tail);
    AtAppend(s, i + 1, I(n), tail);
    AtByte(s, i + 1, I(n), 0);
    AtByte(s, i + 1 + |I(n)|, tail, 0);
    hide Numeral, Number, I;
    HexNumber(s, i + 1, n);
  }

  /** The signed value a printed 16-bit offset stands for. */
  function Signed16(off: u16): int
  {
    var v: int := off;
    if v <= 32767 then v else v - 65536
  }

  lemma OffsetThen(s: string, i: nat, lead: string, off: u16, tail: string)
    requires At(s, i, lead + (O(off) + tail)) && (lead == "" || lead == " ") && Stops(tail)
    ensures var j := i + |lead| + |O(off)|; Offset(s, i) == Ok(Signed16(off), j) && At(s, j, tail)
  {
    hide Numeral, Number, At, Skip, IsSpace, IsDigit;
    var v: int := off;
    var sign, m := if v <= 32767 then '+' else '-', if v <= 32767 then v else 65536 - v;
    var t := Numeral(m, 10);
    assert O(off) == [sign] + t;
    hide O;
    Reassoc([sign], t, tail);
    assert !IsSpace(sign) by { PlainChars(); }
    SkipTo(s, i, lead, [sign] + (t + tail));
    var k := i + |lead|;
    AtAppend(s, k, [sign], t + tail);
    AtByteIn(s, k, [sign]);
    SignedNumber(s, k + 1, m, tail);
  }

  /** The digits behind a sign. */
  lemma SignedNumber(s: string, i: nat, m: nat, tail: string)
    requires At(s, i, Numeral(m, 10) + tail) && Stops(tail)
    ensures Skip(s, i) == i && Number(s, i) == Ok(m, i + |Numeral(m, 10)|) && At(s, i + |Numeral(m, 10)|, tail)
  {
    var t := Numeral(m, 10);
    NumeralDigits(m, 10);
    AtAppend(s, i, t, tail);
    AtByte(s, i, t, 0);
    AtByte(s, i + |t|, tail, 0);
    assert !IsDigit(tail[0], 10);
    hide Numeral, Number, IsDigit;
    DecimalNumber(s, i, m);
  }

  lemma Lead(t: string)
    ensures "" + t == t
  {
  }

  lemma CloseStops(tail: string)
    ensures Stops("]" + tail) && !IsSpace('[') && !IsSpace(']')
  {
  }

  lemma MemoryShape(base: nat, off: u16, tail: string)
    ensures var close := "]" + tail;
      " " + (M(base, off) + tail) ==
        if off == 0 then " " + (['['] + (R(base) + close)) else " " + (['['] + (R(base) + (O(off) + close)))
    ensures |M(base, off)| == |R(base)| + 2 + if off == 0 then 0 else |O(off)|
  {
    hide R, O;
  }

  /** A memory reference from its pieces. */
  lemma MemoryIs(s: string, i: nat, a: nat, base: int, k: nat, offset: int, m: nat, end: nat)
    requires Literal(s, i, '[') == Ok((), a) && Register(s, a) == Ok(base, k) && Literal(s, m, ']') == Ok((), end)
    requires if Offset(s, k).Ok? then Offset(s, k) == Ok(offset, m) else offset == 0 && m == k
    ensures Memory(s, i) == Ok(MemRef(base, offset), end)
  {
    hide Literal, Register, Offset;
  }

  lemma PlainMemory(s: string, i: nat, base: nat, close: string, tail: string)
    requires At(s, i, " " + (['['] + (R(base) + close))) && close == [']'] + tail && Stops(close) && !IsSpace('[')
    requires !IsSpace(']')
    ensures var j := i + 3 + |R(base)|; Memory(s, i) == Ok(MemRef(base, 0), j) && At(s, j, tail)
  {
    hide R, Register, Offset, Literal, Memory, At, Stops, IsSpace;
    LiteralLead(s, i, '[', R(base) + close);
    Lead(R(base) + close);
    RegisterThen(s, i + 2, "", base, close);
    var k := i + 2 + |R(base)|;
    NoOffset(s, k, close);
    LiteralThen(s, k, ']', tail);
    MemoryIs(s, i, i + 2, base, k, 0, k, k + 1);
  }

  lemma OffsetMemory(s: string, i: nat, base: nat, off: u16, rest: string, close: string, tail: string)
    requires At(s, i, " " + (['['] + (R(base) + rest))) && rest == O(off) + close && close == [']'] + tail
    requires Stops(rest) && Stops(close) && !IsSpace('[') && !IsSpace(']')
    ensures var j := i + 3 + |R(base)| + |O(off)|; Memory(s, i) == Ok(MemRef(base, Signed16(off)), j) && At(s, j, tail)
  {
    hide R, O, Register, Offset, Literal, Memory, At, Stops, IsSpace, Signed16;
    LiteralLead(s, i, '[', R(base) + rest);
    Lead(R(base) + rest);
    RegisterThen(s, i + 2, "", base, rest);
    var k := i + 2 + |R(base)|;
    Lead(rest);
    OffsetThen(s, k, "", off, close);
    var m := k + |O(off)|;
    LiteralThen(s, m, ']', tail);
    MemoryIs(s, i, i + 2, base, k, Signed16(off), m, m + 1);
  }

  lemma MemoryThen(s: string, i: nat, base: nat, off: u16, tail: string)
    requires At(s, i, " " + (M(base, off) + tail))
    ensures var j := i + 1 + |M(base, off)|; Memory(s, i) == Ok(MemRef(base, Signed16(off)), j) && At(s, j, tail)
  {
    hide R, O, M, Memory, At, Stops, IsSpace;
    MemoryShape(base, off, tail);
    CloseStops(tail);
    if off == 0 {
      PlainMemory(s, i, base, "]" + tail, tail);
    } else {
      OffsetHead(off, "]" + tail);
      OffsetMemory(s, i, base, off, O(off) + ("]" + tail), "]" + tail, tail);
    }
  }

  lemma LiteralLead(s: string, i: nat, c: char, tail: string)
    requires At(s, i, " " + ([c] + tail)) && !IsSpace(c)
    ensures Literal(s, i, c) == Ok((), i + 2) && At(s, i + 2, tail)
  {
    SkipTo(s, i, " ", [c] + tail);
    AtAppend(s, i + 1, [c], tail);
    AtByte(s, i + 1, [c], 0);
  }

  lemma OffsetHead(off: u16, tail: string)
    ensures Stops(O(off) + tail)
  {
    hide Numeral;
    assert IsSign((O(off) + tail)[0]);
  }

  lemma NoOffset(s: string, i: nat, tail: string)
    requires At(s, i, tail) && tail != "" && tail[0] == ']'
    ensures Offset(s, i) == Failed
  {
    AtByte(s, i, tail, 0);
    hide Number;
  }

  // ----- lines -----

  predicate NoSpaces(w: string) { forall i :: 0 <= i < |w| ==> !IsSpace(w[i]) }

  lemma {:induction false} WordRun(s: string, i: nat, w: string)
    requires At(s, i, w) && NoSpaces(w) && i + |w| < |s| && IsSpace(s[i + |w|])
    ensures WordEnd(s, i) == i + |w|
    decreases |w|
  {
    if w != "" {
      AtByte(s, i, w, 0);
      assert w == [w[0]] + w[1..];
      AtAppend(s, i, [w[0]], w[1..]);
      WordRun(s, i + 1, w[1..]);
    }
  }

  lemma WordThen(s: string, i: nat, w: string, tail: string)
    requires At(s, i, w + tail) && w != "" && NoSpaces(w) && tail != "" && IsSpace(tail[0])
    ensures Skip(s, i) == i && i < |s| && WordEnd(s, i) == i + |w| <= |s| && s[i..i + |w|] == w && At(s, i + |w|, tail)
  {
    AtAppend(s, i, w, tail);
    AtByte(s, i, w, 0);
    AtByte(s, i + |w|, tail, 0);
    WordRun(s, i, w);
  }

  /** A statement whose fields all fit: what disassembling can show. */
  predicate Canonical(s: Stmt)
  {
    && Shaped(s) && 0 <= s.dst < 16 && 0 <= s.src < 16 && -0x8000 <= s.offset < 0x8000
    && 0 <= s.imm < if s.op.Lddw? then TWO64 else TWO32
  }

  function WordOf(s: Stmt): string
    requires Canonical(s)
  {
    match s.op
    case Alu(w, a, _) => AluName(AluCode(a)) + WidthSuffix(w)
    case Neg(w) => "neg" + WidthSuffix(w)
    case End(big) => EndName(big, s.imm)
    case Ldx(sz) => "ldx" + SizeName(SizeCode(sz))
    case St(sz) => "st" + SizeName(SizeCode(sz))
    case Stx(sz) => "stx" + SizeName(SizeCode(sz))
    case Lddw => "lddw"
    case Jmp(c, _) => JmpName(CondCode(c))
    case Ja => "ja"
    case Call => "call"
    case Exit => "exit"
  }

  /** The operands, and `tail` behind them. */
  function Rest(s: Stmt, tail: string): string
    requires Canonical(s)
  {
    var off := s.offset % TWO16;
    match s.op
    case Alu(_, _, o) => " " + (R(s.dst) + ([','] + (" " + ((if o.Imm? then I(s.imm) else R(s.src)) + tail))))
    case Neg(_) => " " + (R(s.dst) + tail)
    case End(_) => " " + (R(s.dst) + tail)
    case Ldx(_) => " " + (R(s.dst) + ([','] + (" " + (M(s.src, off) + tail))))
    case St(_) => " " + (M(s.dst, off) + ([','] + (" " + (I(s.imm) + tail))))
    case Stx(_) => " " + (M(s.dst, off) + ([','] + (" " + (R(s.src) + tail))))
    case Lddw => " " + (R(s.dst) + ([','] + (" " + (I(s.imm) + tail))))
    case Jmp(_, o) =>
      " " + (R(s.dst) + ([','] + (" " + ((if o.Imm? then I(s.imm) else R(s.src)) + ([','] + (" " + (O(off) + tail)))))))
    case Ja => " " + (O(off) + tail)
    case Call => " " + (I(s.imm) + tail)
    case Exit => tail
  }

  function LineThen(s: Stmt, tail: string): string
    requires Canonical(s)
  {
    WordOf(s) + Rest(s, tail)
  }

  function MnemonicOf(s: Stmt): Mnemonic
    requires Canonical(s)
  {
    match s.op
    case Alu(w, a, _) => Binary(w, a)
    case Neg(w) => Unary(s.op, 0)
    case End(big) => Unary(s.op, s.imm)
    case Ldx(sz) => LoadMem(sz)
    case St(sz) => StoreImm(sz)
    case Stx(sz) => StoreReg(sz)
    case Lddw => LoadWide
    case Jmp(c, _) => Compare(c)
    case Ja => Jump
    case Call => CallHelper
    case Exit => Leave
  }

  lemma WordFound(s: Stmt)
    requires Canonical(s)
    ensures Find(WordOf(s)) == Some(MnemonicOf(s)) && WordOf(s) != "" && NoSpaces(WordOf(s))
  {
    hide Find, AluName, JmpName, SizeName;
    match s.op
    case Alu(w, a, _) =>
      FindBinary(w, a);
      FindAluName(a);
    case Neg(w) => FindNeg(w);
    case End(big) => FindEnd(big, s.imm);
    case Ldx(sz) =>
      FindLoad(sz);
      FindSizeName(sz);
    case St(sz) =>
      FindStoreImm(sz);
      FindSizeName(sz);
    case Stx(sz) =>
      FindStoreReg(sz);
      FindSizeName(sz);
    case Lddw => FindWide();
    case Jmp(c, _) =>
      CondName(c);
      FindJumpWord(JmpName(CondCode(c)));
    case _ => FindOthers();
  }

  lemma SignedOffset(off: i16)
    ensures Signed16(off % TWO16) == off
  {
  }

  lemma CommaStops(tail: string)
    ensures Stops([','] + tail)
  {
  }

  /** The second operand, register or immediate. */
  lemma SourceThen(s: string, i: nat, o: Operand, src: nat, imm: nat, tail: string)
    requires At(s, i, " " + ((if o.Imm? then I(imm) else R(src)) + tail)) && Stops(tail)
    ensures var t := if o.Imm? then I(imm) else R(src);
      RegOrImm(s, i) == Ok(if o.Imm? then FromImm(imm) else FromReg(src), i + 1 + |t|) && At(s, i + 1 + |t|, tail)
  {
    hide Immediate, Register, R, I, At, Stops;
    if o.Imm? {
      ImmediateThen(s, i, imm, tail);
    } else {
      RegisterThen(s, i, " ", src, tail);
    }
  }

  /** A register, a comma, and what follows. */
  lemma RegisterComma(s: string, i: nat, n: nat, tail: string)
    requires At(s, i, " " + (R(n) + ([','] + tail)))
    ensures var j := i + 1 + |R(n)|;
      Register(s, i) == Ok(n, j) && Literal(s, j, ',') == Ok((), j + 1) && At(s, j + 1, tail)
  {
    hide Register, R, At, Stops, Literal;
    CommaStops(tail);
    RegisterThen(s, i, " ", n, [','] + tail);
    assert !IsSpace(',') by { PlainChars(); }
    LiteralThen(s, i + 1 + |R(n)|, ',', tail);
  }

  lemma MemoryComma(s: string, i: nat, base: nat, off: u16, tail: string)
    requires At(s, i, " " + (M(base, off) + ([','] + tail)))
    ensures var j := i + 1 + |M(base, off)|;
      Memory(s, i) == Ok(MemRef(base, Signed16(off)), j) && Literal(s, j, ',') == Ok((), j + 1) && At(s, j + 1, tail)
  {
    hide Memory, M, At, Literal;
    MemoryThen(s, i, base, off, [','] + tail);
    assert !IsSpace(',') by { PlainChars(); }
    LiteralThen(s, i + 1 + |M(base, off)|, ',', tail);
  }

  /** The operands of `st` parse at `i`, and `tail` comes next. */
  ghost predicate Reads(s: string, i: nat, st: Stmt, tail: string)
    requires Canonical(st)
  {
    i <= |s| && var r := Operands(s, i, MnemonicOf(st));
    r.Ok? && r.value == st && At(s, r.next, tail) && r.next + |tail| == i + |Rest(st, tail)|
  }

  lemma AluParses(s: string, i: nat, st: Stmt, tail: string)
    requires Canonical(st) && st.op.Alu? && At(s, i, Rest(st, tail)) && Stops(tail)
    ensures Reads(s, i, st, tail)
  {
    hide Register, Immediate, Memory, Offset, Literal, R, I, M, O, At, Stops, RegOrImm;
    SignedOffset(st.offset);
    var o := st.op.operand;
    RegisterComma(s, i, st.dst, " " + ((if o.Imm? then I(st.imm) else R(st.src)) + tail));
    SourceThen(s, i + 2 + |R(st.dst)|, o, st.src, st.imm, tail);
  }

  lemma UnaryParses(s: string, i: nat, st: Stmt, tail: string)
    requires Canonical(st) && (st.op.Neg? || st.op.End?) && At(s, i, Rest(st, tail)) && Stops(tail)
    ensures Reads(s, i, st, tail)
  {
    hide Register, Immediate, Memory, Offset, Literal, R, I, M, O, At, Stops, RegOrImm;
    SignedOffset(st.offset);
    RegisterThen(s, i, " ", st.dst, tail);
  }

  lemma LoadParses(s: string, i: nat, st: Stmt, tail: string)
    requires Canonical(st) && st.op.Ldx? && At(s, i, Rest(st, tail)) && Stops(tail)
    ensures Reads(s, i, st, tail)
  {
    hide Register, Immediate, Memory, Offset, Literal, R, I, M, O, At, Stops, RegOrImm;
    SignedOffset(st.offset);
    var off := st.offset % TWO16;
    RegisterComma(s, i, st.dst, " " + (M(st.src, off) + tail));
    MemoryThen(s, i + 2 + |R(st.dst)|, st.src, off, tail);
  }

  lemma StoreImmParses(s: string, i: nat, st: Stmt, tail: string)
    requires Canonical(st) && st.op.St? && At(s, i, Rest(st, tail)) && Stops(tail)
    ensures Reads(s, i, st, tail)
  {
    hide Register, Immediate, Memory, Offset, Literal, R, I, M, O, At, Stops, RegOrImm;
    SignedOffset(st.offset);
    var off := st.offset % TWO16;
    MemoryComma(s, i, st.dst, off, " " + (I(st.imm) + tail));
    ImmediateThen(s, i + 2 + |M(st.dst, off)|, st.imm, tail);
  }

  lemma StoreRegParses(s: string, i: nat, st: Stmt, tail: string)
    requires Canonical(st) && st.op.Stx? && At(s, i, Rest(st, tail)) && Stops(tail)
    ensures Reads(s, i, st, tail)
  {
    hide Register, Immediate, Memory, Offset, Literal, R, I, M, O, At, Stops, RegOrImm;
    SignedOffset(st.offset);
    var off := st.offset % TWO16;
    MemoryComma(s, i, st.dst, off, " " + (R(st.src) + tail));
    RegisterThen(s, i + 2 + |M(st.dst, off)|, " ", st.src, tail);
  }

  lemma WideParses(s: string, i: nat, st: Stmt, tail: string)
    requires Canonical(st) && st.op.Lddw? && At(s, i, Rest(st, tail)) && Stops(tail)
    ensures Reads(s, i, st, tail)
  {
    hide Register, Immediate, Memory, Offset, Literal, R, I, M, O, At, Stops, RegOrImm;
    SignedOffset(st.offset);
    RegisterComma(s, i, st.dst, " " + (I(st.imm) + tail));
    ImmediateThen(s, i + 2 + |R(st.dst)|, st.imm, tail);
  }

  lemma OneTokenParses(s: string, i: nat, st: Stmt, tail: string)
    requires Canonical(st) && (st.op.Ja? || st.op.Call? || st.op.Exit?) && At(s, i, Rest(st, tail)) && Stops(tail)
    ensures Reads(s, i, st, tail)
  {
    hide Canonical, Rest, Reads, At, Stops;
    match st.op
    case Ja => AlwaysParses(s, i, st, tail);
    case Call => CallParses(s, i, st, tail);
    case Exit => ExitParses(s, i, st, tail);
  }

  lemma ExitParses(s: string, i: nat, st: Stmt, tail: string)
    requires Canonical(st) && st.op.Exit? && At(s, i, Rest(st, tail)) && Stops(tail)
    ensures Reads(s, i, st, tail)
  {
  }

  lemma CallParses(s: string, i: nat, st: Stmt, tail: string)
    requires Canonical(st) && st.op.Call? && At(s, i, Rest(st, tail)) && Stops(tail)
    ensures Reads(s, i, st, tail)
  {
    hide Operands, Rest, MnemonicOf, Canonical, Immediate, I, At, Stops;
    AtInside(s, i, Rest(st, tail));
    CallShape(st, tail);
    ImmediateThen(s, i, st.imm, tail);
    CallOperands(s, i);
  }

  lemma CallShape(st: Stmt, tail: string)
    requires Canonical(st) && st.op.Call?
    ensures st == Stmt(Call, 0, 0, 0, st.imm) && st.imm >= 0
    ensures MnemonicOf(st) == CallHelper && Rest(st, tail) == " " + (I(st.imm) + tail)
  {
    hide I;
  }

  lemma CallOperands(s: string, i: nat)
    requires i <= |s| && Immediate(s, i).Ok?
    ensures Operands(s, i, CallHelper) == Ok(Stmt(Call, 0, 0, 0, Immediate(s, i).value), Immediate(s, i).next)
  {
    hide Immediate;
  }

  lemma AlwaysParses(s: string, i: nat, st: Stmt, tail: string)
    requires Canonical(st) && st.op.Ja? && At(s, i, Rest(st, tail)) && Stops(tail)
    ensures Reads(s, i, st, tail)
  {
    hide Operands, Rest, MnemonicOf, Canonical, Offset, O, At, Stops, Signed16;
    AtInside(s, i, Rest(st, tail));
    AlwaysShape(st, tail);
    SignedOffset(st.offset);
    OffsetThen(s, i, " ", st.offset % TWO16, tail);
    AlwaysOperands(s, i);
  }

  lemma AlwaysShape(st: Stmt, tail: string)
    requires Canonical(st) && st.op.Ja?
    ensures st == Stmt(Ja, 0, 0, st.offset, 0) && -32768 <= st.offset < 32768
    ensures MnemonicOf(st) == Jump && Rest(st, tail) == " " + (O(st.offset % TWO16) + tail)
  {
    hide O;
  }

  lemma AlwaysOperands(s: string, i: nat)
    requires i <= |s| && Offset(s, i).Ok?
    ensures Operands(s, i, Jump) == Ok(Stmt(Ja, 0, 0, Offset(s, i).value, 0), Offset(s, i).next)
  {
    hide Offset;
  }

  lemma OperandsParse(s: string, i: nat, st: Stmt, tail: string)
    requires Canonical(st) && At(s, i, Rest(st, tail)) && Stops(tail)
    ensures Reads(s, i, st, tail)
  {
    hide Operands, Rest, MnemonicOf, At, Stops, Canonical, Reads;
    match st.op
    case Alu(_, _, _) => AluParses(s, i, st, tail);
    case Neg(_) => UnaryParses(s, i, st, tail);
    case End(_) => UnaryParses(s, i, st, tail);
    case Ldx(_) => LoadParses(s, i, st, tail);
    case St(_) => StoreImmParses(s, i, st, tail);
    case Stx(_) => StoreRegParses(s, i, st, tail);
    case Lddw => WideParses(s, i, st, tail);
    case Jmp(_, _) => CompareParses(s, i, st, tail);
    case _ => OneTokenParses(s, i, st, tail);
  }

  lemma CompareParses(s: string, i: nat, st: Stmt, tail: string)
    requires Canonical(st) && st.op.Jmp? && At(s, i, Rest(st, tail)) && Stops(tail)
    ensures Reads(s, i, st, tail)
  {
    hide Register, Immediate, Memory, Offset, Literal, R, I, M, O, At, Stops, RegOrImm;
    var off := st.offset % TWO16;
    SignedOffset(st.offset);
    var x := if st.op.operand.Imm? then I(st.imm) else R(st.src);
    var last := " " + (O(off) + tail);
    RegisterComma(s, i, st.dst, " " + (x + ([','] + last)));
    var k := i + 2 + |R(st.dst)|;
    CommaStops(last);
    SourceThen(s, k, st.op.operand, st.src, st.imm, [','] + last);
    assert !IsSpace(',') by { PlainChars(); }
    LiteralThen(s, k + 1 + |x|, ',', last);
    OffsetThen(s, k + 2 + |x|, " ", off, tail);
  }

  /** A disassembled line assembles to its statement. */
  lemma LineParses(s: string, i: nat, st: Stmt, tail: string)
    requires Canonical(st) && At(s, i, LineThen(st, ['\n'] + tail))
    ensures var r := Statement(s, i);
      r.Ok? && r.value == st && At(s, r.next, ['\n'] + tail) && r.next + 1 + |tail| == i + |LineThen(st, ['\n'] + tail)|
  {
    hide Find, Operands, At, WordOf, Skip, WordEnd, Canonical, MnemonicOf;
    var end := ['\n'] + tail;
    WordFound(st);
    RestHead(st, end);
    hide Rest;
    WordThen(s, i, WordOf(st), Rest(st, end));
    assert Stops(end);
    OperandsParse(s, i + |WordOf(st)|, st, end);
  }

  lemma RestHead(st: Stmt, tail: string)
    requires Canonical(st) && tail != "" && IsSpace(tail[0])
    ensures Rest(st, tail) != "" && IsSpace(Rest(st, tail)[0])
  {
    hide R, I, M, O;
  }

  // ----- whole texts -----

  /** The text of canonical statements, one a line. */
  function TextOf(ss: seq<Stmt>): string
    requires forall k :: 0 <= k < |ss| ==> Canonical(ss[k])
  {
    if ss == [] then "" else LineThen(ss[0], ['\n'] + TextOf(ss[1..]))
  }

  lemma WordStart(st: Stmt)
    requires Canonical(st)
    ensures WordOf(st) != "" && !IsSpace(WordOf(st)[0]) && WordOf(st)[0] != ';'
  {
    WordFound(st);
    assert forall a: AluOp :: AluName(AluCode(a))[0] != ';';
    hide Find;
    if st.op.Jmp? {
      CondName(st.op.cond);
    }
  }

  /** A line break in front makes no difference to a statement. */
  lemma StatementSkips(s: string, i: nat)
    requires i < |s| && s[i] == '\n'
    ensures Skip(s, i) == Skip(s, i + 1) && Statement(s, i) == Statement(s, i + 1)
    ensures Literal(s, i, ';') == Literal(s, i + 1, ';')
  {
    hide Find, Operands;
  }

  lemma AtEnd(s: string)
    ensures Skip(s, |s|) == |s| && Statement(s, |s|) == Failed && Literal(s, |s|, ';') == Failed
  {
  }

  /** No semicolon at the start of a text. */
  lemma NoSemicolon(s: string, i: nat, ss: seq<Stmt>)
    requires (forall k :: 0 <= k < |ss| ==> Canonical(ss[k])) && At(s, i, TextOf(ss)) && i + |TextOf(ss)| == |s|
    ensures Literal(s, i, ';') == Failed
  {
    if ss == [] {
      AtEnd(s);
    } else {
      WordStart(ss[0]);
      AtAppend(s, i, WordOf(ss[0]), Rest(ss[0], ['\n'] + TextOf(ss[1..])));
      AtByteIn(s, i, WordOf(ss[0]));
      hide WordOf, Rest, Canonical;
    }
  }

  /** Parsing the text gives back exactly the statements. */
  lemma {:induction false} TextParses(s: string, i: nat, ss: seq<Stmt>)
    requires (forall k :: 0 <= k < |ss| ==> Canonical(ss[k])) && At(s, i, TextOf(ss)) && i + |TextOf(ss)| == |s|
    ensures Program(s, i) == Some(ss)
    decreases |ss|
  {
    hide Canonical, LineThen, Statement, Skip, Literal;
    if ss == [] {
      AtEnd(s);
    } else {
      var st, rest := ss[0], ss[1..];
      LineParses(s, i, st, TextOf(rest));
      var next := Statement(s, i).next;
      AtAppend(s, next, ['\n'], TextOf(rest));
      AtByteIn(s, next, ['\n']);
      StatementSkips(s, next);
      NoSemicolon(s, next + 1, rest);
      TextParses(s, next + 1, rest);
      assert Program(s, next) == Program(s, next + 1) by { ProgramSkips(s, next); }
      assert [st] + rest == ss;
      LineLong(st, TextOf(rest));
      hide At;
    }
  }

  lemma LineLong(st: Stmt, tail: string)
    requires Canonical(st)
    ensures |LineThen(st, ['\n'] + tail)| > 1 + |tail|
  {
    WordStart(st);
    hide WordOf, R, I, M, O;
  }

  lemma ProgramSkips(s: string, i: nat)
    requires i < |s| && s[i] == '\n'
    ensures Program(s, i) == Program(s, i + 1)
  {
    StatementSkips(s, i);
  }

  // ----- disassembling what was assembled -----

  /**
   * What is left of a statement in its slot: register numbers from the shared byte, other fields cut to their width.
   */
  function CanonOf(s: Stmt): (c: Stmt)
    requires Shaped(s)
    ensures Canonical(c) && c.op == s.op
  {
    var regs := RegByte(s.dst, s.src);
    RegByteOfNone();
    var imm := if s.op.Lddw? then Wrap64(s.imm) else Low32(s.imm);
    Stmt(s.op, if UsesDst(s.op) then regs % 16 else 0, if UsesSrc(s.op) then regs / 16
      else 0, Signed16(s.offset % TWO16), imm)
  }

  lemma RegByteOfNone()
    ensures RegByte(0, 0) == 0
  {
  }

  /** Reading a slot back: the fields as they fit. */
  lemma PackDecodes(opcode: byte, dst: int, src: int, offset: int, imm: int)
    ensures var i := DecodeInst(Pack(opcode, dst, src, offset, imm));
      && i.opcode == opcode && i.dst == RegByte(dst, src) % 16 && i.src == RegByte(dst, src) / 16
      && i.offset % TWO16 == offset % TWO16 && Low32(i.imm) == Low32(imm)
  {
    hide RegByte, LeBytes, FromLe, Pow2;
    var bs := Pack(opcode, dst, src, offset, imm);
    assert bs[2..4] == LeBytes(offset, 2) && bs[4..8] == LeBytes(imm, 4);
    FromLeBytes(offset, 2);
    FromLeBytes(imm, 4);
    assert Pow2(16) == TWO16 && Pow2(32) == TWO32 by { Pow2Values(); }
    assert bs[0] == opcode && bs[1] == RegByte(dst, src);
  }

  /** The fields of an opcode that the disassembler looks at. */
  lemma OpcodeParts(op: Op)
    ensures var b := Opcode(op);
      match op
      case Alu(w, a, o) =>
        b % 8 == (if w.W32? then CLS_ALU else CLS_ALU64) && b / 16 == AluCode(a) &&
          b / 8 % 2 == (if o.Imm? then 0 else 1)
      case Neg(w) => b % 8 == (if w.W32? then CLS_ALU else CLS_ALU64) && b / 16 == 8
      case End(big) => b % 8 == CLS_ALU && b / 16 == 13 && b / 8 % 2 == (if big then 1 else 0)
      case Jmp(c, o) => b % 8 == CLS_JMP && b / 16 == CondCode(c) && b / 8 % 2 == (if o.Imm? then 0 else 1)
      case Ja => b % 8 == CLS_JMP && b / 16 == 0
      case Call => b % 8 == CLS_JMP && b / 16 == 8
      case Exit => b % 8 == CLS_JMP && b / 16 == 9
      case Ldx(sz) => b % 8 == CLS_LDX && b / 8 % 4 == SizeCode(sz) && b != 0x18
      case St(sz) => b % 8 == CLS_ST && b / 8 % 4 == SizeCode(sz) && b != 0x18
      case Stx(sz) => b % 8 == CLS_STX && b / 8 % 4 == SizeCode(sz) && b != 0x18
      case Lddw => b == 0x18
  {
    hide AluCode, CondCode, SizeCode, DecodeAluCode, DecodeCondCode;
    match op
    case Alu(w, a, o) =>
      AluCodeTable(a);
      OpcodeFields(if w.W32? then CLS_ALU else CLS_ALU64, SrcBit(o) / 8, AluCode(a));
    case Jmp(c, o) =>
      CondCodeTable(c);
      OpcodeFields(CLS_JMP, SrcBit(o) / 8, CondCode(c));
    case Ldx(sz) => MemoryParts(CLS_LDX, sz);
    case St(sz) => MemoryParts(CLS_ST, sz);
    case Stx(sz) => MemoryParts(CLS_STX, sz);
    case _ =>
  }

  lemma MemoryParts(cls: nat, sz: Size)
    requires 1 <= cls <= 3
    ensures var b := cls + MODE_MEM + 8 * SizeCode(sz); b % 8 == cls && b / 8 % 4 == SizeCode(sz) && b != 0x18
  {
  }

  lemma WideImmediate(imm: int)
    ensures TWO32 * Low32(imm / TWO32) + Low32(imm) == Wrap64(imm)
  {
    var hi, lo := imm / TWO32, imm % TWO32;
    DivModUnique(imm, TWO64, hi / TWO32, TWO32 * (hi % TWO32) + lo);
  }

  lemma OffsetBack(off: int)
    ensures Signed16(off % TWO16) % TWO16 == off % TWO16
  {
  }

  /** The line of a canonical statement as the disassembler puts it together. */
  function Shown(c: Stmt): string
    requires Canonical(c)
  {
    var off := c.offset % TWO16;
    match c.op
    case Alu(_, _, o) => WordOf(c) + " " + R(c.dst) + ", " + (if o.Imm? then I(c.imm) else R(c.src))
    case Neg(_) => WordOf(c) + " " + R(c.dst)
    case End(_) => WordOf(c) + " " + R(c.dst)
    case Ldx(_) => WordOf(c) + " " + R(c.dst) + ", " + M(c.src, off)
    case St(_) => WordOf(c) + " " + M(c.dst, off) + ", " + I(c.imm)
    case Stx(_) => WordOf(c) + " " + M(c.dst, off) + ", " + R(c.src)
    case Lddw => WordOf(c) + " " + R(c.dst) + ", " + I(c.imm)
    case Jmp(_, o) => WordOf(c) + " " + R(c.dst) + ", " + (if o.Imm? then I(c.imm) else R(c.src)) + ", " + O(off)
    case Ja => WordOf(c) + " " + O(off)
    case Call => WordOf(c) + " " + I(c.imm)
    case Exit => WordOf(c)
  }

  lemma Regroup1(w: string, a: string, t: string)
    ensures w + " " + a + "\n" + t == w + (" " + (a + (['\n'] + t)))
  {
  }

  lemma Regroup2(w: string, a: string, b: string, t: string)
    ensures w + " " + a + ", " + b + "\n" + t == w + (" " + (a + ([','] + (" " + (b + (['\n'] + t))))))
  {
  }

  lemma Regroup3(w: string, a: string, b: string, c: string, t: string)
    ensures w + " " + a + ", " + b + ", " + c + "\n" + t
      == w + (" " + (a + ([','] + (" " + (b + ([','] + (" " + (c + (['\n'] + t)))))))))
  {
  }

  lemma ShownLine(c: Stmt, rest: string)
    requires Canonical(c)
    ensures Shown(c) + "\n" + rest == LineThen(c, ['\n'] + rest)
  {
    var off, w := c.offset % TWO16, WordOf(c);
    hide WordOf, R, I, M, O;
    match c.op
    case Alu(_, _, o) => Regroup2(w, R(c.dst), if o.Imm? then I(c.imm) else R(c.src), rest);
    case Neg(_) => Regroup1(w, R(c.dst), rest);
    case End(_) => Regroup1(w, R(c.dst), rest);
    case Ldx(_) => Regroup2(w, R(c.dst), M(c.src, off), rest);
    case St(_) => Regroup2(w, M(c.dst, off), I(c.imm), rest);
    case Stx(_) => Regroup2(w, M(c.dst, off), R(c.src), rest);
    case Lddw => Regroup2(w, R(c.dst), I(c.imm), rest);
    case Jmp(_, o) => Regroup3(w, R(c.dst), if o.Imm? then I(c.imm) else R(c.src), O(off), rest);
    case Ja => Regroup1(w, O(off), rest);
    case Call => Regroup1(w, I(c.imm), rest);
    case Exit => assert w + "\n" + rest == w + (['\n'] + rest);
  }

  /** The fields of the slot at `off`, as the disassembler reads them, are the canonical statement's. */
  lemma SlotFields(data: seq<byte>, off: nat, st: Stmt)
    requires Shaped(st) && At(data, off, AssembleOne(st))
    ensures off + 8 <= |data|
    ensures var i, c := DecodeInst(data[off..off + 8]), CanonOf(st);
      && i.opcode == Opcode(st.op) && (UsesDst(st.op) ==> i.dst == c.dst) && (UsesSrc(st.op) ==> i.src == c.src)
      && i.offset % TWO16 == c.offset % TWO16 && (!st.op.Lddw? ==> Low32(i.imm) == c.imm)
    ensures st.op.Lddw? ==> off + 16 <= |data|
    ensures st.op.Lddw? ==>
      (TWO32 * Low32(DecodeInst(data[off + 8..off + 16]).imm) + Low32(DecodeInst(data[off..off + 8]).imm) ==
        CanonOf(st).imm)
  {
    var first := Pack(Opcode(st.op), st.dst, st.src, st.offset, st.imm);
    var second := if st.op.Lddw? then Pack(0, 0, 0, 0, st.imm / TWO32) else [];
    AtAppend(data, off, first, second);
    assert data[off..off + 8] == first;
    PackDecodes(Opcode(st.op), st.dst, st.src, st.offset, st.imm);
    OffsetBack(st.offset);
    if st.op.Lddw? {
      assert data[off + 8..off + 16] == second;
      PackDecodes(0, 0, 0, 0, st.imm / TWO32);
      WideImmediate(st.imm);
    }
    hide Pack, DecodeInst, Opcode, RegByte, Canonical, Signed16;
  }

  lemma Numeral16()
    ensures Numeral(16, 10) == "16" && Numeral(32, 10) == "32" && Numeral(64, 10) == "64"
  {
    assert Numeral(1, 10) == "1" && Numeral(3, 10) == "3" && Numeral(6, 10) == "6";
  }

  lemma AluShown(code: byte, c: Stmt, src: nat)
    requires Canonical(c) && (c.op.Alu? || c.op.Neg? || c.op.End?) && code == Opcode(c.op)
    requires (UsesSrc(c.op) ==> src == c.src)
    ensures AluLine(code, c.dst, src, c.imm) == Line(Shown(c))
  {
    OpcodeParts(c.op);
    Numeral16();
    hide Opcode, R, I, Numeral;
    match c.op
    case Alu(_, a, _) => FindAluName(a);
    case _ =>
  }

  lemma JmpShown(code: byte, c: Stmt, dst: nat, src: nat)
    requires Canonical(c) && (c.op.Jmp? || c.op.Ja? || c.op.Call? || c.op.Exit?) && code == Opcode(c.op)
    requires (UsesDst(c.op) ==> dst == c.dst) && (UsesSrc(c.op) ==> src == c.src)
    ensures JmpLine(code, dst, src, c.offset % TWO16, c.imm) == Shown(c)
  {
    OpcodeParts(c.op);
    hide Opcode, R, I, O;
    if c.op.Jmp? {
      CondCodeTable(c.op.cond);
    }
  }

  lemma MemShown(code: byte, c: Stmt, src: nat)
    requires Canonical(c) && (c.op.Ldx? || c.op.St? || c.op.Stx?) && code == Opcode(c.op)
    requires (UsesSrc(c.op) ==> src == c.src)
    ensures MemLine(code, c.dst, src, c.offset % TWO16, c.imm) == Shown(c)
  {
    OpcodeParts(c.op);
    hide Opcode, R, I, M, SizeName;
    match c.op
    case Ldx(sz) => assert "ldx" + SizeName(SizeCode(sz)) + " " == WordOf(c) + " ";
    case St(sz) => assert "st" + SizeName(SizeCode(sz)) + " " == WordOf(c) + " ";
    case Stx(sz) => assert "stx" + SizeName(SizeCode(sz)) + " " == WordOf(c) + " ";
  }

  /** Which printer the disassembler picks for a known opcode. */
  lemma Dispatch(data: seq<byte>, offset: nat, op: Op)
    requires offset + 8 <= |data| && DecodeInst(data[offset..offset + 8]).opcode == Opcode(op)
    ensures var i := DecodeInst(data[offset..offset + 8]);
      var imm := Low32(i.imm);
      DisassembleOne(data, offset) ==
        if op.Alu? || op.Neg? || op.End? then AluLine(i.opcode, i.dst, i.src, imm)
        else if op.Lddw? then
          (if offset + 16 > |data| then Raises
           else Line("lddw " + R(i.dst) + ", " + I(TWO32 * Low32(DecodeInst(data[offset + 8..offset + 16]).imm) + imm)))
        else if op.Ldx? || op.St? || op.Stx? then Line(MemLine(i.opcode, i.dst, i.src, i.offset % TWO16, imm))
        else Line(JmpLine(i.opcode, i.dst, i.src, i.offset % TWO16, imm))
  {
    OpcodeParts(op);
    hide DecodeInst, Opcode, AluLine, MemLine, JmpLine, R, I;
  }

  /** One line of the disassembly is the canonical statement's. */
  lemma LineShown(data: seq<byte>, off: nat, st: Stmt)
    requires Shaped(st) && At(data, off, AssembleOne(st))
    ensures DisassembleOne(data, off) == Line(Shown(CanonOf(st)))
  {
    hide At, AssembleOne, DecodeInst, Opcode, CanonOf, R, I, M, O, DisassembleOne, AluLine, MemLine, JmpLine;
    SlotFields(data, off, st);
    var c, i := CanonOf(st), DecodeInst(data[off..off + 8]);
    Dispatch(data, off, st.op);
    if st.op.Alu? || st.op.Neg? || st.op.End? {
      AluShown(Opcode(st.op), c, i.src);
    } else if st.op.Lddw? {
      assert WordOf(c) + " " == "lddw ";
    } else if st.op.Ldx? || st.op.St? || st.op.Stx? {
      MemShown(Opcode(st.op), c, i.src);
    } else {
      JmpShown(Opcode(st.op), c, i.dst, i.src);
    }
  }

  function CanonAll(ss: seq<Stmt>): (cs: seq<Stmt>)
    requires forall k :: 0 <= k < |ss| ==> Shaped(ss[k])
    ensures |cs| == |ss| && forall k :: 0 <= k < |cs| ==> cs[k] == CanonOf(ss[k])
  {
    if ss == [] then [] else [CanonOf(ss[0])] + CanonAll(ss[1..])
  }

  /** The second slot of a two-slot load shows nothing. */
  lemma SecondSilent(data: seq<byte>, off: nat, st: Stmt)
    requires st.op.Lddw? && At(data, off, AssembleOne(st))
    ensures DisassembleOne(data, off + 8) == Silent
  {
    var first, second := Pack(Opcode(st.op), st.dst, st.src, st.offset, st.imm), Pack(0, 0, 0, 0, st.imm / TWO32);
    AtAppend(data, off, first, second);
    assert data[off + 8..off + 16] == second;
    PackDecodes(0, 0, 0, 0, st.imm / TWO32);
    hide Pack, DecodeInst, AluLine, MemLine, JmpLine;
  }

  /** The first statement's line, and the rest. */
  lemma FirstShown(data: seq<byte>, off: nat, st: Stmt, text: string)
    requires Shaped(st) && At(data, off, AssembleOne(st))
    requires DisassembleFrom(data, off + |AssembleOne(st)|) == Some(text)
    ensures DisassembleFrom(data, off) == Some(LineThen(CanonOf(st), ['\n'] + text))
  {
    assert off + |AssembleOne(st)| <= |data|;
    LineShown(data, off, st);
    hide Shaped, Canonical, CanonOf, DisassembleOne, LineThen, Shown;
    if st.op.Lddw? {
      SecondSilent(data, off, st);
    }
    hide At, AssembleOne;
    assert DisassembleFrom(data, off + 8) == Some(text);
    ShownLine(CanonOf(st), text);
  }

  /** Disassembling assembled code gives the text of the canonical statements. */
  lemma {:induction false} Disassembled(data: seq<byte>, off: nat, ss: seq<Stmt>)
    requires (forall k :: 0 <= k < |ss| ==> Shaped(ss[k])) && At(data, off, AssembleAll(ss))
    requires off + |AssembleAll(ss)| == |data|
    ensures DisassembleFrom(data, off) == Some(TextOf(CanonAll(ss)))
    decreases |ss|
  {
    if ss != [] {
      var st, rest := ss[0], ss[1..];
      hide Shaped, Canonical, CanonOf, AssembleOne, DisassembleFrom, LineThen;
      AtAppend(data, off, AssembleOne(st), AssembleAll(rest));
      hide At;
      Disassembled(data, off + |AssembleOne(st)|, rest);
      FirstShown(data, off, st, TextOf(CanonAll(rest)));
      assert CanonAll(ss)[1..] == CanonAll(rest);
    }
  }

  lemma RegByteSmall(d: nat, s: nat)
    requires d < 16 && s < 16
    ensures RegByte(d, s) == d + 16 * s
  {
    assert d % 0x100 == d && 16 * s % 0x100 == 16 * s;
    assert RegByte(d, s) == Bitwise(BitOr, d, 16 * s);
    hide RegByte, Bitwise;
    assert Pow2(4) == 16 by { assert Pow2(2) == 4; }
    hide Pow2;
    OrIntoField(0, d, s, 4, 4);
  }

  lemma PackSame(opcode: byte, d1: int, s1: int, o1: int, i1: int, d2: int, s2: int, o2: int, i2: int)
    requires o1 % TWO16 == o2 % TWO16 && i1 % TWO32 == i2 % TWO32
    ensures Pack(opcode, d1, s1, o1, i1) == Pack(opcode, d2, s2, o2, i2) <==> RegByte(d1, s1) == RegByte(d2, s2)
  {
    hide LeBytes, RegByte, Pow2;
    assert Pow2(16) == TWO16 && Pow2(32) == TWO32 by { Pow2Values(); }
    LeBytesMod(o1, 2);
    LeBytesMod(o2, 2);
    LeBytesMod(i1, 4);
    LeBytesMod(i2, 4);
    assert Pack(opcode, d1, s1, o1, i1)[1] == RegByte(d1, s1);
    assert Pack(opcode, d2, s2, o2, i2)[1] == RegByte(d2, s2);
  }

  /** The register byte holds nothing the text does not show. */
  predicate Faithful(st: Stmt) { UsesSrc(st.op) || RegByte(st.dst, st.src) < 16 }

  /** One statement survives exactly if its register byte does. */
  lemma AssembleCanon(st: Stmt)
    requires Shaped(st)
    ensures AssembleOne(CanonOf(st)) == AssembleOne(st) <==> Faithful(st)
  {
    hide RegByte, Pack, Opcode, Signed16, Wrap64, Low32;
    var c, regs := CanonOf(st), RegByte(st.dst, st.src);
    RegByteOfNone();
    RegByteSmall(c.dst, c.src);
    OffsetBack(st.offset);
    ImmBack(st.imm);
    var code := Opcode(st.op);
    PackSame(code, c.dst, c.src, c.offset, c.imm, st.dst, st.src, st.offset, st.imm);
    if st.op.Lddw? {
      PackSame(0, 0, 0, 0, c.imm / TWO32, 0, 0, 0, st.imm / TWO32);
    }
    var a, b := Pack(code, c.dst, c.src, c.offset, c.imm), Pack(code, st.dst, st.src, st.offset, st.imm);
    assert AssembleOne(c)[..8] == a && AssembleOne(st)[..8] == b;
  }

  lemma ImmBack(imm: int)
    ensures Wrap64(imm) % TWO32 == imm % TWO32 && Low32(imm) % TWO32 == imm % TWO32
    ensures Wrap64(imm) / TWO32 % TWO32 == imm / TWO32 % TWO32
  {
    var q, r := imm / TWO64, imm % TWO64;
    DivModUnique(imm, TWO32, TWO32 * q + r / TWO32, r % TWO32);
    DivModUnique(imm / TWO32, TWO32, q, r / TWO32);
  }

  lemma SplitEqual(a: seq<byte>, b: seq<byte>, c: seq<byte>, d: seq<byte>)
    requires |a| == |c|
    ensures a + b == c + d <==> a == c && b == d
  {
    if a + b == c + d {
      assert a == (a + b)[..|a|] && c == (c + d)[..|a|];
      assert b == (a + b)[|a|..] && d == (c + d)[|a|..];
    }
  }

  lemma FirstAssembled(ss: seq<Stmt>)
    requires ss != []
    ensures AssembleAll(ss) == AssembleOne(ss[0]) + AssembleAll(ss[1..])
  {
    hide AssembleOne;
  }

  lemma FirstFaithful(ss: seq<Stmt>)
    requires ss != []
    ensures (forall k :: 0 <= k < |ss| ==> Faithful(ss[k])) <==>
      Faithful(ss[0]) && forall k :: 0 <= k < |ss[1..]| ==> Faithful(ss[1..][k])
  {
    hide Faithful;
    assert forall k :: 1 <= k < |ss| ==> ss[k] == ss[1..][k - 1];
  }

  lemma {:induction false} AssembleAllCanon(ss: seq<Stmt>)
    requires forall k :: 0 <= k < |ss| ==> Shaped(ss[k])
    ensures AssembleAll(CanonAll(ss)) == AssembleAll(ss) <==> forall k :: 0 <= k < |ss| ==> Faithful(ss[k])
    decreases |ss|
  {
    hide AssembleOne, AssembleAll, CanonOf, CanonAll, Shaped, Faithful;
    if ss == [] {
      assert CanonAll(ss) == [];
    } else {
      AssembleCanon(ss[0]);
      AssembleAllCanon(ss[1..]);
      assert CanonAll(ss)[1..] == CanonAll(ss[1..]);
      FirstAssembled(ss);
      FirstAssembled(CanonAll(ss));
      SplitEqual(AssembleOne(CanonOf(ss[0])), AssembleAll(CanonAll(ss[1..])), AssembleOne(ss[0]), AssembleAll(ss[1..]));
      FirstFaithful(ss);
    }
  }

  /** Cutting the fields twice is cutting them once. */
  lemma CanonTwice(st: Stmt)
    requires Canonical(st)
    ensures CanonOf(st) == st
  {
    hide RegByte, Signed16, UsesDst, UsesSrc, UsesOffset, UsesImm, Wrap64, Low32;
    RegByteSmall(st.dst, st.src);
    SignedOffset(st.offset);
    DivModUnique(RegByte(st.dst, st.src), 16, st.src, st.dst);
    ImmediateStays(st.imm);
  }

  lemma ImmediateStays(imm: nat)
    ensures imm < TWO64 ==> Wrap64(imm) == imm
    ensures imm < TWO32 ==> Low32(imm) == imm
  {
  }

  /** Everything the parser accepts has the operands of its operation. */
  lemma StatementShaped(s: string, i: nat)
    requires Statement(s, i).Ok?
    ensures Shaped(Statement(s, i).value)
  {
    var j := Skip(s, i);
    var m := Find(s[j..WordEnd(s, j)]).value;
    UnaryShaped(s[j..WordEnd(s, j)]);
    hide Operands, Find, Skip, WordEnd, Shaped;
    OperandsShaped(s, WordEnd(s, j), m);
  }

  lemma OperandsShaped(s: string, i: nat, m: Mnemonic)
    requires i <= |s| && Operands(s, i, m).Ok?
    requires m.Unary? ==> ((m.op.Neg? && m.imm == 0) || (m.op.End? && (m.imm == 16 || m.imm == 32 || m.imm == 64)))
    ensures Shaped(Operands(s, i, m).value)
  {
    hide Register, Immediate, Memory, Offset, Literal, RegOrImm, WithComma;
    match m
    case Compare(c) =>
    case _ => hide CompareOperands;
  }

  lemma UnaryShaped(w: string)
    ensures Find(w).Some? && Find(w).value.Unary? ==>
      (var m := Find(w).value; (m.op.Neg? && m.imm == 0) || (m.op.End? && (m.imm == 16 || m.imm == 32 || m.imm == 64)))
  {
    hide FindAlu, FindSize;
  }

  lemma {:induction false} ProgramShaped(s: string, i: nat)
    requires Program(s, i).Some?
    ensures forall k :: 0 <= k < |Program(s, i).value| ==> Shaped(Program(s, i).value[k])
    decreases |s| - i
  {
    hide Statement, Shaped;
    var st := Statement(s, i);
    if st.Ok? {
      StatementShaped(s, i);
      ProgramShaped(s, if Literal(s, st.next, ';').Ok? then Literal(s, st.next, ';').next else st.next);
    }
  }

  /**
   * Round trip: for every program the assembler can produce, disassembling gives a text that parses. Assembling that
   * text gives the same bytes if and only if no register number spills into the other half of the shared byte; the
   * text itself is a fixed point in any case.
   */
  lemma RoundTrip(source: string)
    requires Program(source, 0).Some?
    ensures var ss := Program(source, 0).value;
      var text := DisassembleFrom(AssembleAll(ss), 0);
      && text.Some? && Program(text.value, 0).Some?
      && (AssembleAll(Program(text.value, 0).value) == AssembleAll(ss) <==>
          forall k :: 0 <= k < |ss| ==> Faithful(ss[k]))
      && DisassembleFrom(AssembleAll(Program(text.value, 0).value), 0) == text
  {
    hide Program, DisassembleFrom, Shaped, CanonOf, Faithful, AssembleOne, Canonical;
    var ss := Program(source, 0).value;
    ProgramShaped(source, 0);
    var cs := CanonAll(ss);
    var data := AssembleAll(ss);
    assert data[0..|data|] == data;
    Disassembled(data, 0, ss);
    var text := TextOf(cs);
    assert text[0..|text|] == text;
    TextParses(text, 0, cs);
    AssembleAllCanon(ss);
    CanonShaped(cs);
    var again := AssembleAll(cs);
    assert again[0..|again|] == again;
    Disassembled(again, 0, cs);
  }

  lemma NegReads()
    ensures Program("neg r16", 0) == Some([Stmt(Neg(W64), 16, 0, 0, 0)])
    ensures Program("neg r0\n", 0) == Some([Stmt(Neg(W64), 0, 0, 0, 0)])
  {
    NegRead("neg r16", "16", 16, "");
    NegRead("neg r0\n", "0", 0, "\n");
  }

  lemma NegFound()
    ensures Find("neg") == Some(Unary(Neg(W64), 0))
  {
  }

  lemma NegNumber(s: string, digits: string, n: nat, end: string)
    requires s == "neg r" + digits + end && (end == "" || end == "\n")
    requires (digits == "16" && n == 16) || (digits == "0" && n == 0)
    ensures Integer(s, 5) == Ok(n, 5 + |digits|)
  {
    var k := 5 + |digits|;
    assert DigitsEnd(s, k, 10) == k && DigitsEnd(s, 6, 10) == k;
    assert s[5..k] == digits;
    assert Value("", 10) == 0;
    if n == 16 {
      assert digits[..1] == "1" && "1"[..0] == "" && Value("1", 10) == 1;
    } else {
      assert digits[..0] == "";
    }
  }

  lemma NegRead(s: string, digits: string, n: nat, end: string)
    requires s == "neg r" + digits + end && (end == "" || end == "\n")
    requires (digits == "16" && n == 16) || (digits == "0" && n == 0)
    ensures Program(s, 0) == Some([Stmt(Neg(W64), n, 0, 0, 0)])
  {
    var k := 5 + |digits|;
    assert WordEnd(s, 3) == 3 && WordEnd(s, 2) == 3 && WordEnd(s, 1) == 3 && WordEnd(s, 0) == 3;
    assert s[0..3] == "neg";
    assert Literal(s, 3, 'r') == Ok((), 5) by { assert Skip(s, 4) == 4; }
    NegNumber(s, digits, n, end);
    hide Integer, WordEnd;
    assert Skip(s, k) == |s| && Literal(s, k, ';') == Failed && Program(s, k) == Some([]);
    hide Literal;
    assert Register(s, 3) == Ok(n, k);
    assert Statement(s, 0) == Ok(Stmt(Neg(W64), n, 0, 0, 0), k) by { NegFound(); }
    hide Statement, Skip;
    var st := Stmt(Neg(W64), n, 0, 0, 0);
    assert [st] + [] == [st];
  }

  /**
   * A text for which the bytes do not survive: the register number 16 spills, and "neg r0" is read back from its byte.
   */
  lemma SpilledRegister()
    ensures var ss := [Stmt(Neg(W64), 16, 0, 0, 0)];
      && Program("neg r16", 0) == Some(ss) && !Faithful(ss[0])
      && DisassembleFrom(AssembleAll(ss), 0) == Some("neg r0\n")
      && Program("neg r0\n", 0).Some? && AssembleAll(Program("neg r0\n", 0).value) != AssembleAll(ss)
  {
    var st, c := Stmt(Neg(W64), 16, 0, 0, 0), Stmt(Neg(W64), 0, 0, 0, 0);
    NegReads();
    RegByteAlone(16);
    assert !Faithful(st);
    SpilledCanon(st, c);
    NegText(c);
    hide AssembleOne, Program, DisassembleFrom, TextOf, Faithful, Canonical;
    SpilledText(st, c);
    AssembleAllCanon([st]);
    assert CanonAll([st]) == [c] && [st][0] == st;
  }

  lemma SpilledCanon(st: Stmt, c: Stmt)
    requires st == Stmt(Neg(W64), 16, 0, 0, 0) && c == Stmt(Neg(W64), 0, 0, 0, 0)
    ensures CanonOf(st) == c
  {
    RegByteAlone(16);
    SignedOffset(0);
    hide RegByte;
  }

  lemma SpilledText(st: Stmt, c: Stmt)
    requires Shaped(st) && Canonical(c) && CanonOf(st) == c && TextOf([c]) == "neg r0\n"
    ensures DisassembleFrom(AssembleAll([st]), 0) == Some("neg r0\n")
  {
    hide AssembleOne, DisassembleFrom, TextOf, Canonical, CanonOf, Shaped;
    assert CanonAll([st]) == [c];
    var data := AssembleAll([st]);
    assert data[0..|data|] == data;
    Disassembled(data, 0, [st]);
  }

  lemma RegByteAlone(d: nat)
    requires d < 0x100
    ensures RegByte(d, 0) == d
  {
    OrZero(d);
    hide Bitwise;
    assert d % 0x100 == d && 16 * 0 % 0x100 == 0;
  }

  lemma NegText(c: Stmt)
    requires c == Stmt(Neg(W64), 0, 0, 0, 0)
    ensures Canonical(c) && TextOf([c]) == "neg r0\n"
  {
    assert [c][1..] == [];
    assert Numeral(0, 10) == "0";
  }

  lemma CanonShaped(cs: seq<Stmt>)
    requires forall k :: 0 <= k < |cs| ==> Canonical(cs[k])
    ensures (forall k :: 0 <= k < |cs| ==> Shaped(cs[k])) && CanonAll(cs) == cs
  {
    forall k | 0 <= k < |cs|
      ensures Shaped(cs[k]) && CanonOf(cs[k]) == cs[k]
    {
      assert Canonical(cs[k]);
      CanonTwice(cs[k]);
    }
    hide CanonOf;
    assert CanonAll(cs) == cs;
  }
}
