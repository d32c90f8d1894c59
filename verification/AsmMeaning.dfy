/**
 * What an assembler text means: the grammar, said with the places of its pieces, and the parser that decides it. A
 * piece of a text is given by where it begins and ends.
 */
module AsmMeaning {
  import opened Words
  import opened Ebpf
  import N = Numerals
  import opened Asm
  import P = AsmParser
  import RT = AsmRoundTrip
  import Mean = Meaning

  // ----- numbers -----

  /** White space only. */
  ghost predicate Blank(s: string, i: int, j: int)
  {
    0 <= i <= j <= |s| && forall k :: i <= k < j ==> s[k] in " \t\n\r"
  }

  /** `c` is the digit for `d`, in lower or upper case. */
  predicate DigitFor(c: char, d: int)
  {
    0 <= d < 16 && (c == "0123456789abcdef"[d] || c == "0123456789ABCDEF"[d])
  }

  ghost predicate SomeDigit(c: char, base: nat) { exists d :: 0 <= d < base && DigitFor(c, d) }

  /** The text is a row of digits, the last of them the units. */
  ghost predicate Spells(t: string, base: nat, v: nat)
    requires base > 1
  {
    t != "" &&
    if |t| == 1 then v < base && DigitFor(t[0], v)
    else DigitFor(t[|t| - 1], v % base) && Spells(t[..|t| - 1], base, v / base)
  }

  ghost predicate HexAt(s: string, i: nat)
  {
    i + 2 < |s| && s[i] == '0' && s[i + 1] == 'x' && SomeDigit(s[i + 2], 16)
  }

  /** A number without a sign: 0x and hexadecimal digits, or decimal digits that have no zero in front of them. */
  ghost predicate NumberAt(s: string, i: nat, j: nat, v: nat)
  {
    && i < j <= |s|
    && if HexAt(s, i) then i + 2 < j && Spells(s[i + 2..j], 16, v) && !(j < |s| && SomeDigit(s[j], 16))
       else Spells(s[i..j], 10, v) && !(j < |s| && SomeDigit(s[j], 10)) && (s[i] == '0' ==> v == 0)
  }

  /** A sign at `a`, white space up to `b`, and a number. */
  ghost predicate SignedAt(s: string, a: nat, b: nat, j: nat, v: int)
  {
    && a < |s| && Blank(s, a + 1, b)
    && ((s[a] == '+' && v >= 0 && NumberAt(s, b, j, v)) || (s[a] == '-' && v <= 0 && NumberAt(s, b, j, -v)))
  }

  ghost predicate OffsetAt(s: string, i: nat, j: nat, v: int)
  {
    exists a: nat, b: nat :: Blank(s, i, a) && SignedAt(s, a, b, j, v)
  }

  /** The same, or no sign. */
  ghost predicate ImmediateAt(s: string, i: nat, j: nat, v: int)
  {
    OffsetAt(s, i, j, v) || (v >= 0 && exists a: nat :: Blank(s, i, a) && NumberAt(s, a, j, v))
  }

  /** A sign or none, and decimal digits right behind it. */
  ghost predicate IntegerAt(s: string, i: nat, j: nat, v: int)
  {
    && i < j <= |s| && !(j < |s| && SomeDigit(s[j], 10))
    && if s[i] == '-' then v <= 0 && Spells(s[i + 1..j], 10, -v)
       else v >= 0 && Spells(s[if s[i] == '+' then i + 1 else i..j], 10, v)
  }

  // ----- what the parser's loops find -----

  lemma Spaces(c: char)
    ensures P.IsSpace(c) <==> c in " \t\n\r"
  {
  }

  lemma Digits(c: char, d: int)
    ensures 0 <= d < 16 ==> (DigitFor(c, d) <==> N.DigitValue(c) == d)
  {
  }

  lemma Numerical(c: char, base: nat)
    requires base <= 16
    ensures N.IsDigit(c, base) <==> SomeDigit(c, base)
  {
    hide DigitFor;
    if N.IsDigit(c, base) {
      Digits(c, N.DigitValue(c));
    }
    forall d | 0 <= d < base ensures DigitFor(c, d) <==> N.DigitValue(c) == d { Digits(c, d); }
  }

  lemma {:induction false} SkipsBlank(s: string, i: nat)
    requires i <= |s|
    ensures var j := P.Skip(s, i); Blank(s, i, j) && (j < |s| ==> s[j] !in " \t\n\r")
    decreases |s| - i
  {
    if i < |s| {
      Spaces(s[i]);
      if P.IsSpace(s[i]) {
        SkipsBlank(s, i + 1);
      }
    }
  }

  /** Where white space ends in front of something else. */
  lemma BlankUnique(s: string, i: nat, a: int)
    requires Blank(s, i, a) && (a < |s| ==> s[a] !in " \t\n\r")
    ensures a == P.Skip(s, i)
  {
    SkipsBlank(s, i);
  }

  lemma {:induction false} ValueSpelled(t: string, base: nat, v: nat)
    requires (base == 10 || base == 16) && t != "" && N.AllDigits(t, base)
    ensures 0 <= N.Value(t, base)
    ensures Spells(t, base, v) <==> N.Value(t, base) == v
  {
    var last, init := t[|t| - 1], t[..|t| - 1];
    assert N.IsDigit(last, base);
    hide DigitFor, N.DigitValue;
    Digits(last, v % base);
    if |t| == 1 {
      assert init == "";
      Digits(last, v);
    } else {
      assert forall k :: 0 <= k < |init| ==> init[k] == t[k];
      ValueSpelled(init, base, v / base);
      ValueSpelled(init, base, N.Value(init, base));
      LastDigit(base, N.Value(init, base), N.DigitValue(last), v);
    }
  }

  lemma LastDigit(base: nat, q: nat, d: nat, v: nat)
    requires d < base
    ensures base * q + d == v <==> v / base == q && v % base == d
  {
    if base * q + d == v {
      DivModUnique(v, base, q, d);
    }
  }

  lemma {:induction false} SpelledDigits(t: string, base: nat, v: nat)
    requires (base == 10 || base == 16) && Spells(t, base, v)
    ensures N.AllDigits(t, base)
  {
    hide DigitFor, N.DigitValue, N.IsDigit;
    var last, init := t[|t| - 1], t[..|t| - 1];
    assert DigitFor(last, v % base);
    Numerical(last, base);
    if |t| > 1 {
      SpelledDigits(init, base, v / base);
      forall k | 0 <= k < |t| ensures N.IsDigit(t[k], base) {
        assert k < |t| - 1 ==> init[k] == t[k];
      }
    }
  }

  lemma {:induction false} RunOfDigits(s: string, i: nat, base: nat)
    requires i <= |s| && base <= 16
    ensures var j := P.DigitsEnd(s, i, base);
      && i <= j <= |s| && (forall k :: i <= k < j ==> N.IsDigit(s[k], base))
      && (j < |s| ==> !SomeDigit(s[j], base))
    decreases |s| - i
  {
    hide SomeDigit;
    if i < |s| {
      Numerical(s[i], base);
      if N.IsDigit(s[i], base) {
        RunOfDigits(s, i + 1, base);
      }
    }
  }

  lemma SliceAt(s: string, i: nat, j: nat, k: nat)
    requires i <= k < j <= |s|
    ensures s[i..j][k - i] == s[k]
  {
  }

  /** A row of digits that goes on as far as possible: its end and its value are those the parser finds. */
  lemma RowExactly(s: string, i: nat, j: nat, base: nat, v: int)
    requires (base == 10 || base == 16) && i < j <= |s|
    ensures v >= 0 && Spells(s[i..j], base, v) && !(j < |s| && SomeDigit(s[j], base)) <==>
      N.IsDigit(s[i], base) && j == P.DigitsEnd(s, i + 1, base) && v == N.Value(s[i..j], base)
  {
    hide Spells, SomeDigit, N.IsDigit;
    RunOfDigits(s, i + 1, base);
    var end, t := P.DigitsEnd(s, i + 1, base), s[i..j];
    if N.IsDigit(s[i], base) && j == end {
      forall k | 0 <= k < |t| ensures N.IsDigit(t[k], base) { SliceAt(s, i, j, i + k); }
      ValueSpelled(t, base, if v >= 0 then v else 0);
    } else if v >= 0 && Spells(t, base, v) && !(j < |s| && SomeDigit(s[j], base)) {
      SpelledDigits(t, base, v);
      SliceAt(s, i, j, i);
      if end < j {
        SliceAt(s, i, j, end);
        Numerical(s[end], base);
      } else {
        Numerical(s[j], base);
      }
    }
  }

  // ----- the parser decides the grammar -----

  lemma NumberExactly(s: string, i: nat, j: nat, v: int)
    requires i <= |s|
    ensures P.Number(s, i) == P.Ok(v, j) <==> v >= 0 && NumberAt(s, i, j, v)
  {
    hide Spells, SomeDigit, N.IsDigit, P.DigitsEnd, N.Value;
    if i + 2 < |s| {
      Numerical(s[i + 2], 16);
      if HexAt(s, i) {
        var end := P.DigitsEnd(s, i + 3, 16);
        RowExactly(s, i + 2, end, 16, N.Value(s[i + 2..end], 16));
        if i + 2 < j <= |s| {
          RowExactly(s, i + 2, j, 16, v);
        }
      }
    }
    if !HexAt(s, i) && i < |s| {
      if i < j <= |s| {
        RowExactly(s, i, j, 10, v);
      }
      var end := P.DigitsEnd(s, i + 1, 10);
      RowExactly(s, i, end, 10, N.Value(s[i..end], 10));
    }
  }

  /** One character behind white space. */
  ghost predicate Token(s: string, i: nat, j: nat, c: char) { i < j <= |s| && Blank(s, i, j - 1) && s[j - 1] == c }

  /** r and a number, with white space in front of each. */
  ghost predicate RegisterAt(s: string, i: nat, j: nat, v: int)
  {
    exists a: nat, b: nat :: Token(s, i, a, 'r') && Blank(s, a, b) && IntegerAt(s, b, j, v)
  }

  /** A register and possibly an offset, in brackets. */
  ghost predicate MemoryAt(s: string, i: nat, j: nat, reg: int, off: int)
  {
    exists a: nat, b: nat, c: nat :: Token(s, i, a, '[') && RegisterAt(s, a, b, reg)
      && (OffsetAt(s, b, c, off) || (c == b && off == 0)) && Token(s, c, j, ']')
  }

  lemma LiteralExactly(s: string, i: nat, j: nat, c: char)
    requires i <= |s| && c !in " \t\n\r"
    ensures P.Literal(s, i, c).Ok? && P.Literal(s, i, c).next == j <==> Token(s, i, j, c)
  {
    SkipsBlank(s, i);
    if Token(s, i, j, c) {
      BlankUnique(s, i, j - 1);
    }
  }

  /** Numbers begin with a digit. */
  lemma NumberBegins(s: string, i: nat, j: nat, v: nat)
    requires NumberAt(s, i, j, v)
    ensures i < |s| && s[i] !in " \t\n\r+-[],;r"
  {
    hide SomeDigit;
    if !HexAt(s, i) {
      RowExactly(s, i, j, 10, v);
    }
  }

  lemma OffsetExactly(s: string, i: nat, j: nat, v: int)
    requires i <= |s|
    ensures P.Offset(s, i) == P.Ok(v, j) <==> OffsetAt(s, i, j, v)
  {
    hide NumberAt, P.Number;
    if OffsetAt(s, i, j, v) {
      var x: nat, y: nat :| Blank(s, i, x) && SignedAt(s, x, y, j, v);
      NumberBegins(s, y, j, if s[x] == '+' then v else -v);
      BlankUnique(s, i, x);
      BlankUnique(s, x + 1, y);
      NumberExactly(s, y, j, if s[x] == '+' then v else -v);
    }
    if P.Offset(s, i) == P.Ok(v, j) {
      SkipsBlank(s, i);
      var a := P.Skip(s, i);
      SkipsBlank(s, a + 1);
      NumberExactly(s, P.Skip(s, a + 1), j, if s[a] == '+' then v else -v);
      assert SignedAt(s, a, P.Skip(s, a + 1), j, v);
    }
  }

  lemma ImmediateExactly(s: string, i: nat, j: nat, v: int)
    requires i <= |s|
    ensures P.Immediate(s, i) == P.Ok(v, j) <==> ImmediateAt(s, i, j, v)
  {
    hide NumberAt, P.Number, OffsetAt;
    OffsetExactly(s, i, j, v);
    SkipsBlank(s, i);
    var a := P.Skip(s, i);
    NumberExactly(s, a, j, v);
    if v >= 0 && NumberAt(s, a, j, v) {
      NumberBegins(s, a, j, v);
    }
    forall x: nat | v >= 0 && Blank(s, i, x) && NumberAt(s, x, j, v) ensures x == a {
      NumberBegins(s, x, j, v);
      BlankUnique(s, i, x);
    }
  }

  lemma IntegerExactly(s: string, i: nat, j: nat, v: int)
    requires i <= |s|
    ensures P.Integer(s, i) == P.Ok(v, j) <==> IntegerAt(s, i, j, v)
  {
    hide SomeDigit, N.IsDigit, P.DigitsEnd, N.Value;
    var k := if i < |s| && P.IsSign(s[i]) then i + 1 else i;
    if k < j <= |s| {
      RowExactly(s, k, j, 10, v);
      RowExactly(s, k, j, 10, -v);
    }
    if k < |s| {
      var end := P.DigitsEnd(s, k + 1, 10);
      RowExactly(s, k, end, 10, N.Value(s[k..end], 10));
    }
  }

  lemma RegisterExactly(s: string, i: nat, j: nat, v: int)
    requires i <= |s|
    ensures P.Register(s, i) == P.Ok(v, j) <==> RegisterAt(s, i, j, v)
  {
    hide P.Literal, P.Integer, Token, IntegerAt;
    if RegisterAt(s, i, j, v) {
      var a: nat, b: nat :| Token(s, i, a, 'r') && Blank(s, a, b) && IntegerAt(s, b, j, v);
      LiteralExactly(s, i, a, 'r');
      IntegerBegins(s, b, j, v);
      BlankUnique(s, a, b);
      IntegerExactly(s, b, j, v);
    }
    if P.Register(s, i) == P.Ok(v, j) {
      var a := P.Literal(s, i, 'r').next;
      LiteralExactly(s, i, a, 'r');
      SkipsBlank(s, a);
      IntegerExactly(s, P.Skip(s, a), j, v);
      assert Token(s, i, a, 'r') && Blank(s, a, P.Skip(s, a)) && IntegerAt(s, P.Skip(s, a), j, v);
    }
  }

  lemma IntegerBegins(s: string, i: nat, j: nat, v: int)
    requires IntegerAt(s, i, j, v)
    ensures i < |s| && s[i] !in " \t\n\r"
  {
    hide SomeDigit;
    if s[i] != '-' && s[i] != '+' {
      RowExactly(s, i, j, 10, v);
    }
  }

  /** White space in front of something that begins otherwise than an offset does. */
  lemma NoOffset(s: string, i: nat, j: nat, c: char)
    requires Token(s, i, j, c) && c !in " \t\n\r+-"
    ensures P.Offset(s, i).Failed?
  {
    BlankUnique(s, i, j - 1);
  }

  lemma MemoryExactly(s: string, i: nat, j: nat, reg: int, off: int)
    requires i <= |s|
    ensures P.Memory(s, i) == P.Ok(P.MemRef(reg, off), j) <==> MemoryAt(s, i, j, reg, off)
  {
    hide P.Literal, P.Register, P.Offset, Token, RegisterAt, OffsetAt;
    if MemoryAt(s, i, j, reg, off) {
      var a: nat, b: nat, c: nat :| Token(s, i, a, '[') && RegisterAt(s, a, b, reg)
        && (OffsetAt(s, b, c, off) || (c == b && off == 0)) && Token(s, c, j, ']');
      LiteralExactly(s, i, a, '[');
      assert a <= |s|;
      RegisterExactly(s, a, b, reg);
      OffsetExactly(s, b, c, off);
      LiteralExactly(s, c, j, ']');
      if !OffsetAt(s, b, c, off) {
        NoOffset(s, b, j, ']');
      }
    }
    if P.Memory(s, i) == P.Ok(P.MemRef(reg, off), j) {
      var a := P.Literal(s, i, '[').next;
      var b := P.Register(s, a).next;
      var c := if P.Offset(s, b).Ok? then P.Offset(s, b).next else b;
      LiteralExactly(s, i, a, '[');
      RegisterExactly(s, a, b, reg);
      OffsetExactly(s, b, c, off);
      LiteralExactly(s, c, j, ']');
      assert Token(s, i, a, '[') && RegisterAt(s, a, b, reg) && Token(s, c, j, ']');
      assert OffsetAt(s, b, c, off) || (c == b && off == 0);
    }
  }

  // ----- keywords -----

  function AluWord(a: AluOp): string
  {
    match a
    case Add => "add" case Sub => "sub" case Mul => "mul" case Div => "div" case Or => "or" case And => "and"
    case Lsh => "lsh" case Rsh => "rsh" case Mod => "mod" case Xor => "xor" case Mov => "mov" case Arsh => "arsh"
  }

  function JumpWord(c: Cond): string
  {
    match c
    case Eq => "jeq" case Gt => "jgt" case Ge => "jge" case Set => "jset" case Ne => "jne" case Sgt => "jsgt"
    case Sge => "jsge" case Lt => "jlt" case Le => "jle" case Slt => "jslt" case Sle => "jsle"
  }

  function SizeWord(sz: Size): string
  {
    match sz case S8 => "b" case S16 => "h" case S32 => "w" case S64 => "dw"
  }

  /** The keyword of an operation; the width of a byte order conversion is part of it. */
  function Keyword(op: Op, imm: int): string
  {
    match op
    case Alu(w, a, _) => AluWord(a) + if w.W32? then "32" else ""
    case Neg(w) => if w.W32? then "neg32" else "neg"
    case End(big) =>
      (if big then "be" else "le") + (if imm == 16 then "16" else if imm == 32 then "32" else "64")
    case Jmp(c, _) => JumpWord(c)
    case Ja => "ja"
    case Call => "call"
    case Exit => "exit"
    case Ldx(sz) => "ldx" + SizeWord(sz)
    case St(sz) => "st" + SizeWord(sz)
    case Stx(sz) => "stx" + SizeWord(sz)
    case Lddw => "lddw"
  }

  /** What the parser takes a keyword for. */
  function MnemonicOf(op: Op, imm: int): P.Mnemonic
  {
    match op
    case Alu(w, a, _) => P.Binary(w, a)
    case Neg(w) => P.Unary(op, 0)
    case End(big) => P.Unary(op, imm)
    case Jmp(c, _) => P.Compare(c)
    case Ja => P.Jump
    case Call => P.CallHelper
    case Exit => P.Leave
    case Ldx(sz) => P.LoadMem(sz)
    case St(sz) => P.StoreImm(sz)
    case Stx(sz) => P.StoreReg(sz)
    case Lddw => P.LoadWide
  }

  lemma AluWords(w: string, a: AluOp)
    ensures P.FindAlu(w) == Some(a) <==> w == AluWord(a)
  {
  }

  lemma JumpWords(w: string, c: Cond)
    ensures P.FindJump(w) == Some(P.Compare(c)) <==> w == JumpWord(c)
  {
  }

  lemma SizeWords(w: string, sz: Size)
    ensures P.FindSize(w) == Some(sz) <==> w == SizeWord(sz)
  {
  }

  lemma AluNames(a: AluOp)
    ensures AluName(AluCode(a)) == AluWord(a)
  {
  }

  lemma JumpNames(c: Cond)
    ensures JmpName(CondCode(c)) == JumpWord(c)
  {
  }

  lemma SizeNames(sz: Size)
    ensures SizeName(SizeCode(sz)) == SizeWord(sz)
  {
  }

  lemma KeywordFound(op: Op, imm: int)
    requires op.End? ==> imm == 16 || imm == 32 || imm == 64
    ensures P.Find(Keyword(op, imm)) == Some(MnemonicOf(op, imm))
  {
    hide P.Find, P.FindJump, AluWord, AluName, JumpWord, JmpName, SizeWord, SizeName;
    match op
    case Alu(w, a, _) =>
      AluNames(a);
      RT.FindBinary(w, a);
    case Neg(w) =>
      assert "neg" + "" == "neg" && "neg" + "32" == "neg32";
      RT.FindNeg(w);
    case End(big) =>
      RT.FindEnd(big, imm);
    case Jmp(c, _) =>
      JumpNames(c);
      RT.CondName(c);
      RT.FindJumpWord(JmpName(CondCode(c)));
    case Ja => RT.FindJa();
    case Call => RT.FindCall();
    case Exit => RT.FindExit();
    case Ldx(sz) =>
      SizeNames(sz);
      RT.FindLoad(sz);
    case St(sz) =>
      SizeNames(sz);
      RT.FindStoreImm(sz);
    case Stx(sz) =>
      SizeNames(sz);
      RT.FindStoreReg(sz);
    case Lddw => RT.FindWide();
  }

  /** Of the kind the parser's search in each of its tables gives. */
  lemma FoundUnary(w: string, op: Op, imm: int)
    requires P.FindUnary(w) == Some(P.Unary(op, imm))
    ensures (op.Neg? && imm == 0) || (op.End? && (imm == 16 || imm == 32 || imm == 64))
    ensures w == Keyword(op, imm)
  {
    assert "le" + "16" == "le16" && "le" + "32" == "le32" && "le" + "64" == "le64";
    assert "be" + "16" == "be16" && "be" + "32" == "be32" && "be" + "64" == "be64";
  }

  lemma UnaryOnly(w: string)
    ensures P.FindUnary(w).Some? ==> P.FindUnary(w).value.Unary?
  {
  }

  lemma JumpOnly(w: string)
    ensures P.FindJump(w).Some? ==>
      var m := P.FindJump(w).value;
      m.Compare? || (m.Jump? && w == "ja") || (m.CallHelper? && w == "call") || (m.Leave? && w == "exit")
  {
  }

  lemma FoundAlu(w: string, wd: Width, a: AluOp)
    requires P.Find(w) == Some(P.Binary(wd, a))
    ensures w == AluWord(a) + if wd.W32? then "32" else ""
  {
    UnaryOnly(w);
    JumpOnly(w);
    hide P.FindUnary, P.FindJump, AluWord, P.FindAlu, P.FindSize;
    AluWords(w, a);
    assert w + "" == w;
    if |w| > 2 && w[|w| - 2..] == "32" {
      AluWords(w[..|w| - 2], a);
      assert w == w[..|w| - 2] + "32";
    }
  }

  lemma FoundMem(w: string, op: Op)
    requires P.Find(w) == Some(MnemonicOf(op, 0)) && (op.Ldx? || op.St? || op.Stx? || op.Lddw?)
    ensures w == Keyword(op, 0)
  {
    UnaryOnly(w);
    JumpOnly(w);
    hide P.FindUnary, P.FindJump, P.FindAlu, P.FindSize, SizeWord;
    if op.Ldx? || op.Stx? {
      SizeWords(w[3..], op.size);
      assert w == w[..3] + w[3..];
    } else if op.St? {
      SizeWords(w[2..], op.size);
      assert w == w[..2] + w[2..];
    }
  }

  lemma FoundJump(w: string, op: Op)
    requires P.Find(w) == Some(MnemonicOf(op, 0)) && (op.Jmp? || op.Ja? || op.Call? || op.Exit?)
    ensures w == Keyword(op, 0)
  {
    UnaryOnly(w);
    JumpOnly(w);
    hide P.FindUnary, P.FindJump, P.FindAlu, P.FindSize, JumpWord;
    if op.Jmp? {
      JumpWords(w, op.cond);
    }
  }

  /** A keyword is the word of what it is found to be. */
  lemma FoundIsKeyword(w: string, op: Op, imm: int)
    requires P.Find(w) == Some(MnemonicOf(op, imm)) && (op.End? ==> imm == 16 || imm == 32 || imm == 64)
    ensures w == Keyword(op, imm)
  {
    hide P.Find, AluWord, JumpWord, SizeWord;
    if op.Alu? {
      FoundAlu(w, op.width, op.alu);
    } else if op.Neg? || op.End? {
      UnaryKeyword(w, MnemonicOf(op, imm));
    } else if op.Jmp? || op.Ja? || op.Call? || op.Exit? {
      FoundJump(w, op);
    } else {
      FoundMem(w, op);
    }
  }

  lemma UnaryKeyword(w: string, m: P.Mnemonic)
    requires P.Find(w) == Some(m) && m.Unary?
    ensures (m.op.Neg? && m.imm == 0) || (m.op.End? && (m.imm == 16 || m.imm == 32 || m.imm == 64))
    ensures w == Keyword(m.op, m.imm)
  {
    UnaryOnly(w);
    JumpOnly(w);
    hide P.FindUnary, P.FindAlu, P.FindJump, P.FindSize;
    assert P.FindUnary(w) == Some(m);
    hide P.Find;
    FoundUnary(w, m.op, m.imm);
  }

  // ----- statements -----

  /** A register or an immediate behind white space. */
  ghost predicate SourceAt(s: string, i: nat, j: nat, o: Operand, src: int, imm: int)
  {
    if o.Reg? then RegisterAt(s, i, j, src) && imm == 0 else ImmediateAt(s, i, j, imm) && src == 0
  }

  ghost predicate RegisterThenComma(s: string, i: nat, j: nat, v: int)
  {
    exists a: nat :: RegisterAt(s, i, a, v) && Token(s, a, j, ',')
  }

  ghost predicate MemoryThenComma(s: string, i: nat, j: nat, reg: int, off: int)
  {
    exists a: nat :: MemoryAt(s, i, a, reg, off) && Token(s, a, j, ',')
  }

  ghost predicate SourceThenComma(s: string, i: nat, j: nat, o: Operand, src: int, imm: int)
  {
    exists a: nat :: SourceAt(s, i, a, o, src, imm) && Token(s, a, j, ',')
  }

  /** The operands of an operation, in the order it takes them; fields it has no operand for are 0. */
  ghost predicate OperandsAt(s: string, i: nat, j: nat, x: Stmt)
  {
    match x.op
    case Alu(_, _, o) =>
      x.offset == 0 && exists a: nat :: RegisterThenComma(s, i, a, x.dst) && SourceAt(s, a, j, o, x.src, x.imm)
    case Neg(_) => x.src == x.offset == x.imm == 0 && RegisterAt(s, i, j, x.dst)
    case End(_) => x.src == x.offset == 0 && RegisterAt(s, i, j, x.dst)
    case Ldx(_) =>
      x.imm == 0 && exists a: nat :: RegisterThenComma(s, i, a, x.dst) && MemoryAt(s, a, j, x.src, x.offset)
    case St(_) =>
      x.src == 0 && exists a: nat :: MemoryThenComma(s, i, a, x.dst, x.offset) && ImmediateAt(s, a, j, x.imm)
    case Stx(_) =>
      x.imm == 0 && exists a: nat :: MemoryThenComma(s, i, a, x.dst, x.offset) && RegisterAt(s, a, j, x.src)
    case Lddw =>
      x.src == x.offset == 0 && exists a: nat :: RegisterThenComma(s, i, a, x.dst) && ImmediateAt(s, a, j, x.imm)
    case Jmp(_, o) =>
      exists a: nat, b: nat :: RegisterThenComma(s, i, a, x.dst) && SourceThenComma(s, a, b, o, x.src, x.imm)
        && OffsetAt(s, b, j, x.offset)
    case Ja => x.dst == x.src == x.imm == 0 && OffsetAt(s, i, j, x.offset)
    case Call => x.dst == x.src == x.offset == 0 && ImmediateAt(s, i, j, x.imm)
    case Exit => x.dst == x.src == x.offset == x.imm == 0 && i == j
  }

  /** A keyword, as far as there is no white space, and its operands. */
  ghost predicate StatementAt(s: string, i: nat, j: nat, x: Stmt)
  {
    && (x.op.End? ==> x.imm == 16 || x.imm == 32 || x.imm == 64)
    && exists a: nat, b: nat ::
         && Blank(s, i, a) && a < b <= |s| && (b < |s| ==> s[b] in " \t\n\r")
         && s[a..b] == Keyword(x.op, x.imm) && OperandsAt(s, b, j, x)
  }

  /** Statements up to the end, with semicolons behind any of them. */
  ghost predicate ProgramAt(s: string, i: nat, xs: seq<Stmt>)
    decreases |xs|
  {
    if xs == [] then Blank(s, i, |s|)
    else
      exists j: nat, k: nat ::
        StatementAt(s, i, j, xs[0]) && (Token(s, j, k, ';') || k == j) && ProgramAt(s, k, xs[1..])
  }

  // ----- the parser decides the grammar of statements -----

  function SourceOf(o: Operand, src: int, imm: int): P.Source
  {
    if o.Reg? then P.FromReg(src) else P.FromImm(imm)
  }

  /** Immediates do not begin like registers. */
  lemma NoRegister(s: string, i: nat, j: nat, v: int)
    requires ImmediateAt(s, i, j, v)
    ensures P.Register(s, i).Failed?
  {
    hide NumberAt, P.Integer;
    if OffsetAt(s, i, j, v) {
      var a: nat, b: nat :| Blank(s, i, a) && SignedAt(s, a, b, j, v);
      BlankUnique(s, i, a);
    } else {
      var a: nat :| Blank(s, i, a) && NumberAt(s, a, j, v);
      NumberBegins(s, a, j, v);
      BlankUnique(s, i, a);
    }
  }

  lemma SourceExactly(s: string, i: nat, j: nat, o: Operand, src: int, imm: int)
    requires i <= |s| && (if o.Reg? then imm == 0 else src == 0)
    ensures P.RegOrImm(s, i) == P.Ok(SourceOf(o, src, imm), j) <==> SourceAt(s, i, j, o, src, imm)
  {
    hide P.Register, P.Immediate, RegisterAt, ImmediateAt;
    if o.Reg? {
      RegisterExactly(s, i, j, src);
    } else {
      ImmediateExactly(s, i, j, imm);
      if ImmediateAt(s, i, j, imm) {
        NoRegister(s, i, j, imm);
      }
    }
  }

  lemma RegisterComma(s: string, i: nat, j: nat, v: int)
    requires i <= |s|
    ensures P.WithComma(s, P.Register(s, i)) == P.Ok(v, j) <==> RegisterThenComma(s, i, j, v)
  {
    hide P.Literal, P.Register, Token, RegisterAt;
    if RegisterThenComma(s, i, j, v) {
      var a: nat :| RegisterAt(s, i, a, v) && Token(s, a, j, ',');
      RegisterExactly(s, i, a, v);
      LiteralExactly(s, a, j, ',');
    }
    if P.WithComma(s, P.Register(s, i)) == P.Ok(v, j) {
      var a := P.Register(s, i).next;
      RegisterExactly(s, i, a, v);
      LiteralExactly(s, a, j, ',');
      assert RegisterAt(s, i, a, v) && Token(s, a, j, ',');
    }
  }

  lemma MemoryComma(s: string, i: nat, j: nat, reg: int, off: int)
    requires i <= |s|
    ensures P.WithComma(s, P.Memory(s, i)) == P.Ok(P.MemRef(reg, off), j) <==> MemoryThenComma(s, i, j, reg, off)
  {
    hide P.Literal, P.Memory, Token, MemoryAt;
    if MemoryThenComma(s, i, j, reg, off) {
      var a: nat :| MemoryAt(s, i, a, reg, off) && Token(s, a, j, ',');
      MemoryExactly(s, i, a, reg, off);
      LiteralExactly(s, a, j, ',');
    }
    if P.WithComma(s, P.Memory(s, i)) == P.Ok(P.MemRef(reg, off), j) {
      var a := P.Memory(s, i).next;
      MemoryExactly(s, i, a, reg, off);
      LiteralExactly(s, a, j, ',');
      assert MemoryAt(s, i, a, reg, off) && Token(s, a, j, ',');
    }
  }

  lemma SourceComma(s: string, i: nat, j: nat, o: Operand, src: int, imm: int)
    requires i <= |s| && (if o.Reg? then imm == 0 else src == 0)
    ensures P.WithComma(s, P.RegOrImm(s, i)) == P.Ok(SourceOf(o, src, imm), j) <==>
      SourceThenComma(s, i, j, o, src, imm)
  {
    hide P.Literal, P.RegOrImm, Token, SourceAt;
    if SourceThenComma(s, i, j, o, src, imm) {
      var a: nat :| SourceAt(s, i, a, o, src, imm) && Token(s, a, j, ',');
      SourceExactly(s, i, a, o, src, imm);
      LiteralExactly(s, a, j, ',');
    }
    if P.WithComma(s, P.RegOrImm(s, i)) == P.Ok(SourceOf(o, src, imm), j) {
      var a := P.RegOrImm(s, i).next;
      SourceExactly(s, i, a, o, src, imm);
      LiteralExactly(s, a, j, ',');
      assert SourceAt(s, i, a, o, src, imm) && Token(s, a, j, ',');
    }
  }

  /** Where a part ends, and what it is, there is one answer to. */
  lemma RegisterCommaAt(s: string, i: nat, j: nat, v: int)
    requires RegisterThenComma(s, i, j, v) && i <= |s|
    ensures P.WithComma(s, P.Register(s, i)) == P.Ok(v, j) && j <= |s|
  {
    RegisterComma(s, i, j, v);
    hide P.Register, RegisterThenComma;
  }

  lemma AluExactly(s: string, i: nat, j: nat, x: Stmt)
    requires i <= |s| && x.op.Alu?
    ensures P.Operands(s, i, MnemonicOf(x.op, x.imm)) == P.Ok(x, j) <==> OperandsAt(s, i, j, x)
  {
    hide P.WithComma, P.Register, P.RegOrImm, RegisterThenComma, SourceAt, OffsetAt;
    var o := x.op.operand;
    var r := P.WithComma(s, P.Register(s, i));
    if OperandsAt(s, i, j, x) {
      var a: nat :| RegisterThenComma(s, i, a, x.dst) && SourceAt(s, a, j, o, x.src, x.imm);
      RegisterCommaAt(s, i, a, x.dst);
      SourceFields(s, a, j, o, x.src, x.imm);
      SourceExactly(s, a, j, o, x.src, x.imm);
    }
    if P.Operands(s, i, MnemonicOf(x.op, x.imm)) == P.Ok(x, j) {
      RegisterComma(s, i, r.next, r.value);
      SourceExactly(s, r.next, j, o, x.src, x.imm);
    }
  }

  lemma SourceFields(s: string, i: nat, j: nat, o: Operand, src: int, imm: int)
    requires SourceAt(s, i, j, o, src, imm)
    ensures if o.Reg? then imm == 0 else src == 0
  {
  }

  lemma MemoryCommaAt(s: string, i: nat, j: nat, reg: int, off: int)
    requires MemoryThenComma(s, i, j, reg, off) && i <= |s|
    ensures P.WithComma(s, P.Memory(s, i)) == P.Ok(P.MemRef(reg, off), j) && j <= |s|
  {
    MemoryComma(s, i, j, reg, off);
    hide P.Memory, MemoryThenComma;
  }

  lemma LoadExactly(s: string, i: nat, j: nat, x: Stmt)
    requires i <= |s| && (x.op.Ldx? || x.op.Lddw?)
    ensures P.Operands(s, i, MnemonicOf(x.op, x.imm)) == P.Ok(x, j) <==> OperandsAt(s, i, j, x)
  {
    hide P.WithComma, P.Register, P.Memory, P.Immediate, RegisterThenComma, MemoryAt, ImmediateAt;
    var r := P.WithComma(s, P.Register(s, i));
    if OperandsAt(s, i, j, x) {
      var a: nat :| RegisterThenComma(s, i, a, x.dst) &&
        if x.op.Ldx? then MemoryAt(s, a, j, x.src, x.offset) else ImmediateAt(s, a, j, x.imm);
      RegisterCommaAt(s, i, a, x.dst);
      MemoryExactly(s, a, j, x.src, x.offset);
      ImmediateExactly(s, a, j, x.imm);
    }
    if P.Operands(s, i, MnemonicOf(x.op, x.imm)) == P.Ok(x, j) {
      RegisterComma(s, i, r.next, r.value);
      MemoryExactly(s, r.next, j, x.src, x.offset);
      ImmediateExactly(s, r.next, j, x.imm);
    }
  }

  lemma StoreExactly(s: string, i: nat, j: nat, x: Stmt)
    requires i <= |s| && (x.op.St? || x.op.Stx?)
    ensures P.Operands(s, i, MnemonicOf(x.op, x.imm)) == P.Ok(x, j) <==> OperandsAt(s, i, j, x)
  {
    hide P.WithComma, P.Register, P.Memory, P.Immediate, MemoryThenComma, RegisterAt, ImmediateAt;
    var r := P.WithComma(s, P.Memory(s, i));
    if OperandsAt(s, i, j, x) {
      var a: nat :| MemoryThenComma(s, i, a, x.dst, x.offset) &&
        if x.op.Stx? then RegisterAt(s, a, j, x.src) else ImmediateAt(s, a, j, x.imm);
      MemoryCommaAt(s, i, a, x.dst, x.offset);
      RegisterExactly(s, a, j, x.src);
      ImmediateExactly(s, a, j, x.imm);
    }
    if P.Operands(s, i, MnemonicOf(x.op, x.imm)) == P.Ok(x, j) {
      MemoryComma(s, i, r.next, r.value.reg, r.value.offset);
      RegisterExactly(s, r.next, j, x.src);
      ImmediateExactly(s, r.next, j, x.imm);
    }
  }

  lemma SourceCommaAt(s: string, i: nat, j: nat, o: Operand, src: int, imm: int)
    requires SourceThenComma(s, i, j, o, src, imm) && i <= |s|
    ensures P.WithComma(s, P.RegOrImm(s, i)) == P.Ok(SourceOf(o, src, imm), j) && j <= |s|
    ensures if o.Reg? then imm == 0 else src == 0
  {
    var a: nat :| SourceAt(s, i, a, o, src, imm) && Token(s, a, j, ',');
    SourceFields(s, i, a, o, src, imm);
    hide SourceAt, P.RegOrImm;
    SourceComma(s, i, j, o, src, imm);
  }

  lemma CompareExactly(s: string, i: nat, j: nat, x: Stmt)
    requires i <= |s| && x.op.Jmp?
    ensures P.Operands(s, i, MnemonicOf(x.op, x.imm)) == P.Ok(x, j) <==> OperandsAt(s, i, j, x)
  {
    hide P.WithComma, P.Register, P.RegOrImm, P.Offset, RegisterThenComma, SourceThenComma, OffsetAt;
    var o := x.op.operand;
    var r := P.WithComma(s, P.Register(s, i));
    if OperandsAt(s, i, j, x) {
      var a: nat, b: nat :| RegisterThenComma(s, i, a, x.dst) && SourceThenComma(s, a, b, o, x.src, x.imm)
        && OffsetAt(s, b, j, x.offset);
      RegisterCommaAt(s, i, a, x.dst);
      SourceCommaAt(s, a, b, o, x.src, x.imm);
      OffsetExactly(s, b, j, x.offset);
    }
    if P.Operands(s, i, MnemonicOf(x.op, x.imm)) == P.Ok(x, j) {
      RegisterComma(s, i, r.next, r.value);
      var q := P.WithComma(s, P.RegOrImm(s, r.next));
      SourceComma(s, r.next, q.next, o, x.src, x.imm);
      OffsetExactly(s, q.next, j, x.offset);
    }
  }

  lemma OthersExactly(s: string, i: nat, j: nat, x: Stmt)
    requires i <= |s| && (x.op.Neg? || x.op.End? || x.op.Ja? || x.op.Call? || x.op.Exit?)
    ensures P.Operands(s, i, MnemonicOf(x.op, x.imm)) == P.Ok(x, j) <==> OperandsAt(s, i, j, x)
  {
    RegisterExactly(s, i, j, x.dst);
    OffsetExactly(s, i, j, x.offset);
    ImmediateExactly(s, i, j, x.imm);
    hide P.Register, P.Immediate, P.Offset, RegisterAt, ImmediateAt, OffsetAt;
  }

  lemma OperandsExactly(s: string, i: nat, j: nat, x: Stmt)
    requires i <= |s|
    ensures P.Operands(s, i, MnemonicOf(x.op, x.imm)) == P.Ok(x, j) <==> OperandsAt(s, i, j, x)
  {
    hide P.Operands, OperandsAt, MnemonicOf;
    if x.op.Alu? {
      AluExactly(s, i, j, x);
    } else if x.op.Ldx? || x.op.Lddw? {
      LoadExactly(s, i, j, x);
    } else if x.op.St? || x.op.Stx? {
      StoreExactly(s, i, j, x);
    } else if x.op.Jmp? {
      CompareExactly(s, i, j, x);
    } else {
      OthersExactly(s, i, j, x);
    }
  }

  /** Keywords hold no white space and begin with a letter. */
  lemma KeywordPlain(op: Op, imm: int)
    ensures var w := Keyword(op, imm); Plain(w)
  {
    PlainWords();
    PlainLast();
    hide AluWord, JumpWord, SizeWord, Plain, NoSpace;
    match op
    case Alu(w, a, _) =>
      PlainAlu(a);
      PlainSum(AluWord(a), if w.W32? then "32" else "");
    case Jmp(c, _) => PlainJump(c);
    case Ldx(sz) =>
      PlainSize(sz);
      PlainSum("ldx", SizeWord(sz));
    case St(sz) =>
      PlainSize(sz);
      PlainSum("st", SizeWord(sz));
    case Stx(sz) =>
      PlainSize(sz);
      PlainSum("stx", SizeWord(sz));
    case End(big) =>
      PlainSum(if big then "be" else "le", if imm == 16 then "16" else if imm == 32 then "32" else "64");
    case _ =>
  }

  ghost predicate Plain(w: string) { w != "" && 'a' <= w[0] <= 'z' && NoSpace(w) }

  ghost predicate NoSpace(w: string) { forall k :: 0 <= k < |w| ==> w[k] !in " \t\n\r" }

  lemma PlainWords()
    ensures Plain("ldx") && Plain("st") && Plain("stx") && Plain("be") && Plain("le") && Plain("neg") && Plain("neg32")
    ensures NoSpace("") && NoSpace("16") && NoSpace("32") && NoSpace("64")
  {
  }

  lemma PlainLast()
    ensures Plain("ja") && Plain("call") && Plain("exit") && Plain("lddw")
  {
  }

  lemma PlainAlu(a: AluOp)
    ensures Plain(AluWord(a))
  {
  }

  lemma PlainJump(c: Cond)
    ensures Plain(JumpWord(c))
  {
  }

  lemma PlainSize(sz: Size)
    ensures Plain(SizeWord(sz))
  {
  }

  lemma PlainSum(a: string, b: string)
    requires Plain(a) && (NoSpace(b) || Plain(b))
    ensures Plain(a + b)
  {
  }

  lemma {:induction false} WordRuns(s: string, i: nat)
    requires i <= |s|
    ensures var j := P.WordEnd(s, i);
      && i <= j <= |s| && (j < |s| ==> s[j] in " \t\n\r")
      && forall k :: i <= k < j ==> s[k] !in " \t\n\r"
    decreases |s| - i
  {
    if i < |s| {
      Spaces(s[i]);
      if !P.IsSpace(s[i]) {
        WordRuns(s, i + 1);
      }
    }
  }

  lemma WordUnique(s: string, i: nat, j: nat)
    requires i <= j <= |s| && (j < |s| ==> s[j] in " \t\n\r")
    requires forall k :: i <= k < j ==> s[k] !in " \t\n\r"
    ensures j == P.WordEnd(s, i)
  {
    WordRuns(s, i);
  }

  /** What the parser's operands of a keyword are, the operation included. */
  lemma OperandsKeyword(s: string, i: nat, m: P.Mnemonic, w: string)
    requires i <= |s| && P.Operands(s, i, m).Ok? && P.Find(w) == Some(m)
    ensures var x := P.Operands(s, i, m).value;
      m == MnemonicOf(x.op, x.imm) && (x.op.End? ==> x.imm == 16 || x.imm == 32 || x.imm == 64)
  {
    hide P.Find, P.Register, P.Immediate, P.Offset, P.Memory, P.WithComma, P.RegOrImm;
    if m.Unary? {
      UnaryKeyword(w, m);
    }
  }

  lemma StatementExactly(s: string, i: nat, j: nat, x: Stmt)
    requires i <= |s|
    ensures P.Statement(s, i) == P.Ok(x, j) <==> StatementAt(s, i, j, x)
  {
    hide P.Operands, OperandsAt, MnemonicOf, Keyword, P.Find;
    if StatementAt(s, i, j, x) {
      var a: nat, b: nat :| Blank(s, i, a) && a < b <= |s| && (b < |s| ==> s[b] in " \t\n\r")
        && s[a..b] == Keyword(x.op, x.imm) && OperandsAt(s, b, j, x);
      KeywordPlain(x.op, x.imm);
      forall k | a <= k < b ensures s[k] !in " \t\n\r" { assert s[k] == s[a..b][k - a]; }
      BlankUnique(s, i, a);
      WordUnique(s, a, b);
      KeywordFound(x.op, x.imm);
      OperandsExactly(s, b, j, x);
    }
    if P.Statement(s, i) == P.Ok(x, j) {
      var a := P.Skip(s, i);
      var b := P.WordEnd(s, a);
      var w := s[a..b];
      SkipsBlank(s, i);
      WordRuns(s, a);
      OperandsKeyword(s, b, P.Find(w).value, w);
      FoundIsKeyword(w, x.op, x.imm);
      OperandsExactly(s, b, j, x);
      KeywordPlain(x.op, x.imm);
      assert a < b && s[a..b] == Keyword(x.op, x.imm);
    }
  }

  lemma StatementBegins(s: string, i: nat, j: nat, x: Stmt)
    requires i <= |s| && StatementAt(s, i, j, x)
    ensures P.Literal(s, i, ';').Failed? && P.Skip(s, i) < |s| && i < j <= |s|
  {
    StatementExactly(s, i, j, x);
    hide OperandsAt, Keyword, P.Statement;
    var a: nat, b: nat :| Blank(s, i, a) && a < b <= |s| && (b < |s| ==> s[b] in " \t\n\r")
      && s[a..b] == Keyword(x.op, x.imm) && OperandsAt(s, b, j, x);
    KeywordPlain(x.op, x.imm);
    assert s[a] == s[a..b][0];
    BlankUnique(s, i, a);
  }

  /** No semicolon begins a program. */
  lemma ProgramBegins(s: string, i: nat, xs: seq<Stmt>)
    requires i <= |s| && ProgramAt(s, i, xs)
    ensures P.Literal(s, i, ';').Failed?
  {
    hide StatementAt;
    if xs == [] {
      BlankUnique(s, i, |s|);
    } else {
      var j: nat, k: nat :| StatementAt(s, i, j, xs[0]) && (Token(s, j, k, ';') || k == j) && ProgramAt(s, k, xs[1..]);
      StatementBegins(s, i, j, xs[0]);
    }
  }

  /** The parser accepts exactly the programs of the grammar, and gives their statements. */
  lemma {:induction false} ProgramExactly(s: string, i: nat, xs: seq<Stmt>)
    requires i <= |s|
    ensures P.Program(s, i) == Some(xs) <==> ProgramAt(s, i, xs)
    decreases |s| - i
  {
    hide StatementAt, P.Statement, P.Literal, Token;
    if ProgramAt(s, i, xs) {
      ProgramParses(s, i, xs);
    }
    if P.Program(s, i) == Some(xs) {
      var r := P.Statement(s, i);
      if r.Failed? {
        SkipsBlank(s, i);
        assert xs == [];
      } else {
        var l := P.Literal(s, r.next, ';');
        var k := if l.Ok? then l.next else r.next;
        StatementExactly(s, i, r.next, r.value);
        LiteralExactly(s, r.next, k, ';');
        ProgramExactly(s, k, xs[1..]);
        assert xs[0] == r.value;
        assert StatementAt(s, i, r.next, xs[0]) && (Token(s, r.next, k, ';') || k == r.next);
      }
    }
  }

  lemma {:induction false} ProgramParses(s: string, i: nat, xs: seq<Stmt>)
    requires i <= |s| && ProgramAt(s, i, xs)
    ensures P.Program(s, i) == Some(xs)
    decreases |xs|
  {
    hide StatementAt, P.Statement, P.Literal, Token;
    if xs == [] {
      BlankUnique(s, i, |s|);
      NothingThere(s, i);
    } else {
      var j: nat, k: nat :| StatementAt(s, i, j, xs[0]) && (Token(s, j, k, ';') || k == j) && ProgramAt(s, k, xs[1..]);
      StatementExactly(s, i, j, xs[0]);
      StatementBegins(s, i, j, xs[0]);
      TokenEnds(s, j, k, ';');
      LiteralExactly(s, j, k, ';');
      if !Token(s, j, k, ';') {
        ProgramBegins(s, j, xs[1..]);
      }
      ProgramParses(s, k, xs[1..]);
      assert xs == [xs[0]] + xs[1..];
    }
  }

  lemma TokenEnds(s: string, i: nat, j: nat, c: char)
    ensures Token(s, i, j, c) ==> j <= |s|
  {
  }

  lemma NothingThere(s: string, i: nat)
    requires P.Skip(s, i) >= |s|
    ensures P.Statement(s, i).Failed?
  {
  }

  // ----- the bytes of a statement -----

  /** The instructions a statement becomes: two for a two-slot load. */
  function Slots(x: Stmt): nat { if x.op.Lddw? then 2 else 1 }

  /**
   * The instructions of a statement whose registers exist: its operation and registers; its offset, modulo 2 to the
   * 16th; its immediate, modulo 2 to the 32nd, or to the 64th over both slots.
   */
  ghost predicate Stands(insts: seq<Inst>, x: Stmt)
    requires |insts| == Slots(x)
  {
    var i := insts[0];
    && DecodeOp(i.opcode) == Some(x.op) && i.dst == x.dst && i.src == x.src && (i.offset - x.offset) % 0x1_0000 == 0
    && (i.imm - x.imm) % 0x1_0000_0000 == 0
    && (x.op.Lddw? ==>
        && insts[1].opcode == insts[1].dst == insts[1].src == insts[1].offset == 0
        && i.imm % 0x1_0000_0000 + 0x1_0000_0000 * (insts[1].imm % 0x1_0000_0000) ==
             x.imm % 0x1_0000_0000_0000_0000)
  }

  ghost predicate AllStand(insts: seq<Inst>, xs: seq<Stmt>)
    decreases |xs|
  {
    if xs == [] then insts == []
    else |insts| >= Slots(xs[0]) && Stands(insts[..Slots(xs[0])], xs[0]) && AllStand(insts[Slots(xs[0])..], xs[1..])
  }

  predicate RegistersExist(x: Stmt) { 0 <= x.dst < 16 && 0 <= x.src < 16 }

  lemma SameCut(a: int, b: int, m: int)
    requires m > 0 && a % m == b % m
    ensures (a - b) % m == 0
  {
    assert a == m * (a / m) + a % m && b == m * (b / m) + b % m;
    assert m * (a / m) - m * (b / m) == m * (a / m - b / m);
    DivModUnique(a - b, m, a / m - b / m, 0);
  }

  lemma SlotStands(op: Op, dst: int, src: int, offset: int, imm: int)
    requires 0 <= dst < 16 && 0 <= src < 16
    ensures var i := DecodeInst(Pack(Opcode(op), dst, src, offset, imm));
      && DecodeOp(i.opcode) == Some(op) && i.dst == dst && i.src == src && (i.offset - offset) % 0x1_0000 == 0
      && (i.imm - imm) % 0x1_0000_0000 == 0 && i.imm % 0x1_0000_0000 == imm % 0x1_0000_0000
  {
    hide Pack, DecodeInst, Opcode, DecodeOp, RegByte;
    var i := DecodeInst(Pack(Opcode(op), dst, src, offset, imm));
    RT.PackDecodes(Opcode(op), dst, src, offset, imm);
    RT.RegByteSmall(dst, src);
    DivModUnique(dst + 16 * src, 16, src, dst);
    DecodeOpcode(op);
    SameCut(i.offset, offset, TWO16);
    SameCut(i.imm, imm, TWO32);
  }

  lemma SecondSlot(imm: int)
    ensures var i := DecodeInst(Pack(0, 0, 0, 0, imm));
      i.opcode == i.dst == i.src == i.offset == 0 && i.imm % 0x1_0000_0000 == imm % 0x1_0000_0000
  {
    hide Pack, DecodeInst, RegByte;
    RT.PackDecodes(0, 0, 0, 0, imm);
    RT.RegByteOfNone();
  }

  lemma Halves(v: int)
    ensures v % 0x1_0000_0000 + 0x1_0000_0000 * (v / 0x1_0000_0000 % 0x1_0000_0000) == v % 0x1_0000_0000_0000_0000
  {
    var q, r := v / TWO32, v % TWO32;
    DivModUnique(v, TWO64, q / TWO32, TWO32 * (q % TWO32) + r);
  }

  lemma StatementStands(x: Stmt)
    requires RegistersExist(x)
    ensures |DecodeInsts(AssembleOne(x))| == Slots(x) && Stands(DecodeInsts(AssembleOne(x)), x)
  {
    hide Pack, DecodeInst, DecodeOp;
    SlotStands(x.op, x.dst, x.src, x.offset, x.imm);
    SecondSlot(x.imm / TWO32);
    Halves(x.imm);
    var a := Pack(Opcode(x.op), x.dst, x.src, x.offset, x.imm);
    hide Opcode;
    if x.op.Lddw? {
      var b := Pack(0, 0, 0, 0, x.imm / TWO32);
      assert (a + b)[..8] == a && (a + b)[8..] == b && b[..8] == b;
      assert DecodeInsts(b) == [DecodeInst(b)] + DecodeInsts(b[8..]);
    } else {
      assert a + [] == a && a[..8] == a;
      assert DecodeInsts(a) == [DecodeInst(a)] + DecodeInsts(a[8..]);
    }
  }

  lemma DecodeStep(c: seq<byte>)
    requires |c| >= 8
    ensures DecodeInsts(c) == [DecodeInst(c[..8])] + DecodeInsts(c[8..])
  {
    hide DecodeInst;
  }

  lemma FirstSlot(a: seq<byte>, b: seq<byte>)
    requires |a| >= 8
    ensures (a + b)[..8] == a[..8] && (a + b)[8..] == a[8..] + b
  {
  }

  lemma {:induction false} DecodeAppend(a: seq<byte>, b: seq<byte>)
    requires |a| % 8 == 0
    ensures DecodeInsts(a + b) == DecodeInsts(a) + DecodeInsts(b)
    decreases |a|
  {
    hide DecodeInst, DecodeInsts;
    if a == [] {
      NoInsts();
      assert a + b == b;
    } else {
      DecodeStep(a);
      DecodeStep(a + b);
      FirstSlot(a, b);
      DecodeAppend(a[8..], b);
      OneAndRest([DecodeInst(a[..8])], DecodeInsts(a[8..]), DecodeInsts(b));
    }
  }

  lemma OneAndRest(x: seq<Inst>, y: seq<Inst>, z: seq<Inst>)
    ensures x + (y + z) == (x + y) + z
  {
  }

  lemma {:induction false} AllStatementsStand(xs: seq<Stmt>)
    requires forall k :: 0 <= k < |xs| ==> RegistersExist(xs[k])
    ensures AllStand(DecodeInsts(AssembleAll(xs)), xs)
  {
    hide AssembleOne, Stands, RegistersExist, DecodeInsts;
    if xs == [] {
      NoInsts();
    } else {
      assert RegistersExist(xs[0]);
      StatementStands(xs[0]);
      AllStatementsStand(xs[1..]);
      DecodeAppend(AssembleOne(xs[0]), AssembleAll(xs[1..]));
      var a, b := DecodeInsts(AssembleOne(xs[0])), DecodeInsts(AssembleAll(xs[1..]));
      assert (a + b)[..Slots(xs[0])] == a && (a + b)[Slots(xs[0])..] == b;
    }
  }

  lemma NoInsts()
    ensures DecodeInsts([]) == []
  {
  }

  /**
   * From text to instructions: a text of the grammar with registers that exist is accepted, and the code it is
   * assembled to is, instruction by instruction, what was written.
   */
  lemma TextMeans(s: string, xs: seq<Stmt>)
    requires ProgramAt(s, 0, xs) && forall k :: 0 <= k < |xs| ==> RegistersExist(xs[k])
    ensures P.Program(s, 0) == Some(xs) && AllStand(DecodeInsts(AssembleAll(xs)), xs)
  {
    ProgramExactly(s, 0, xs);
    AllStatementsStand(xs);
  }

  /** Register numbers of any size share a byte: the destination's digits spill into the source's. */
  lemma RegistersSpill(x: Stmt, k: nat)
    requires k < 4
    ensures var i := DecodeInst(AssembleOne(x)[..8]);
      && Mean.Digit(i.dst, k) == Mean.Digit(x.dst, k)
      && (Mean.Digit(i.src, k) == 1 <==> Mean.Digit(x.dst, 4 + k) == 1 || Mean.Digit(x.src, k) == 1)
  {
    hide Pack, DecodeInst, Pow2, Mean.Digit;
    var bs := Pack(Opcode(x.op), x.dst, x.src, x.offset, x.imm);
    assert AssembleOne(x)[..8] == bs;
    RT.PackDecodes(Opcode(x.op), x.dst, x.src, x.offset, x.imm);
    RegByteDigits(x.dst, x.src, k);
    RegByteDigits(x.dst, x.src, 4 + k);
    hide RegByte, AssembleOne, Opcode;
    NibbleDigits(RegByte(x.dst, x.src), k);
  }

  lemma RegByteDigits(dst: int, src: int, k: nat)
    requires k < 8
    ensures Mean.Digit(RegByte(dst, src), k) == 1 <==>
      Mean.Digit(dst, k) == 1 || (k >= 4 && Mean.Digit(src, k - 4) == 1)
  {
    hide Pow2, Mean.Digit, Bitwise;
    var a, b := dst % 0x100, 16 * src % 0x100;
    assert Pow2(8) == 0x100 by { Pow2Values(); }
    Mean.BitwiseDigit(BitOr, a, b, k);
    Mean.DigitMod(dst, 8, k);
    Mean.DigitMod(16 * src, 8, k);
    SixteenDigits(src, k);
  }

  lemma SixteenDigits(x: int, k: nat)
    ensures Mean.Digit(16 * x, k) == if k < 4 then 0 else Mean.Digit(x, k - 4)
  {
    hide Mean.Digit;
    DoubleDigits(8 * x, k);
    if k > 0 {
      DoubleDigits(4 * x, k - 1);
      if k > 1 {
        DoubleDigits(2 * x, k - 2);
        if k > 2 {
          DoubleDigits(x, k - 3);
        }
      }
    }
  }

  lemma DoubleDigits(x: int, k: nat)
    ensures Mean.Digit(2 * x, k) == if k == 0 then 0 else Mean.Digit(x, k - 1)
  {
    if k == 0 {
      Mean.DigitZero(2 * x);
    } else {
      Mean.DigitStep(2 * x, k);
      assert 2 * x / 2 == x;
    }
  }

  lemma NibbleDigits(b: nat, k: nat)
    requires k < 4
    ensures Mean.Digit(b % 16, k) == Mean.Digit(b, k) && Mean.Digit(b / 16, k) == Mean.Digit(b, 4 + k)
  {
    hide Mean.Digit;
    assert Pow2(4) == 16 by { assert Pow2(2) == 4; }
    hide Pow2;
    Mean.DigitMod(b, 4, k);
    Mean.DigitStep(b, 4 + k);
    Mean.DigitStep(b / 2, 3 + k);
    Mean.DigitStep(b / 4, 2 + k);
    Mean.DigitStep(b / 8, 1 + k);
    assert b / 2 / 2 == b / 4 && b / 4 / 2 == b / 8 && b / 8 / 2 == b / 16;
  }

  // ----- lines of other bytes -----

  /** Where the disassembler raises an exception, and where it shows nothing. */
  lemma RaisesExactly(data: seq<byte>, offset: nat)
    ensures DisassembleOne(data, offset).Raises? <==>
      || offset + 8 > |data|
      || (data[offset] % 8 == 4 && data[offset] >= 0xe0)
      || (data[offset] == 0x18 && offset + 16 > |data|)
    ensures DisassembleOne(data, offset).Silent? <==> offset + 8 <= |data| && data[offset] == 0
  {
    hide N.Numeral, MemLine, JmpLine, AluName;
    if offset + 8 <= |data| {
      assert data[offset..offset + 8][0] == data[offset];
      FirstByte(data[offset..offset + 8]);
      hide DecodeInst;
    }
  }

  lemma FirstByte(bs: seq<byte>)
    requires |bs| == 8
    ensures DecodeInst(bs).opcode == bs[0]
  {
  }

  /** A number as the disassembler shows it in hexadecimal: 0x and digits in lower case, the first no zero but for 0. */
  lemma {:induction false} NumeralMeans(n: nat, base: nat)
    requires base == 10 || base == 16
    ensures var t := N.Numeral(n, base);
      && Spells(t, base, n) && (t[0] == '0' <==> n == 0) && forall k :: 0 <= k < |t| ==> !('A' <= t[k] <= 'Z')
    decreases n
  {
    N.NumeralDigits(n, base);
    if n < base {
      DigitMeans(n);
    } else {
      NumeralMeans(n / base, base);
      DigitMeans(n % base);
      var t, u := N.Numeral(n, base), N.Numeral(n / base, base);
      assert t[..|t| - 1] == u && t[|t| - 1] == N.Digit(n % base);
    }
  }

  lemma DigitMeans(d: nat)
    requires d < 16
    ensures DigitFor(N.Digit(d), d) && !('A' <= N.Digit(d) <= 'Z')
  {
  }

  /** Bytes of no known class, and loads of no known mode. */
  lemma UnknownLines(data: seq<byte>, offset: nat)
    requires offset + 8 <= |data|
    ensures var code := data[offset];
      && (code % 8 == 6 ==> DisassembleOne(data, offset) == Line("unknown instruction 0x" + N.Numeral(code, 16)))
      && (code % 8 == 0 && code != 0 && code != 0x18 ==>
          DisassembleOne(data, offset) == Line("unknown mem instruction 0x" + N.Numeral(code, 16)))
  {
    hide N.Numeral;
    FirstByte(data[offset..offset + 8]);
    hide DecodeInst;
    var t := N.Numeral(data[offset], 16);
    assert "unknown instruction " + ("0x" + t) == "unknown instruction 0x" + t;
    assert "unknown mem instruction " + ("0x" + t) == "unknown mem instruction 0x" + t;
  }

  // ----- lines of known instructions -----

  /** What the slot at `offset` says, in the fields its operation uses; a number is unsigned. */
  ghost predicate Says(data: seq<byte>, offset: nat, c: Stmt)
  {
    && offset + (if c.op.Lddw? then 16 else 8) <= |data| && Shaped(c)
    && var i := DecodeInst(data[offset..offset + 8]);
       && DecodeOp(i.opcode) == Some(c.op)
       && (UsesDst(c.op) ==> c.dst == i.dst) && (UsesSrc(c.op) ==> c.src == i.src)
       && (UsesOffset(c.op) ==> c.offset == i.offset)
       && (UsesImm(c.op) && !c.op.Lddw? ==> c.imm == i.imm % 0x1_0000_0000)
       && (c.op.Lddw? ==>
           c.imm == i.imm % 0x1_0000_0000
                  + 0x1_0000_0000 * (DecodeInst(data[offset + 8..offset + 16]).imm % 0x1_0000_0000))
  }

  lemma AluFields(op: Op, dst: nat, src: nat, imm: nat, src': nat, imm': nat)
    requires op.Alu? || op.Neg? || op.End?
    requires (UsesSrc(op) ==> src == src') && (UsesImm(op) ==> imm == imm')
    ensures AluLine(Opcode(op), dst, src, imm) == AluLine(Opcode(op), dst, src', imm')
  {
    RT.OpcodeParts(op);
    hide Opcode, R, I, N.Numeral, AluName;
    if op.Alu? {
      AluCodeTable(op.alu);
    }
  }

  lemma JmpFields(op: Op, dst: nat, src: nat, off: u16, imm: nat, dst': nat, src': nat, off': u16, imm': nat)
    requires op.Jmp? || op.Ja? || op.Call? || op.Exit?
    requires (UsesDst(op) ==> dst == dst') && (UsesSrc(op) ==> src == src') && (UsesOffset(op) ==> off == off')
    requires UsesImm(op) ==> imm == imm'
    ensures JmpLine(Opcode(op), dst, src, off, imm) == JmpLine(Opcode(op), dst', src', off', imm')
  {
    RT.OpcodeParts(op);
    hide Opcode, R, I, O, JmpName;
    if op.Jmp? {
      CondCodeTable(op.cond);
    }
  }

  lemma MemFields(op: Op, dst: nat, src: nat, off: u16, imm: nat, src': nat, imm': nat)
    requires op.Ldx? || op.St? || op.Stx?
    requires (UsesSrc(op) ==> src == src') && (UsesImm(op) ==> imm == imm')
    ensures MemLine(Opcode(op), dst, src, off, imm) == MemLine(Opcode(op), dst, src', off, imm')
  {
    RT.OpcodeParts(op);
    hide Opcode, R, I, M, SizeName;
  }

  lemma SaysCanonical(data: seq<byte>, offset: nat, c: Stmt)
    requires Says(data, offset, c)
    ensures RT.Canonical(c)
  {
    hide DecodeInst, DecodeOp;
  }

  lemma SlotShown(data: seq<byte>, offset: nat, c: Stmt)
    requires Says(data, offset, c) && RT.Canonical(c)
    ensures DisassembleOne(data, offset) == Line(RT.Shown(c))
  {
    var i := DecodeInst(data[offset..offset + 8]);
    hide DecodeInst, DecodeOp, Opcode, R, I, M, O, DisassembleOne, AluLine, MemLine, JmpLine, RT.Shown, RT.Canonical;
    OpcodeTable(c.op, i.opcode);
    RT.Dispatch(data, offset, c.op);
    OffsetBack(i.offset);
    if c.op.Alu? || c.op.Neg? || c.op.End? {
      AluFields(c.op, i.dst, i.src, Low32(i.imm), i.src, c.imm);
      RT.AluShown(Opcode(c.op), c, i.src);
    } else if c.op.Lddw? {
      LddwShown(c);
    } else if c.op.Ldx? || c.op.St? || c.op.Stx? {
      MemFields(c.op, i.dst, i.src, i.offset % TWO16, Low32(i.imm), i.src, c.imm);
      RT.MemShown(Opcode(c.op), c, i.src);
    } else {
      JmpFields(c.op, i.dst, i.src, i.offset % TWO16, Low32(i.imm), i.dst, i.src, c.offset % TWO16, c.imm);
      RT.JmpShown(Opcode(c.op), c, i.dst, i.src);
    }
  }

  lemma OffsetBack(off: i16)
    ensures RT.Signed16(off % TWO16) == off
  {
  }

  lemma LddwShown(c: Stmt)
    requires RT.Canonical(c) && c.op.Lddw?
    ensures RT.Shown(c) == "lddw " + R(c.dst) + ", " + I(c.imm)
  {
    hide R, I;
    assert "lddw" + " " == "lddw ";
  }

  /**
   * The line shown for any slot with a known opcode, whatever wrote it, is a statement of the grammar that says what
   * the slot says.
   */
  lemma LineMeans(data: seq<byte>, offset: nat, c: Stmt) returns (text: string)
    requires Says(data, offset, c)
    ensures DisassembleOne(data, offset) == Line(text) && StatementAt(text + "\n", 0, |text|, c)
  {
    SaysCanonical(data, offset, c);
    SlotShown(data, offset, c);
    hide *;
    text := RT.Shown(c);
    var s := text + "\n";
    ShownParses(c, s);
    StatementExactly(s, 0, |text|, c);
  }

  lemma ShownParses(c: Stmt, s: string)
    requires RT.Canonical(c) && s == RT.Shown(c) + "\n"
    ensures P.Statement(s, 0) == P.Ok(c, |RT.Shown(c)|)
  {
    hide RT.Canonical, RT.Shown, P.Statement, RT.LineThen;
    RT.ShownLine(c, "");
    assert s == s + "" == RT.LineThen(c, ['\n'] + "");
    assert s[0..0 + |s|] == s;
    RT.LineParses(s, 0, c, "");
  }
}
