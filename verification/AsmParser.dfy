/** The assembler's grammar, character by character. White space is skipped in front of every token. */
module AsmParser {
  import opened Ebpf
  import opened Numerals
  import opened Asm

  datatype Result<T> = Ok(value: T, next: nat) | Failed

  // ----- characters -----

  predicate IsSpace(c: char) { c == ' ' || c == '\t' || c == '\n' || c == '\r' }

  function Skip(s: string, i: nat): (j: nat)
    ensures i <= j && (i <= |s| ==> j <= |s|)
    decreases |s| - i
  {
    if i < |s| && IsSpace(s[i]) then Skip(s, i + 1) else i
  }

  /** The end of the word at `i`: a keyword has to be followed by white space or the end. */
  function WordEnd(s: string, i: nat): (j: nat)
    ensures i <= j && (i <= |s| ==> j <= |s|)
    decreases |s| - i
  {
    if i < |s| && !IsSpace(s[i]) then WordEnd(s, i + 1) else i
  }

  function DigitsEnd(s: string, i: nat, base: nat): (j: nat)
    ensures i <= j && (i <= |s| ==> j <= |s|)
    decreases |s| - i
  {
    if i < |s| && IsDigit(s[i], base) then DigitsEnd(s, i + 1, base) else i
  }

  // ----- tokens -----

  function Literal(s: string, i: nat, c: char): (r: Result<()>)
    ensures r.Ok? ==> i < r.next <= |s|
  {
    var j := Skip(s, i);
    if j < |s| && s[j] == c then Ok((), j + 1) else Failed
  }

  /** A hexadecimal or decimal number, with nothing skipped inside; a decimal may not have leading zeros. */
  function Number(s: string, i: nat): (r: Result<int>)
    ensures r.Ok? ==> i < r.next <= |s|
  {
    if i + 2 < |s| && s[i] == '0' && s[i + 1] == 'x' && IsDigit(s[i + 2], 16) then
      var end := DigitsEnd(s, i + 3, 16);
      Ok(Value(s[i + 2..end], 16), end)
    else if i < |s| && IsDigit(s[i], 10) then
      var end := DigitsEnd(s, i + 1, 10);
      var v := Value(s[i..end], 10);
      if s[i] == '0' && v != 0 then Failed else Ok(v, end)
    else Failed
  }

  predicate IsSign(c: char) { c == '+' || c == '-' }

  function Negated(minus: bool, r: Result<int>): Result<int>
  {
    if r.Ok? && minus then Ok(-r.value, r.next) else r
  }

  function Immediate(s: string, i: nat): (r: Result<int>)
    ensures r.Ok? ==> i < r.next <= |s|
  {
    var j := Skip(s, i);
    if j < |s| && IsSign(s[j]) then Negated(s[j] == '-', Number(s, Skip(s, j + 1))) else Number(s, j)
  }

  function Offset(s: string, i: nat): (r: Result<int>)
    ensures r.Ok? ==> i < r.next <= |s|
  {
    var j := Skip(s, i);
    if j < |s| && IsSign(s[j]) then Negated(s[j] == '-', Number(s, Skip(s, j + 1))) else Failed
  }

  /** An optional sign and digits. */
  function Integer(s: string, i: nat): (r: Result<int>)
    ensures r.Ok? ==> i < r.next <= |s|
  {
    var j := if i < |s| && IsSign(s[i]) then i + 1 else i;
    if j < |s| && IsDigit(s[j], 10) then
      var end := DigitsEnd(s, j + 1, 10);
      Negated(j > i && s[i] == '-', Ok(Value(s[j..end], 10), end))
    else Failed
  }

  function Register(s: string, i: nat): (r: Result<int>)
    ensures r.Ok? ==> i < r.next <= |s|
  {
    match Literal(s, i, 'r')
    case Failed => Failed
    case Ok(_, j) => Integer(s, Skip(s, j))
  }

  datatype MemRef = MemRef(reg: int, offset: int)

  function Memory(s: string, i: nat): (r: Result<MemRef>)
    ensures r.Ok? ==> i < r.next <= |s|
  {
    match Literal(s, i, '[')
    case Failed => Failed
    case Ok(_, j) =>
      match Register(s, j)
      case Failed => Failed
      case Ok(reg, k) =>
        var off := if Offset(s, k).Ok? then Offset(s, k) else Ok(0, k);
        match Literal(s, off.next, ']')
        case Failed => Failed
        case Ok(_, end) => Ok(MemRef(reg, off.value), end)
  }

  // ----- keywords -----

  datatype Mnemonic =
    | Binary(w: Width, alu: AluOp)
    | Unary(op: Op, imm: int)
    | LoadMem(sz: Size)
    | StoreImm(sz: Size)
    | StoreReg(sz: Size)
    | LoadWide
    | Compare(cond: Cond)
    | Jump
    | CallHelper
    | Leave

  function FindAlu(w: string): Option<AluOp>
  {
    if w == "add" then Some(Add) else if w == "sub" then Some(Sub) else if w == "mul" then Some(Mul)
    else if w == "div" then Some(Div) else if w == "or" then Some(Or) else if w == "and" then Some(And)
    else if w == "lsh" then Some(Lsh) else if w == "rsh" then Some(Rsh) else if w == "mod" then Some(Mod)
    else if w == "xor" then Some(Xor) else if w == "mov" then Some(Mov) else if w == "arsh" then Some(Arsh)
    else None
  }

  function FindUnary(w: string): Option<Mnemonic>
  {
    if w == "neg" then Some(Unary(Neg(W64), 0)) else if w == "neg32" then Some(Unary(Neg(W32), 0))
    else if w == "le16" then Some(Unary(End(false), 16)) else if w == "le32" then Some(Unary(End(false), 32))
    else if w == "le64" then Some(Unary(End(false), 64)) else if w == "be16" then Some(Unary(End(true), 16))
    else if w == "be32" then Some(Unary(End(true), 32)) else if w == "be64" then Some(Unary(End(true), 64))
    else None
  }

  function FindSize(w: string): Option<Size>
  {
    if w == "w" then Some(S32) else if w == "h" then Some(S16) else if w == "b" then Some(S8)
    else if w == "dw" then Some(S64) else None
  }

  function FindMem(w: string): Option<Mnemonic>
  {
    if w == "lddw" then Some(LoadWide)
    else if |w| > 3 && w[..3] == "ldx" && FindSize(w[3..]).Some? then Some(LoadMem(FindSize(w[3..]).value))
    else if |w| > 3 && w[..3] == "stx" && FindSize(w[3..]).Some? then Some(StoreReg(FindSize(w[3..]).value))
    else if |w| > 2 && w[..2] == "st" && FindSize(w[2..]).Some? then Some(StoreImm(FindSize(w[2..]).value))
    else None
  }

  function FindJump(w: string): Option<Mnemonic>
  {
    if w == "jeq" then Some(Compare(Eq)) else if w == "jgt" then Some(Compare(Gt))
      else if w == "jge" then Some(Compare(Ge))
    else if w == "jlt" then Some(Compare(Lt)) else if w == "jle" then Some(Compare(Le))
    else if w == "jset" then Some(Compare(Set)) else if w == "jne" then Some(Compare(Ne))
    else if w == "jsgt" then Some(Compare(Sgt)) else if w == "jsge" then Some(Compare(Sge))
    else if w == "jslt" then Some(Compare(Slt)) else if w == "jsle" then Some(Compare(Sle))
    else if w == "ja" then Some(Jump) else if w == "call" then Some(CallHelper) else if w == "exit" then Some(Leave)
    else None
  }

  function Find(w: string): (m: Option<Mnemonic>)
    ensures m.Some? ==> w != ""
  {
    if FindUnary(w).Some? then FindUnary(w)
    else if FindAlu(w).Some? then Some(Binary(W64, FindAlu(w).value))
    else if |w| > 2 && w[|w| - 2..] == "32" && FindAlu(w[..|w| - 2]).Some? then Some(Binary(W32,
      FindAlu(w[..|w| - 2]).value))
    else if FindMem(w).Some? then FindMem(w)
    else FindJump(w)
  }

  // ----- statements -----

  /** A register, or else an immediate. */
  datatype Source = FromReg(num: int) | FromImm(value: int)

  function RegOrImm(s: string, i: nat): (r: Result<Source>)
    ensures r.Ok? ==> i < r.next <= |s|
  {
    match Register(s, i)
    case Ok(n, next) => Ok(FromReg(n), next)
    case Failed =>
      match Immediate(s, i)
      case Ok(v, next) => Ok(FromImm(v), next)
      case Failed => Failed
  }

  function OperandOf(x: Source): Operand { if x.FromReg? then Reg else Imm }

  function SrcOf(x: Source): int { if x.FromReg? then x.num else 0 }

  function ImmOf(x: Source): int { if x.FromImm? then x.value else 0 }

  /** An operand and the comma behind it. */
  function WithComma<A>(s: string, a: Result<A>): (r: Result<A>)
    ensures r.Ok? ==> a.Ok? && a.next < r.next <= |s|
  {
    match a
    case Failed => Failed
    case Ok(x, j) =>
      match Literal(s, j, ',')
      case Failed => Failed
      case Ok(_, k) => Ok(x, k)
  }

  /** The operands of a keyword. */
  function Operands(s: string, i: nat, m: Mnemonic): (r: Result<Stmt>)
    requires i <= |s|
    ensures r.Ok? ==> i <= r.next <= |s|
  {
    match m
    case Binary(w, a) =>
      (match WithComma(s, Register(s, i))
       case Failed => Failed
       case Ok(d, k) =>
         match RegOrImm(s, k)
         case Failed => Failed
         case Ok(x, end) => Ok(Stmt(Alu(w, a, OperandOf(x)), d, SrcOf(x), 0, ImmOf(x)), end))
    case Unary(op, imm) =>
      (match Register(s, i)
       case Failed => Failed
       case Ok(d, end) => Ok(Stmt(op, d, 0, 0, imm), end))
    case LoadMem(sz) =>
      (match WithComma(s, Register(s, i))
       case Failed => Failed
       case Ok(d, k) =>
         match Memory(s, k)
         case Failed => Failed
         case Ok(m, end) => Ok(Stmt(Ldx(sz), d, m.reg, m.offset, 0), end))
    case StoreImm(sz) =>
      (match WithComma(s, Memory(s, i))
       case Failed => Failed
       case Ok(m, k) =>
         match Immediate(s, k)
         case Failed => Failed
         case Ok(v, end) => Ok(Stmt(St(sz), m.reg, 0, m.offset, v), end))
    case StoreReg(sz) =>
      (match WithComma(s, Memory(s, i))
       case Failed => Failed
       case Ok(m, k) =>
         match Register(s, k)
         case Failed => Failed
         case Ok(x, end) => Ok(Stmt(Stx(sz), m.reg, x, m.offset, 0), end))
    case LoadWide =>
      (match WithComma(s, Register(s, i))
       case Failed => Failed
       case Ok(d, k) =>
         match Immediate(s, k)
         case Failed => Failed
         case Ok(v, end) => Ok(Stmt(Lddw, d, 0, 0, v), end))
    case Compare(c) => CompareOperands(s, i, c)
    case Jump =>
      (match Offset(s, i)
       case Failed => Failed
       case Ok(off, end) => Ok(Stmt(Ja, 0, 0, off, 0), end))
    case CallHelper =>
      (match Immediate(s, i)
       case Failed => Failed
       case Ok(v, end) => Ok(Stmt(Call, 0, 0, 0, v), end))
    case Leave => Ok(Stmt(Exit, 0, 0, 0, 0), i)
  }

  function CompareOperands(s: string, i: nat, c: Cond): (r: Result<Stmt>)
    ensures r.Ok? ==> i < r.next <= |s|
  {
    match WithComma(s, Register(s, i))
    case Failed => Failed
    case Ok(d, k) =>
      match WithComma(s, RegOrImm(s, k))
      case Failed => Failed
      case Ok(x, l) =>
        match Offset(s, l)
        case Failed => Failed
        case Ok(off, end) => Ok(Stmt(Jmp(c, OperandOf(x)), d, SrcOf(x), off, ImmOf(x)), end)
  }

  /** A statement at `i`: a keyword and its operands. */
  function Statement(s: string, i: nat): (r: Result<Stmt>)
    ensures r.Ok? ==> i < r.next <= |s|
  {
    var j := Skip(s, i);
    if j >= |s| then Failed
    else match Find(s[j..WordEnd(s, j)])
      case None => Failed
      case Some(m) => Operands(s, WordEnd(s, j), m)
  }

  /** Statements, each with an optional semicolon, to the end of the text. */
  function Program(s: string, i: nat): Option<seq<Stmt>>
    decreases |s| - i
  {
    match Statement(s, i)
    case Failed => if Skip(s, i) >= |s| then Some([]) else None
    case Ok(stmt, next) =>
      match Program(s, if Literal(s, next, ';').Ok? then Literal(s, next, ';').next else next)
      case None => None
      case Some(rest) => Some([stmt] + rest)
  }
}
