/**
 * The x86-64 instructions the code generator uses: their byte encoding (Intel SDM volume 2A,
 * sections 2.1.3 and 2.2.1) and a decoder for it.
 */
module X86 {
  import opened Words
  import opened Ebpf

  type reg = x: int | 0 <= x < 16

  const RAX: reg := 0
  const RCX: reg := 1
  const RDX: reg := 2
  const RBX: reg := 3
  const RSP: reg := 4
  const RBP: reg := 5
  const RSI: reg := 6
  const RDI: reg := 7
  const R8: reg := 8
  const R9: reg := 9
  const R13: reg := 13
  const R14: reg := 14
  const R15: reg := 15

  datatype RROp = AddRR | OrRR | AndRR | SubRR | XorRR | CmpRR | TestRR | MovRR
  datatype RIOp = AddRI | OrRI | AndRI | SubRI | XorRI | CmpRI | MovRI | TestRI
  datatype ShOp = Shl | Shr | Sar
  datatype UnOp = NegR | MulR | DivR
  datatype CC = CcE | CcNe | CcA | CcAe | CcB | CcBe | CcG | CcGe | CcL | CcLe

  /** `wide` selects 64-bit operands, otherwise 32-bit ones. Jump displacements count from the next instruction. */
  datatype X =
    | RR(wide: bool, rr: RROp, src: reg, dst: reg)
    | RI(wide: bool, ri: RIOp, dst: reg, imm: i32)
    | ShI(wide: bool, sh: ShOp, dst: reg, n: byte)
    | ShCl(wide: bool, sh: ShOp, dst: reg)
    | Un(wide: bool, un: UnOp, dst: reg)
    | Rol16(dst: reg, n: byte)
    | Bswap(wide: bool, dst: reg)
    | Push(dst: reg)
    | Pop(dst: reg)
    | MovAbs(dst: reg, imm64: u64)
    | Ld(size: Size, base: reg, dst: reg, disp: i32)
    | Str(size: Size, src: reg, base: reg, disp: i32)
    | StrI(size: Size, base: reg, disp: i32, bits: u32)
    | Jcc(cc: CC, rel: i32)
    | JmpRel(rel: i32)
    | CallRax
    | Ret
    | Lea(dst: reg, rel: i32)

  /**
   * What the emitters can encode. A base register RSP or R12 would need a SIB byte, which they never emit;
   * the RIP-relative load puts the high bit of its destination in the wrong REX bit.
   */
  predicate Encodable(x: X)
  {
    match x
    case Ld(_, base, _, _) => base % 8 != 4
    case Str(_, _, base, _) => base % 8 != 4
    case StrI(sz, base, _, bits) => base % 8 != 4 && (sz.S8? ==> bits < 0x100) && (sz.S16? ==> bits < TWO16)
    case Lea(dst, _) => dst < 8
    case _ => true
  }

  // ----- opcode tables -----

  function RRByte(op: RROp): byte
  {
    match op
    case AddRR => 0x01 case OrRR => 0x09 case AndRR => 0x21 case SubRR => 0x29
    case XorRR => 0x31 case CmpRR => 0x39 case TestRR => 0x85 case MovRR => 0x89
  }

  function RIByte(op: RIOp): byte
  {
    match op
    case MovRI => 0xc7
    case TestRI => 0xf7
    case _ => 0x81
  }

  /** The opcode extension in the reg field. */
  function RIExt(op: RIOp): reg
  {
    match op
    case AddRI => 0 case OrRI => 1 case AndRI => 4 case SubRI => 5
    case XorRI => 6 case CmpRI => 7 case MovRI => 0 case TestRI => 0
  }

  function ShExt(op: ShOp): reg
  {
    match op
    case Shl => 4
    case Shr => 5
    case Sar => 7
  }

  function UnExt(op: UnOp): reg
  {
    match op
    case NegR => 3
    case MulR => 4
    case DivR => 6
  }

  function CcByte(c: CC): byte
  {
    match c
    case CcE => 0x84 case CcNe => 0x85 case CcA => 0x87 case CcAe => 0x83 case CcB => 0x82
    case CcBe => 0x86 case CcG => 0x8f case CcGe => 0x8d case CcL => 0x8c case CcLe => 0x8e
  }

  // ----- encoding -----

  function RexByte(wide: bool, r: reg, b: reg): byte
  {
    0x40 + (if wide then 8 else 0) + 4 * (r / 8) + b / 8
  }

  /** The REX prefix, left out when it would carry no bit. */
  function Rex(wide: bool, r: reg, b: reg): seq<byte>
  {
    if wide || r >= 8 || b >= 8 then [RexByte(wide, r, b)] else []
  }

  function ModRM(mode: nat, r: reg, m: reg): byte
    requires mode < 4
  {
    64 * mode + 8 * (r % 8) + m % 8
  }

  /** ModRM byte and displacement of the memory operand [m + d]. */
  function MemOperand(r: reg, m: reg, d: i32): seq<byte>
  {
    if d == 0 && m % 8 != 5 then [ModRM(0, r, m)]
    else if -128 <= d <= 127 then [ModRM(1, r, m), d % 0x100]
    else [ModRM(2, r, m)] + LeBytes(d, 4)
  }

  function Prefix66(x: X): bool
  {
    match x
    case Rol16(_, _) => true
    case Str(S16, _, _, _) => true
    case StrI(S16, _, _, _) => true
    case _ => false
  }

  /** The registers whose high bits go to the REX prefix, and its W bit. */
  function RexFields(x: X): (bool, reg, reg)
  {
    match x
    case RR(w, _, src, dst) => (w, src, dst)
    case RI(w, _, dst, _) => (w, 0, dst)
    case ShI(w, _, dst, _) => (w, 0, dst)
    case ShCl(w, _, dst) => (w, 0, dst)
    case Un(w, _, dst) => (w, 0, dst)
    case Rol16(dst, _) => (false, 0, dst)
    case Bswap(w, dst) => (w, 0, dst)
    case Push(dst) => (false, 0, dst)
    case Pop(dst) => (false, 0, dst)
    case MovAbs(dst, _) => (true, 0, dst)
    case Ld(sz, base, dst, _) => (sz.S64?, dst, base)
    case Str(sz, src, base, _) => (sz.S64?, src, base)
    case StrI(sz, base, _, _) => (sz.S64?, 0, base)
    case Lea(dst, _) => (true, 5, dst)
    case _ => (false, 0, 0)
  }

  /** Byte stores always get a prefix: without it registers 4 to 7 would mean AH to BH. */
  function RexOf(x: X): seq<byte>
  {
    var (w, r, b) := RexFields(x);
    if x.Str? && x.size.S8? then [RexByte(w, r, b)] else Rex(w, r, b)
  }

  function Body(x: X): (bs: seq<byte>)
  {
    match x
    case RR(_, op, src, dst) => [RRByte(op), ModRM(3, src, dst)]
    case RI(_, op, dst, imm) => [RIByte(op), ModRM(3, RIExt(op), dst)] + LeBytes(imm, 4)
    case ShI(_, op, dst, n) => [0xc1, ModRM(3, ShExt(op), dst), n]
    case ShCl(_, op, dst) => [0xd3, ModRM(3, ShExt(op), dst)]
    case Un(_, op, dst) => [0xf7, ModRM(3, UnExt(op), dst)]
    case Rol16(dst, n) => [0xc1, ModRM(3, 0, dst), n]
    case Bswap(_, dst) => [0x0f, 0xc8 + dst % 8]
    case Push(dst) => [0x50 + dst % 8]
    case Pop(dst) => [0x58 + dst % 8]
    case MovAbs(dst, imm) => [0xb8 + dst % 8] + LeBytes(imm, 8)
    case Ld(S8, base, dst, d) => [0x0f, 0xb6] + MemOperand(dst, base, d)
    case Ld(S16, base, dst, d) => [0x0f, 0xb7] + MemOperand(dst, base, d)
    case Ld(_, base, dst, d) => [0x8b] + MemOperand(dst, base, d)
    case Str(sz, src, base, d) => [if sz.S8? then 0x88 else 0x89] + MemOperand(src, base, d)
    case StrI(sz, base, d, bits) =>
      [if sz.S8? then 0xc6 else 0xc7] + MemOperand(0, base, d) + LeBytes(bits, ImmBytes(sz))
    case Jcc(c, rel) => [0x0f, CcByte(c)] + LeBytes(rel, 4)
    case JmpRel(rel) => [0xe9] + LeBytes(rel, 4)
    case CallRax => [0xff, 0xd0]
    case Ret => [0xc3]
    case Lea(dst, rel) => [0x8d, ModRM(0, dst, 5)] + LeBytes(rel, 4)
  }

  /** Bytes of the immediate of a store: a 64-bit store has a 32-bit one. */
  function ImmBytes(sz: Size): nat
  {
    match sz
    case S8 => 1
    case S16 => 2
    case _ => 4
  }

  function Enc(x: X): seq<byte>
  {
    (if Prefix66(x) then [0x66] else []) + RexOf(x) + Body(x)
  }

  // ----- decoding -----

  datatype RexBits = RexBits(present: bool, wide: bool, r: nat, b: nat)

  const NoRex := RexBits(false, false, 0, 0)

  /** A decoded instruction and the bytes after it. */
  type Decoded = Option<(X, seq<byte>)>

  function SplitRex(bs: seq<byte>): (RexBits, seq<byte>)
  {
    if bs != [] && 0x40 <= bs[0] < 0x50 && bs[0] / 2 % 2 == 0 then
      (RexBits(true, bs[0] / 8 % 2 == 1, bs[0] / 4 % 2, bs[0] % 2), bs[1..])
    else (NoRex, bs)
  }

  function Dec(bs: seq<byte>): Decoded
  {
    var p66 := bs != [] && bs[0] == 0x66;
    var (rex, body) := SplitRex(if p66 then bs[1..] else bs);
    if body == [] || rex.r > 1 || rex.b > 1 then None
    else if p66 then DecWord(rex, body)
    else DecBody(rex, body)
  }

  function RegField(rex: RexBits, m: byte): reg
    requires rex.r <= 1
  {
    8 * rex.r + m / 8 % 8
  }

  function RmField(rex: RexBits, m: byte): reg
    requires rex.b <= 1
  {
    8 * rex.b + m % 8
  }

  function ReadI32(bs: seq<byte>): Option<(i32, seq<byte>)>
  {
    if |bs| < 4 then None
    else
      FromLeBound(bs[..4]);
      Pow2Values();
      Some((Signed32(FromLe(bs[..4])), bs[4..]))
  }

  /** A memory operand: reg field, base register, displacement. */
  function ReadMem(rex: RexBits, bs: seq<byte>): Option<(reg, reg, i32, seq<byte>)>
    requires rex.r <= 1 && rex.b <= 1
  {
    if bs == [] || bs[0] / 64 == 3 || bs[0] % 8 == 4 then None
    else
      var r, m := RegField(rex, bs[0]), RmField(rex, bs[0]);
      if bs[0] / 64 == 0 then
        if bs[0] % 8 == 5 then None else Some((r, m, 0, bs[1..]))
      else if bs[0] / 64 == 1 then
        if |bs| < 2 then None else Some((r, m, Signed8(bs[1]), bs[2..]))
      else match ReadI32(bs[1..])
        case None => None
        case Some((d, rest)) => Some((r, m, d, rest))
  }

  function RROfByte(b: byte): Option<RROp>
  {
    match b
    case 0x01 => Some(AddRR) case 0x09 => Some(OrRR) case 0x21 => Some(AndRR) case 0x29 => Some(SubRR)
    case 0x31 => Some(XorRR) case 0x39 => Some(CmpRR) case 0x85 => Some(TestRR) case 0x89 => Some(MovRR)
    case _ => None
  }

  function RIOf(b: byte, ext: nat): Option<RIOp>
  {
    if b == 0xc7 then (if ext == 0 then Some(MovRI) else None)
    else if b == 0xf7 then (if ext == 0 then Some(TestRI) else None)
    else match ext
      case 0 => Some(AddRI) case 1 => Some(OrRI) case 4 => Some(AndRI)
      case 5 => Some(SubRI) case 6 => Some(XorRI) case 7 => Some(CmpRI)
      case _ => None
  }

  function ShOf(ext: nat): Option<ShOp>
  {
    match ext
    case 4 => Some(Shl)
    case 5 => Some(Shr)
    case 7 => Some(Sar)
    case _ => None
  }

  function UnOf(ext: nat): Option<UnOp>
  {
    match ext
    case 3 => Some(NegR)
    case 4 => Some(MulR)
    case 6 => Some(DivR)
    case _ => None
  }

  function CcOf(b: byte): Option<CC>
  {
    match b
    case 0x84 => Some(CcE) case 0x85 => Some(CcNe) case 0x87 => Some(CcA) case 0x83 => Some(CcAe)
    case 0x82 => Some(CcB) case 0x86 => Some(CcBe) case 0x8f => Some(CcG) case 0x8d => Some(CcGe)
    case 0x8c => Some(CcL) case 0x8e => Some(CcLe)
    case _ => None
  }

  /** Instructions with the 16-bit operand prefix. */
  function DecWord(rex: RexBits, bs: seq<byte>): Decoded
    requires bs != [] && rex.r <= 1 && rex.b <= 1
  {
    if rex.wide then None
    else if bs[0] == 0x89 then DecStore(S16, rex, bs[1..])
    else if bs[0] == 0xc7 then DecStoreImm(S16, rex, bs[1..])
    else if bs[0] == 0xc1 && |bs| >= 3 && bs[1] / 64 == 3 && bs[1] / 8 % 8 == 0 then
      Some((Rol16(RmField(rex, bs[1]), bs[2]), bs[3..]))
    else None
  }

  function DecLoad(sz: Size, rex: RexBits, bs: seq<byte>): Decoded
    requires rex.r <= 1 && rex.b <= 1
  {
    match ReadMem(rex, bs)
    case None => None
    case Some((r, m, d, rest)) => Some((Ld(sz, m, r, d), rest))
  }

  function DecStore(sz: Size, rex: RexBits, bs: seq<byte>): Decoded
    requires rex.r <= 1 && rex.b <= 1
  {
    match ReadMem(rex, bs)
    case None => None
    case Some((r, m, d, rest)) => Some((Str(sz, r, m, d), rest))
  }

  function DecStoreImm(sz: Size, rex: RexBits, bs: seq<byte>): Decoded
    requires rex.r <= 1 && rex.b <= 1
  {
    match ReadMem(rex, bs)
    case None => None
    case Some((r, m, d, rest)) =>
      var n := ImmBytes(sz);
      if |rest| < n || r != 0 then None
      else
        FromLeBound(rest[..n]);
        Pow2Values();
        Some((StrI(sz, m, d, FromLe(rest[..n])), rest[n..]))
  }

  /** Two-byte opcodes. */
  function Dec0F(rex: RexBits, bs: seq<byte>): Decoded
    requires bs != [] && rex.r <= 1 && rex.b <= 1
  {
    if bs[0] == 0xb6 then DecLoad(S8, rex, bs[1..])
    else if bs[0] == 0xb7 then DecLoad(S16, rex, bs[1..])
    else if bs[0] >= 0xc8 then
      if bs[0] < 0xd0 then Some((Bswap(rex.wide, 8 * rex.b + (bs[0] - 0xc8)), bs[1..])) else None
    else match (CcOf(bs[0]), ReadI32(bs[1..]))
      case (Some(c), Some((rel, rest))) => Some((Jcc(c, rel), rest))
      case _ => None
  }

  /** Register-direct ModRM forms. */
  function DecReg(rex: RexBits, op: byte, m: byte, rest: seq<byte>): Decoded
    requires rex.r <= 1 && rex.b <= 1
  {
    var ext, rm := m / 8 % 8, RmField(rex, m);
    if RROfByte(op).Some? then Some((RR(rex.wide, RROfByte(op).value, RegField(rex, m), rm), rest))
    else if op == 0xc1 then
      if rest != [] && ShOf(ext).Some? then Some((ShI(rex.wide, ShOf(ext).value, rm, rest[0]), rest[1..])) else None
    else if op == 0xd3 then
      if ShOf(ext).Some? then Some((ShCl(rex.wide, ShOf(ext).value, rm), rest)) else None
    else if op == 0xf7 && UnOf(ext).Some? then Some((Un(rex.wide, UnOf(ext).value, rm), rest))
    else if op == 0x81 || op == 0xc7 || op == 0xf7 then
      match (RIOf(op, ext), ReadI32(rest))
      case (Some(ri), Some((imm, rest'))) => Some((RI(rex.wide, ri, rm, imm), rest'))
      case _ => None
    else if op == 0xff && m == 0xd0 then Some((CallRax, rest))
    else None
  }

  function DecBody(rex: RexBits, bs: seq<byte>): Decoded
    requires bs != [] && rex.r <= 1 && rex.b <= 1
  {
    var op, rest := bs[0], bs[1..];
    if op == 0x0f then (if rest == [] then None else Dec0F(rex, rest))
    else if 0x50 <= op < 0x58 then Some((Push(8 * rex.b + (op - 0x50)), rest))
    else if 0x58 <= op < 0x60 then Some((Pop(8 * rex.b + (op - 0x58)), rest))
    else if 0xb8 <= op < 0xc0 then
      if rex.wide && |rest| >= 8 then
        FromLeBound(rest[..8]);
        Pow2Values();
        Some((MovAbs(8 * rex.b + (op - 0xb8), FromLe(rest[..8])), rest[8..]))
      else None
    else if op == 0xe9 then
      match ReadI32(rest)
      case None => None
      case Some((rel, rest')) => Some((JmpRel(rel), rest'))
    else if op == 0xc3 then Some((Ret, rest))
    else if op == 0x8b then DecLoad(if rex.wide then S64 else S32, rex, rest)
    else if op == 0x88 then (if rex.present then DecStore(S8, rex, rest) else None)
    else if op == 0xc6 then DecStoreImm(S8, rex, rest)
    else if op == 0x8d then
      if rest == [] || rest[0] / 64 != 0 || rest[0] % 8 != 5 then None
      else match ReadI32(rest[1..])
        case None => None
        case Some((rel, rest')) => Some((Lea(RegField(rex, rest[0]), rel), rest'))
    else if rest == [] then None
    else if rest[0] / 64 == 3 then DecReg(rex, op, rest[0], rest[1..])
    else if op == 0x89 then DecStore(if rex.wide then S64 else S32, rex, rest)
    else if op == 0xc7 then DecStoreImm(if rex.wide then S64 else S32, rex, rest)
    else None
  }

  // ----- known bytes -----

  /** One instruction of each form, with its bytes as an assembler for the architecture gives them. */
  lemma KnownSums()
    ensures Enc(RR(true, AddRR, RCX, RAX)) == [0x48, 0x01, 0xc8]  // add rax, rcx
    ensures Enc(RR(false, SubRR, RCX, RAX)) == [0x29, 0xc8]  // sub eax, ecx
    ensures Enc(RR(true, OrRR, RCX, RAX)) == [0x48, 0x09, 0xc8]  // or rax, rcx
    ensures Enc(RR(true, AndRR, RCX, RAX)) == [0x48, 0x21, 0xc8]  // and rax, rcx
  {
  }

  lemma KnownComparisons()
    ensures Enc(RR(true, XorRR, RCX, RAX)) == [0x48, 0x31, 0xc8]  // xor rax, rcx
    ensures Enc(RR(true, CmpRR, RCX, RAX)) == [0x48, 0x39, 0xc8]  // cmp rax, rcx
    ensures Enc(RR(true, TestRR, RCX, RAX)) == [0x48, 0x85, 0xc8]  // test rax, rcx
    ensures Enc(RR(true, MovRR, R15, RDI)) == [0x4c, 0x89, 0xff]  // mov rdi, r15
  {
  }

  lemma KnownShifts()
    ensures Enc(ShI(true, Shl, RAX, 4)) == [0x48, 0xc1, 0xe0, 0x04]  // shl rax, 4
    ensures Enc(ShI(false, Shr, RAX, 4)) == [0xc1, 0xe8, 0x04]  // shr eax, 4
    ensures Enc(ShI(true, Sar, R13, 4)) == [0x49, 0xc1, 0xfd, 0x04]  // sar r13, 4
    ensures Enc(ShCl(true, Shl, RAX)) == [0x48, 0xd3, 0xe0]  // shl rax, cl
  {
  }

  lemma KnownUnary()
    ensures Enc(Un(true, NegR, RAX)) == [0x48, 0xf7, 0xd8]  // neg rax
    ensures Enc(Un(true, MulR, RCX)) == [0x48, 0xf7, 0xe1]  // mul rcx
    ensures Enc(Un(true, DivR, RCX)) == [0x48, 0xf7, 0xf1]  // div rcx
    ensures Enc(Rol16(RAX, 8)) == [0x66, 0xc1, 0xc0, 0x08]  // rol ax, 8
    ensures Enc(Bswap(true, RAX)) == [0x48, 0x0f, 0xc8]  // bswap rax
  {
  }

  /** The numbers of the registers. */
  lemma KnownRegisters()
    ensures RAX == 0 && RCX == 1 && RDX == 2 && RBX == 3 && RSP == 4 && RBP == 5 && RSI == 6 && RDI == 7
    ensures R8 == 8 && R9 == 9 && R13 == 13 && R14 == 14 && R15 == 15
  {
  }

  lemma KnownPlain()
    ensures Enc(Push(RBP)) == [0x55] && Enc(Pop(R15)) == [0x41, 0x5f]  // push rbp; pop r15
    ensures Enc(CallRax) == [0xff, 0xd0] && Enc(Ret) == [0xc3]  // call rax; ret
  {
  }

  /** And with any immediate or displacement, whose bytes come last. */
  lemma KnownSumImmediates(n: i32)
    ensures Enc(RI(true, AddRI, RSP, n)) == [0x48, 0x81, 0xc4] + LeBytes(n, 4)  // add rsp, n
    ensures Enc(RI(true, SubRI, RSP, n)) == [0x48, 0x81, 0xec] + LeBytes(n, 4)  // sub rsp, n
  {
    hide LeBytes;
  }

  lemma KnownConstants(n: i32, v: u64)
    ensures Enc(RI(true, MovRI, RAX, n)) == [0x48, 0xc7, 0xc0] + LeBytes(n, 4)  // mov rax, n
    ensures Enc(MovAbs(RAX, v)) == [0x48, 0xb8] + LeBytes(v, 8)  // movabs rax, v
  {
    hide LeBytes;
  }

  /** The conditions of jumps: equal; above and below for unsigned operands, greater and less for signed ones. */
  lemma KnownConditions(c: CC, rel: i32)
    ensures Enc(Jcc(c, rel)) == [0x0f, match c
      case CcE => 0x84 case CcNe => 0x85 case CcB => 0x82 case CcAe => 0x83 case CcBe => 0x86
      case CcA => 0x87 case CcL => 0x8c case CcGe => 0x8d case CcLe => 0x8e case CcG => 0x8f] + LeBytes(rel, 4)
  {
    hide LeBytes;
  }

  lemma KnownPlaces(rel: i32)
    ensures Enc(JmpRel(rel)) == [0xe9] + LeBytes(rel, 4)  // jmp rel
    ensures Enc(Lea(RSI, rel)) == [0x48, 0x8d, 0x35] + LeBytes(rel, 4)  // lea rsi, [rip + rel]
  {
    hide LeBytes;
  }

  lemma KnownLoads()
    ensures Enc(Ld(S64, RDI, RAX, 8)) == [0x48, 0x8b, 0x47, 8]  // mov rax, [rdi + 8]
    ensures Enc(Ld(S8, RDI, RAX, 0)) == [0x0f, 0xb6, 0x07]  // movzx eax, byte [rdi]
  {
    hide LeBytes;
  }

  lemma KnownStores()
    ensures Enc(Str(S8, RSI, RDI, 8)) == [0x40, 0x88, 0x77, 8]  // mov [rdi + 8], sil
    ensures Enc(Str(S16, RAX, RDI, 8)) == [0x66, 0x89, 0x47, 8]  // mov [rdi + 8], ax
  {
    hide LeBytes;
  }

  lemma KnownStoreImmediate(n: u32)
    ensures Enc(StrI(S32, RDI, 8, n)) == [0xc7, 0x47, 8] + LeBytes(n, 4)  // mov dword [rdi + 8], n
  {
    hide LeBytes;
  }
}
