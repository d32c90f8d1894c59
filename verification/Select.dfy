/** Instruction selection of the x86-64 code generator: the code for one eBPF instruction, jumps still symbolic. */
module Select {
  import opened Words
  import opened Ebpf
  import opened X86

  /** Where a jump goes: an eBPF slot, the epilogue, or the division handler. */
  datatype Target = ToSlot(pc: u16) | ToExit | ToDivByZero

  datatype Asm =
    | Plain(x: X)
    | JmpTo(target: Target)
    | JccTo(cc: CC, target: Target)
    | LeaString(dst: reg, id: nat)

  /** The x86 register that holds each eBPF register. */
  const REGISTER_MAP: seq<reg> := [RAX, RDI, RSI, RDX, R9, R8, RBX, R13, R14, R15, RBP]

  const NONVOLATILE: seq<reg> := [RBP, RBX, R13, R14, R15]

  function MapRegister(r: nat): reg { REGISTER_MAP[r % 11] }

  /** The parts of the virtual machine the generator reads. */
  datatype Source = Source(insts: seq<Inst>, extFuncs: seq<u64>, unwindIndex: int, errorPrintf: u64, stderr: u64)

  function MovReg(src: reg, dst: reg): Asm { Plain(RR(true, MovRR, src, dst)) }

  /** A constant: sign-extended 32-bit immediate when it fits, otherwise all 64 bits. */
  function LoadImm(dst: reg, v: i64): X
  {
    if -TWO31 <= v < TWO31 then X.RI(true, X86.MovRI, dst, v) else MovAbs(dst, Wrap64(v))
  }

  function AluRR(op: AluOp): RROp
  {
    match op
    case Add => AddRR
    case Sub => SubRR
    case Or => OrRR
    case And => AndRR
    case Xor => XorRR
    case _ => MovRR
  }

  function AluRI(op: AluOp): RIOp
  {
    match op
    case Add => AddRI
    case Sub => SubRI
    case Or => OrRI
    case And => AndRI
    case Xor => XorRI
    case _ => MovRI
  }

  function AluSh(op: AluOp): ShOp
  {
    match op
    case Lsh => Shl
    case Rsh => Shr
    case _ => Sar
  }

  function AluCode(i: nat, w: Width, op: AluOp, o: Operand, dst: reg, src: reg, imm: i32): seq<Asm>
  {
    match op
    case Mul => MulDivMod(i, w, op, src, dst, imm)
    case Div => MulDivMod(i, w, op, src, dst, imm)
    case Mod => MulDivMod(i, w, op, src, dst, imm)
    case Mov => MovCode(w, o, dst, src, imm)
    case Lsh => ShiftCode(w, op, o, dst, src, imm)
    case Rsh => ShiftCode(w, op, o, dst, src, imm)
    case Arsh => ShiftCode(w, op, o, dst, src, imm)
    case _ =>
      if o.Imm? then [Plain(RI(w.W64?, AluRI(op), dst, imm))]
      else [Plain(RR(w.W64?, AluRR(op), src, dst))]
  }

  function MovCode(w: Width, o: Operand, dst: reg, src: reg, imm: i32): seq<Asm>
  {
    if o.Reg? then [MovReg(src, dst)]
    else if w.W32? then [Plain(RI(false, MovRI, dst, imm))]
    else [Plain(LoadImm(dst, imm))]
  }

  function ShiftCode(w: Width, op: AluOp, o: Operand, dst: reg, src: reg, imm: i32): seq<Asm>
  {
    if o.Imm? then [Plain(ShI(w.W64?, AluSh(op), dst, imm % 0x100))]
    else [MovReg(src, RCX), Plain(ShCl(w.W64?, AluSh(op), dst))]
  }

  /**
   * Multiplication, division and remainder go through RCX, RAX and RDX; RAX and RDX are saved unless
   * they are the destination. The second operand is the immediate unless that is 0.
   */
  function MulDivMod(i: nat, w: Width, op: AluOp, src: reg, dst: reg, imm: i32): seq<Asm>
  {
    DivGuard(i, w, op, src) + SaveRegs(dst) + [SecondOperand(src, imm), MovReg(dst, RAX)]
    + Compute(w, op) + Deliver(op, dst)
  }

  function DivGuard(i: nat, w: Width, op: AluOp, src: reg): seq<Asm>
  {
    if op.Mul? then []
    else [Plain(LoadImm(RCX, i % TWO16)), Plain(RR(w.W64?, TestRR, src, src)), JccTo(CcE, ToDivByZero)]
  }

  function SaveRegs(dst: reg): seq<Asm>
  {
    (if dst != RAX then [Plain(Push(RAX))] else []) + (if dst != RDX then [Plain(Push(RDX))] else [])
  }

  function SecondOperand(src: reg, imm: i32): Asm
  {
    if imm != 0 then Plain(LoadImm(RCX, imm)) else MovReg(src, RCX)
  }

  function Compute(w: Width, op: AluOp): seq<Asm>
  {
    if op.Mul? then [Plain(Un(w.W64?, MulR, RCX))]
    else [Plain(RR(false, XorRR, RDX, RDX)), Plain(Un(w.W64?, DivR, RCX))]
  }

  function Deliver(op: AluOp, dst: reg): seq<Asm>
  {
    (if dst != RDX then (if op.Mod? then [MovReg(RDX, dst)] else []) + [Plain(Pop(RDX))] else [])
    + (if dst != RAX then (if op.Mod? then [] else [MovReg(RAX, dst)]) + [Plain(Pop(RAX))] else [])
  }

  function EndCode(big: bool, dst: reg, imm: i32): seq<Asm>
  {
    if !big then []
    else if imm == 16 then [Plain(Rol16(dst, 8)), Plain(RI(false, AndRI, dst, 0xffff))]
    else if imm == 32 || imm == 64 then [Plain(Bswap(imm == 64, dst))]
    else []
  }

  function CondCc(c: Cond): CC
  {
    match c
    case Eq => CcE case Gt => CcA case Ge => CcAe case Lt => CcB case Le => CcBe
    case Set => CcNe case Ne => CcNe case Sgt => CcG case Sge => CcGe case Slt => CcL case Sle => CcLe
  }

  function CompareOf(c: Cond, o: Operand, dst: reg, src: reg, imm: i32): X
  {
    if c.Set? then
      if o.Imm? then RI(true, TestRI, dst, imm) else RR(true, TestRR, src, dst)
    else
      if o.Imm? then RI(true, CmpRI, dst, imm) else RR(true, CmpRR, src, dst)
  }

  function JumpCode(c: Cond, o: Operand, dst: reg, src: reg, imm: i32, t: Target): seq<Asm>
  {
    [Plain(CompareOf(c, o, dst, src, imm)), JccTo(CondCc(c), t)]
  }

  /** An address as the signed 64-bit constant the generator loads. */
  function CallCode(target: u64): seq<Asm>
  {
    [Plain(LoadImm(RAX, Signed64(target))), Plain(CallRax)]
  }

  /** A helper call; after the one that may unwind the stack, a zero result leaves the program. */
  function HelperCode(target: u64, unwind: bool): seq<Asm>
  {
    [MovReg(R9, RCX)] + CallCode(target)
    + (if unwind then [Plain(RI(true, CmpRI, MapRegister(0), 0)), JccTo(CcE, ToExit)] else [])
  }

  /** The target slot, computed in unsigned 32-bit arithmetic; validated programs keep it below 2^16. */
  function SlotTarget(i: nat, offset: i16): Target { ToSlot((i + offset + 1) % TWO16) }

  /** The code for the instruction in slot `i`. */
  function Code(p: Source, i: nat): seq<Asm>
    requires i < |p.insts|
  {
    var inst := p.insts[i];
    var dst, src := MapRegister(inst.dst), MapRegister(inst.src);
    match DecodeOp(inst.opcode)
    case None => []
    case Some(op) => OpCode(p, i, inst, op, dst, src)
  }

  function OpCode(p: Source, i: nat, inst: Inst, op: Op, dst: reg, src: reg): seq<Asm>
    requires i < |p.insts|
  {
    match op
    case Alu(w, a, o) => AluCode(i, w, a, o, dst, src, inst.imm)
    case Neg(w) => [Plain(Un(w.W64?, NegR, dst))]
    case End(big) => EndCode(big, dst, inst.imm)
    case Ldx(sz) => [Plain(Ld(sz, src, dst, inst.offset))]
    case St(sz) => [Plain(StrI(sz, dst, inst.offset, StoreBits(sz, inst.imm)))]
    case Stx(sz) => [Plain(Str(sz, src, dst, inst.offset))]
    case Lddw =>
      if i + 1 >= |p.insts| then [] else [Plain(LoadImm(dst, Signed64(LddwBits(inst.imm, p.insts[i + 1].imm))))]
    case Ja => [JmpTo(SlotTarget(i, inst.offset))]
    case Jmp(c, o) => JumpCode(c, o, dst, src, inst.imm, SlotTarget(i, inst.offset))
    case Exit => if i == |p.insts| - 1 then [] else [JmpTo(ToExit)]
    case Call =>
      if !(0 <= inst.imm < |p.extFuncs|) then []
      else
        HelperCode(p.extFuncs[inst.imm], inst.imm == p.unwindIndex)
  }

  /** The immediate bytes of a store: as many low bytes as the operand has. */
  function StoreBits(sz: Size, imm: i32): u32
  {
    match sz
    case S8 => imm % 0x100
    case S16 => imm % TWO16
    case _ => Low32(imm)
  }

  function LddwBits(lo: i32, hi: i32): u64 { Low32(lo) + TWO32 * Low32(hi) }

  // ----- the code around the program -----

  function Pushes(rs: seq<reg>): seq<Asm>
  {
    if rs == [] then [] else [Plain(Push(rs[0]))] + Pushes(rs[1..])
  }

  function Pops(rs: seq<reg>): seq<Asm>
  {
    if rs == [] then [] else Pops(rs[1..]) + [Plain(Pop(rs[0]))]
  }

  /** Save registers, make the frame pointer, allocate the program's stack. */
  function Prologue(): seq<Asm>
  {
    Pushes(NONVOLATILE) + [MovReg(RSP, MapRegister(10)), Plain(RI(true, SubRI, RSP, STACK_SIZE))]
  }

  function Epilogue(): seq<Asm>
  {
    [Plain(RI(true, AddRI, RSP, STACK_SIZE))] + Pops(NONVOLATILE) + [Plain(Ret)]
  }

  /** Report the division by zero and leave with -1; the slot number is in RCX. */
  function DivHandler(p: Source): seq<Asm>
  {
    [MovReg(RCX, RDX), LeaString(RSI, 0), Plain(LoadImm(RDI, Signed64(p.stderr)))]
    + CallCode(p.errorPrintf)
    + [Plain(LoadImm(MapRegister(0), -1)), JmpTo(ToExit)]
  }
}
