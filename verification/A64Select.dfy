/** Instruction selection of the AArch64 code generator: the code for one eBPF instruction, jumps still symbolic. */
module A64Select {
  import opened Words
  import opened Ebpf
  import opened A64
  import opened A64Moves
  import S = Select

  const RZ: areg := 31
  const SP: areg := 31
  const TEMP: areg := 24
  const TEMP_DIV: areg := 25
  const OFFSET: areg := 26
  const PC_REGISTER: areg := 2

  /** The A64 register that holds each eBPF register. */
  const REGISTER_MAP: seq<areg> := [5, 0, 1, 2, 3, 4, 19, 20, 21, 22, 23]

  function MapRegister(r: nat): areg { REGISTER_MAP[r % 11] }

  const EQ: nibble := 0
  const NE: nibble := 1
  const HS: nibble := 2
  const LO: nibble := 3
  const HI: nibble := 8
  const LS: nibble := 9
  const GE: nibble := 10
  const LT: nibble := 11
  const GT: nibble := 12
  const LE: nibble := 13

  /** An instruction, a jump whose place is not known yet, or the load of an address, recorded with the address. */
  datatype Item =
    | Do(a: A)
    | To(target: S.Target)
    | If(cond: nibble, target: S.Target)
    | Address(rd: areg, value: u64)

  function Lift(code: seq<A>): (items: seq<Item>)
    ensures |items| == |code| && forall i :: 0 <= i < |code| ==> items[i] == Do(code[i])
  {
    seq(|code|, i requires 0 <= i < |code| => Do(code[i]))
  }

  // ----- which immediates are put in a register first -----

  predicate IsImmOp(op: Op)
  {
    match op
    case Alu(_, _, o) => o.Imm?
    case Jmp(_, o) => o.Imm?
    case St(_) => true
    case _ => false
  }

  predicate IsAlu64(op: Op)
  {
    match op
    case Alu(w, _, _) => w.W64?
    case Neg(w) => w.W64?
    case Ja => true
    case Jmp(_, _) => true
    case Call => true
    case Exit => true
    case _ => false
  }

  /** An immediate the instruction itself can hold. */
  predicate IsSimpleImm(op: Op, imm: i32)
  {
    match op
    case Alu(_, a, _) => if a.Add? || a.Sub? then 0 <= imm < 0x1000 else a.Mov?
    case Jmp(c, _) => !c.Set? && 0 <= imm < 0x1000
    case _ => false
  }

  predicate ThroughTemp(op: Op, imm: i32) { IsImmOp(op) && !IsSimpleImm(op, imm) }

  // ----- operations -----

  function LogicFor(a: AluOp): LogicOp { if a.Or? then ORR else if a.And? then AND else EOR }

  function ShiftFor(a: AluOp): ShiftOp { if a.Lsh? then LSLV else if a.Rsh? then LSRV else ASRV }

  function CondFor(c: Cond): nibble
  {
    match c
    case Eq => EQ case Gt => HI case Ge => HS case Lt => LO case Le => LS
    case Set => NE case Ne => NE case Sgt => GT case Sge => GE case Slt => LT case Sle => LE
  }

  /** The sequence for division and remainder; the branch over the handler skips one move and one jump. */
  function DivmodCode(pc: u16, mod: bool, sf: bool, rd: areg, rn: areg, rm: areg): seq<Item>
  {
    [Do(Cbnz(sf, 3, rm))] + Lift(MoveCode(true, PC_REGISTER, pc)) + [To(S.ToDivByZero)]
    + [Do(Udiv(sf, if mod then TEMP_DIV else rd, rn, rm))] + (if mod then [Do(Msub(sf, rd, rm, TEMP_DIV, rn))] else [])
  }

  /** The one instruction of an operation other than division. */
  function AluIns(sf: bool, a: AluOp, dst: areg, src: areg): A
  {
    match a
    case Add => SumReg(sf, ADD, dst, dst, src)
    case Sub => SumReg(sf, SUB, dst, dst, src)
    case Mul => Madd(sf, dst, dst, src, RZ)
    case Mov => LogicReg(sf, ORR, dst, RZ, src)
    case Or => LogicReg(sf, LogicFor(a), dst, dst, src)
    case And => LogicReg(sf, LogicFor(a), dst, dst, src)
    case Xor => LogicReg(sf, LogicFor(a), dst, dst, src)
    case _ => ShiftReg(sf, ShiftFor(a), dst, dst, src)
  }

  /** An arithmetic instruction whose second operand is in a register. */
  function RegisterForm(pc: u16, sf: bool, a: AluOp, dst: areg, src: areg): seq<Item>
  {
    if a.Div? || a.Mod? then DivmodCode(pc, a.Mod?, sf, dst, dst, src) else [Do(AluIns(sf, a, dst, src))]
  }

  /** An arithmetic instruction that holds its immediate. */
  function SimpleForm(sf: bool, a: AluOp, dst: areg, imm: i32): seq<Item>
    requires IsSimpleImm(Alu(if sf then W64 else W32, a, Imm), imm)
  {
    if a.Mov? then Lift(MoveCode(sf, dst, Wrap64(imm)))
    else [Do(SumImm(sf, if a.Add? then ADD else SUB, dst, dst, imm))]
  }

  function EndCode(big: bool, dst: areg, imm: i32): seq<Item>
  {
    (if !big then []
     else if imm == 16 then [Do(Rev(S16, dst, dst))]
     else if imm == 32 then [Do(Rev(S32, dst, dst))]
     else if imm == 64 then [Do(Rev(S64, dst, dst))]
     else [])
    + (if imm == 16 then [Do(Uxth(dst, dst))] else [])
  }

  /** A load or store; offsets of more than 9 bits go through a register. */
  function MemCode(load: bool, sz: Size, rt: areg, rn: areg, offset: i16): seq<Item>
  {
    if -256 <= offset < 256 then [Do(MemImm(load, sz, rt, rn, offset % 0x200))]
    else Lift(MoveCode(true, OFFSET, Wrap64(offset))) + [Do(MemReg(load, sz, rt, rn, OFFSET))]
  }

  function CompareFor(c: Cond, simple: bool, dst: areg, src: areg, imm: i32): A
    requires simple ==> 0 <= imm < 0x1000
  {
    if simple then SumImm(true, SUBS, RZ, dst, imm)
    else if c.Set? then LogicReg(true, ANDS, RZ, dst, src)
    else SumReg(true, SUBS, RZ, dst, src)
  }

  function CallCode(target: u64): seq<Item>
  {
    Lift(MoveCode(true, TEMP, target)) + [Do(Blr(TEMP)), Do(LogicReg(true, ORR, MapRegister(0), RZ, 0))]
  }

  function HelperCode(target: u64, unwind: bool): seq<Item>
  {
    CallCode(target)
    + (if unwind then [Do(SumImm(true, SUBS, RZ, MapRegister(0), 0)), If(EQ, S.ToExit)] else [])
  }

  /** The move of an immediate that the instruction cannot hold. */
  function PrefixCode(op: Op, imm: i32): seq<Item>
  {
    if ThroughTemp(op, imm) then Lift(MoveCode(IsAlu64(op), TEMP, Wrap64(imm))) else []
  }

  function OpCode(p: S.Source, i: nat, inst: Inst, op: Op, dst: areg, src: areg): seq<Item>
    requires i < |p.insts|
  {
    var imm := inst.imm;
    match op
    case Alu(w, a, o) =>
      if o.Imm? && IsSimpleImm(op, imm) then SimpleForm(w.W64?, a, dst, imm)
        else RegisterForm(i % TWO16, w.W64?, a, dst, src)
    case Neg(w) => [Do(SumReg(w.W64?, SUB, dst, RZ, src))]
    case End(big) => EndCode(big, dst, imm)
    case Ldx(sz) => MemCode(true, sz, dst, src, inst.offset)
    case St(sz) => MemCode(false, sz, src, dst, inst.offset)
    case Stx(sz) => MemCode(false, sz, src, dst, inst.offset)
    case Lddw =>
      if i + 1 >= |p.insts| then [] else Lift(MoveCode(true, dst, S.LddwBits(imm, p.insts[i + 1].imm)))
    case Ja => [To(S.SlotTarget(i, inst.offset))]
    case Jmp(c, o) =>
      [Do(CompareFor(c, o.Imm? && IsSimpleImm(op, imm), dst, src, imm)), If(CondFor(c), S.SlotTarget(i, inst.offset))]
    case Exit => if i == |p.insts| - 1 then [] else [To(S.ToExit)]
    case Call => if !(0 <= imm < |p.extFuncs|) then [] else HelperCode(p.extFuncs[imm], imm == p.unwindIndex)
  }

  /** The register of the second operand. */
  function SourceRegister(inst: Inst, op: Op): areg
  {
    if ThroughTemp(op, inst.imm) then TEMP else MapRegister(inst.src)
  }

  /** The code for the instruction in slot `i`. */
  function Code(p: S.Source, i: nat): seq<Item>
    requires i < |p.insts|
  {
    var inst := p.insts[i];
    match DecodeOp(inst.opcode)
    case None => []
    case Some(op) => PrefixCode(op, inst.imm) + OpCode(p, i, inst, op, MapRegister(inst.dst), SourceRegister(inst, op))
  }

  // ----- the code around the program -----

  /** The program's stack, eight callee-saved registers, the frame pointer and the link register. */
  const FRAME_SIZE := 592

  const FP: areg := 29
  const LR: areg := 30

  /** The saved registers, in the order of their places from the stack pointer upwards. */
  const SAVED: seq<areg> := [29, 30, 19, 20, 21, 22, 23, 24, 25, 26]

  /** Save or restore pair `i` of the saved registers. */
  function SavedPair(load: bool, i: nat): (item: Item)
    requires i < 5
    ensures item.Do? && item.a.Pair?
  {
    Do(Pair(load, SAVED[2 * i], SAVED[2 * i + 1], SP, 2 * i))
  }

  function SavedPairs(load: bool, i: nat): (items: seq<Item>)
    requires i <= 5
    ensures |items| == 5 - i && forall k :: 0 <= k < 5 - i ==> items[k] == SavedPair(load, i + k)
    decreases 5 - i
  {
    if i == 5 then [] else [SavedPair(load, i)] + SavedPairs(load, i + 1)
  }

  function Prologue(): seq<Item>
  {
    [Do(SumImm(true, SUB, SP, SP, FRAME_SIZE)), SavedPair(false, 0), Do(SumImm(true, ADD, FP, SP, 0))]
    + SavedPairs(false, 1) + [Do(SumImm(true, ADD, MapRegister(10), SP, FRAME_SIZE))]
  }

  /** All of the epilogue but the return. */
  function Epilogue(): seq<Item>
  {
    [Do(LogicReg(true, ORR, 0, RZ, MapRegister(0)))] + SavedPairs(true, 1)
    + [SavedPair(true, 0), Do(SumImm(true, ADD, SP, SP, FRAME_SIZE))]
  }

  /** Report the division by zero and leave with -1; `str` is the address of the message. */
  function DivHandler(p: S.Source, str: u64): seq<Item>
  {
    [Address(1, str)] + Lift(MoveCode(true, 0, p.stderr)) + CallCode(p.errorPrintf)
    + Lift(MoveCode(true, MapRegister(0), TWO64 - 1)) + [To(S.ToExit)]
  }
}
