/** The bytecode interpreter `ubpf_exec`: one step, and runs of any length. */
module Interp {
  import opened Words
  import opened Ebpf
  import opened Memory

  type Regs = r: seq<u64> | |r| == 16 witness seq(16, _ => 0)

  /** A loaded virtual machine; a null entry of `extFuncs` is 0. */
  datatype Vm = Vm(insts: seq<Inst>, boundsCheck: bool, extFuncs: seq<u64>, unwindIndex: int)

  /** External code: the function at an address, applied to five arguments and the memory. */
  type Helpers = (u64, seq<u64>, Mem) -> (u64, Mem)

  /** Where the context buffer and the program's stack are. */
  datatype Ctx = Ctx(mem: u64, len: u64, stack: u64)

  datatype State = State(regs: Regs, pc: u16, mem: Mem)

  /** `Undefined` stands for undefined behaviour of the C code and for a fault. */
  datatype Outcome =
    | Next(s: State)
    | Returned(ret: u64, mem: Mem)
    | DivideByZero(pc: u16, mem: Mem)
    | OutOfBounds(pc: u16, mem: Mem)
    | Undefined

  datatype AluResult = Value(v: u64) | DivZero | Ub

  /** The shift amount of a shift by an immediate or a register; C defines it below the promoted width only. */
  function ShiftAmount(o: Operand, src: u64, imm: i32): int { if o.Imm? then imm else src }

  /** `dst` after an arithmetic instruction. */
  function AluSem(w: Width, op: AluOp, o: Operand, dst: u64, src: u64, imm: i32): AluResult
  {
    var b := if o.Imm? then Wrap64(imm) else src;
    match op
    case Add => Truncated(w, dst + b)
    case Sub => Truncated(w, dst - b)
    case Mul => Truncated(w, dst * b)
    case Or => Truncated(w, Bitwise(BitOr, dst, b))
    case And => Truncated(w, Bitwise(BitAnd, dst, b))
    case Xor => Truncated(w, Bitwise(BitXor, dst, b))
    case Mov => Truncated(w, b)
    case Div => if o.Reg? && src == 0 then DivZero else DivSem(w, false, dst, b)
    case Mod => if o.Reg? && src == 0 then DivZero else DivSem(w, true, dst, b)
    case Lsh => ShlSem(w, dst, ShiftAmount(o, src, imm))
    case Rsh => ShrSem(w, dst, ShiftAmount(o, src, imm))
    case Arsh => SarSem(w, dst, if w.W32? && o.Reg? then Low32(src) else ShiftAmount(o, src, imm))
  }

  /** Unsigned quotient or remainder; a divisor whose used half is 0 faults. */
  function DivSem(w: Width, mod: bool, dst: u64, b: u64): AluResult
  {
    var x, d := if w.W32? then Low32(dst) else dst, if w.W32? then Low32(b) else b;
    if d == 0 then Ub
    else if mod then
      Value(x % d)
    else
      DivSmaller(x, d);
      Value(x / d)
  }

  function ShlSem(w: Width, dst: u64, n: int): AluResult
  {
    if 0 <= n < 64 then Truncated(w, dst * Pow2(n)) else Ub
  }

  function ShrSem(w: Width, dst: u64, n: int): AluResult
  {
    if w.W32? then
      if 0 <= n < 32 then
        DivSmaller(Low32(dst), Pow2(n));
        Value(Low32(dst) / Pow2(n))
      else Ub
    else if 0 <= n < 64 then
      DivSmaller(dst, Pow2(n));
      Value(dst / Pow2(n))
    else Ub
  }

  /** Arithmetic shift: the signed value divided, rounding down. */
  function SarSem(w: Width, dst: u64, n: int): AluResult
  {
    if w.W32? then
      if 0 <= n < 32 then Value(Low32(Signed32(Low32(dst)) / Pow2(n))) else Ub
    else if 0 <= n < 64 then Value(Wrap64(Signed64(dst) / Pow2(n))) else Ub
  }

  function Truncated(w: Width, x: int): AluResult
  {
    Value(if w.W32? then Low32(x) else Wrap64(x))
  }

  lemma DivSmaller(x: nat, d: int)
    requires d >= 1
    ensures 0 <= x / d <= x
  {
    if d > 1 {
      assert x / d * d <= x by { assert x == d * (x / d) + x % d; }
      if x / d > x {
        MulLe(x + 1, x / d, d);
        MulLe(1, d, x + 1);
      }
    }
  }

  function NegSem(w: Width, x: u64): u64
  {
    if w.W32? then Low32(0 - x) else Wrap64(0 - x)
  }

  /** Byte order reversal of the low `n` bytes. */
  function ByteSwap(x: u64, n: nat): nat
  {
    FromLe(Reversed(LeBytes(x, n)))
  }

  function Reversed(bs: seq<byte>): (r: seq<byte>)
    ensures |r| == |bs|
  {
    if bs == [] then [] else Reversed(bs[1..]) + [bs[0]]
  }

  lemma {:induction false} ReversedAt(bs: seq<byte>, k: nat)
    requires k < |bs|
    ensures Reversed(bs)[k] == bs[|bs| - 1 - k]
  {
    if k < |bs| - 1 {
      ReversedAt(bs[1..], k);
    }
  }

  /** Conversion to little or big endian on a little-endian host. */
  function EndSem(big: bool, dst: u64, imm: i32): u64
  {
    Pow2Values();
    if imm == 16 then
      FromLeBound(Reversed(LeBytes(dst, 2)));
      if big then ByteSwap(dst, 2) else dst % TWO16
    else if imm == 32 then
      FromLeBound(Reversed(LeBytes(dst, 4)));
      if big then ByteSwap(dst, 4) else Low32(dst)
    else if imm == 64 then
      FromLeBound(Reversed(LeBytes(dst, 8)));
      if big then ByteSwap(dst, 8) else dst
    else dst
  }

  /** Whether a conditional jump is taken. Unsigned comparisons zero-extend an immediate. */
  predicate Taken(c: Cond, o: Operand, dst: u64, src: u64, imm: i32)
  {
    var b := if o.Imm? then Wrap64(imm) else src;
    var unsigned := if o.Imm? then Low32(imm) else src;
    var signed := if o.Imm? then imm else Signed64(src);
    match c
    case Eq => dst == b
    case Ne => dst != b
    case Set => Bitwise(BitAnd, dst, b) != 0
    case Gt => dst > unsigned
    case Ge => dst >= unsigned
    case Lt => dst < unsigned
    case Le => dst <= unsigned
    case Sgt => Signed64(dst) > signed
    case Sge => Signed64(dst) >= signed
    case Slt => Signed64(dst) < signed
    case Sle => Signed64(dst) <= signed
  }

  /** Whether an access of `size` bytes lies in the context buffer or in the stack. */
  predicate InBounds(vm: Vm, ctx: Ctx, addr: u64, size: nat)
  {
    || !vm.boundsCheck
    || (ctx.mem != 0 && addr >= ctx.mem && addr + size <= ctx.mem + ctx.len)
    || (addr >= ctx.stack && addr + size <= ctx.stack + STACK_SIZE)
  }

  /** The program counter is a 16-bit register. */
  function Advance(pc: u16, n: int): u16 { (pc + n) % TWO16 }

  /** One iteration of the interpreter's loop; an opcode no case names is skipped. */
  function Step(vm: Vm, h: Helpers, ctx: Ctx, s: State): Outcome
  {
    if s.pc >= |vm.insts| then Undefined
    else
      var inst := vm.insts[s.pc];
      match DecodeOp(inst.opcode)
      case None => Next(s.(pc := Advance(s.pc, 1)))
      case Some(op) => Execute(vm, h, ctx, s, inst, op)
  }

  function Execute(vm: Vm, h: Helpers, ctx: Ctx, s: State, inst: Inst, op: Op): Outcome
  {
    match op
    case Alu(w, a, o) => AluStep(s, inst, w, a, o)
    case Neg(w) => SetDst(s, inst, NegSem(w, s.regs[inst.dst]))
    case End(big) => SetDst(s, inst, EndSem(big, s.regs[inst.dst], inst.imm))
    case Ldx(sz) => LoadStep(vm, ctx, s, inst, sz)
    case St(sz) => StoreStep(vm, ctx, s, inst, sz, inst.imm)
    case Stx(sz) => StoreStep(vm, ctx, s, inst, sz, s.regs[inst.src])
    case Lddw =>
      if Advance(s.pc, 1) >= |vm.insts| then Undefined
      else
        Next(State(s.regs[inst.dst := LddwValue(inst.imm, vm.insts[Advance(s.pc, 1)].imm)],
                   Advance(Advance(s.pc, 1), 1), s.mem))
    case Ja => Next(s.(pc := Advance(Advance(s.pc, 1), inst.offset)))
    case Jmp(c, o) => JumpStep(s, inst, c, o)
    case Exit => Returned(s.regs[0], s.mem)
    case Call => CallStep(vm, h, s, inst)
  }

  function SetDst(s: State, inst: Inst, v: u64): Outcome
  {
    Next(State(s.regs[inst.dst := v], Advance(s.pc, 1), s.mem))
  }

  function AluStep(s: State, inst: Inst, w: Width, a: AluOp, o: Operand): Outcome
  {
    match AluSem(w, a, o, s.regs[inst.dst], s.regs[inst.src], inst.imm)
    case Value(v) => SetDst(s, inst, v)
    case DivZero => DivideByZero(s.pc, s.mem)
    case Ub => Undefined
  }

  function LoadStep(vm: Vm, ctx: Ctx, s: State, inst: Inst, sz: Size): Outcome
  {
    var a := Wrap64(s.regs[inst.src] + inst.offset);
    if !InBounds(vm, ctx, a, SizeBytes(sz)) then OutOfBounds(s.pc, s.mem)
    else if !Mapped(s.mem, a, SizeBytes(sz)) then Undefined
    else
      LoadIsWord(s.mem, a, sz);
      SetDst(s, inst, Load(s.mem, a, SizeBytes(sz)))
  }

  function StoreStep(vm: Vm, ctx: Ctx, s: State, inst: Inst, sz: Size, v: int): Outcome
  {
    var a := Wrap64(s.regs[inst.dst] + inst.offset);
    if !InBounds(vm, ctx, a, SizeBytes(sz)) then OutOfBounds(s.pc, s.mem)
    else if !Mapped(s.mem, a, SizeBytes(sz)) then Undefined
    else Next(State(s.regs, Advance(s.pc, 1), Store(s.mem, a, SizeBytes(sz), v)))
  }

  function JumpStep(s: State, inst: Inst, c: Cond, o: Operand): Outcome
  {
    if Taken(c, o, s.regs[inst.dst], s.regs[inst.src], inst.imm) then
      Next(s.(pc := Advance(Advance(s.pc, 1), inst.offset)))
    else
      Next(s.(pc := Advance(s.pc, 1)))
  }

  function CallStep(vm: Vm, h: Helpers, s: State, inst: Inst): Outcome
  {
    if !(0 <= inst.imm < |vm.extFuncs|) || vm.extFuncs[inst.imm] == 0 then Undefined
    else
      var (v, m) := h(vm.extFuncs[inst.imm], s.regs[1..6], s.mem);
      if inst.imm == vm.unwindIndex && v == 0 then Returned(0, m)
      else Next(State(s.regs[0 := v], Advance(s.pc, 1), m))
  }

  /** The constant of a two-slot load: low half from the first slot, high half from the second. */
  function LddwValue(lo: i32, hi: i32): u64 { Low32(lo) + TWO32 * Low32(hi) }

  /** At most `fuel` steps; `Next(s)` if the program is still running then. */
  function Run(vm: Vm, h: Helpers, ctx: Ctx, s: State, fuel: nat): Outcome
    decreases fuel
  {
    if fuel == 0 then Next(s)
    else match Step(vm, h, ctx, s)
      case Next(s') => Run(vm, h, ctx, s', fuel - 1)
      case o => o
  }

  /** The registers on entry; those the C code leaves uninitialised come from `garbage`. */
  function Initial(ctx: Ctx, garbage: Regs, mem: Mem): State
  {
    State(garbage[1 := ctx.mem][2 := ctx.len][10 := Wrap64(ctx.stack + STACK_SIZE)], 0, mem)
  }
}
