/**
 * The code selected for an instruction does what the interpreter does: what relates the two states, where exactly the
 * two agree, and the arithmetic instructions that need no condition.
 */
module Simulation {
  import opened Words
  import opened Ebpf
  import opened Memory
  import opened X86
  import opened X86Exec
  import opened Select
  import opened Blocks
  import I = Interp
  import V = Validator

  type IRegs = I.Regs

  /**
   * What stays fixed while generated code runs: the stack pointer at instruction boundaries, the 40 bytes
   * of saved registers above the program's stack, and the addresses that belong to the program.
   */
  datatype Frame = Frame(sp: u64, saved: seq<byte>, dom: set<int>)

  predicate FrameOk(f: Frame)
  {
    && |f.saved| == 40 && 16 <= f.sp && f.sp + STACK_SIZE + 40 < TWO64
    && forall a :: a in f.dom ==> !(f.sp - 16 <= a < f.sp) && !(f.sp + STACK_SIZE <= a < f.sp + STACK_SIZE + 40)
  }

  /** Each eBPF register is held in the x86 register it is mapped to. */
  predicate RegsRel(r: IRegs, x: Regs)
  {
    forall i :: 0 <= i <= 10 ==> x[REGISTER_MAP[i]] == r[i]
  }

  /**
   * The machine's memory holds the program's memory, the saved registers and two free slots below the stack pointer.
   */
  predicate MemRel(f: Frame, m: Mem, x: XState)
  {
    && x.regs[RSP] == f.sp && m.Keys == f.dom && Contains(x.mem, m)
    && Mapped(x.mem, f.sp - 16, 16)
    && |f.saved| == 40
    && forall a {:trigger x.mem[a]} {:trigger a in x.mem} :: f.sp + STACK_SIZE <= a < f.sp + STACK_SIZE + 40 ==>
         a in x.mem && x.mem[a] == f.saved[a - (f.sp + STACK_SIZE)]
  }

  lemma MapValues()
    ensures |REGISTER_MAP| == 11
    ensures REGISTER_MAP[0] == RAX && REGISTER_MAP[1] == RDI && REGISTER_MAP[2] == RSI && REGISTER_MAP[3] == RDX
    ensures REGISTER_MAP[4] == R9 && REGISTER_MAP[5] == R8 && REGISTER_MAP[6] == RBX && REGISTER_MAP[7] == R13
    ensures REGISTER_MAP[8] == R14 && REGISTER_MAP[9] == R15 && REGISTER_MAP[10] == RBP
  {
  }

  /**
   * The map is injective and avoids the scratch register, the stack pointer and base registers that need a SIB byte.
   */
  lemma MapFacts()
    ensures forall i, j :: 0 <= i < j <= 10 ==> REGISTER_MAP[i] != REGISTER_MAP[j]
    ensures forall i :: 0 <= i <= 10 ==> REGISTER_MAP[i] != RCX && REGISTER_MAP[i] != RSP && REGISTER_MAP[i] % 8 != 4
  {
    MapValues();
    forall i | 0 <= i <= 10
      ensures REGISTER_MAP[i] != RCX && REGISTER_MAP[i] != RSP && REGISTER_MAP[i] % 8 != 4
      ensures forall j :: i < j <= 10 ==> REGISTER_MAP[i] != REGISTER_MAP[j]
    {
      MapFact(i);
    }
  }

  lemma MapFact(i: nat)
    requires i <= 10
    ensures REGISTER_MAP[i] != RCX && REGISTER_MAP[i] != RSP && REGISTER_MAP[i] % 8 != 4
    ensures forall j :: i < j <= 10 ==> REGISTER_MAP[i] != REGISTER_MAP[j]
  {
    MapValues();
    forall j | i < j <= 10 ensures REGISTER_MAP[i] != REGISTER_MAP[j] {
      if i < 5 {
        assert i in {0, 1, 2, 3, 4};
      }
    }
  }

  /** The machine state when the program's registers are `r`, up to the scratch register, and its memory is `m`. */
  ghost predicate Holding(f: Frame, r: IRegs, m: Mem, x: XState)
  {
    RegsRel(r, x.regs) && MemRel(f, m, x)
  }

  lemma RegsAfterSet(r: IRegs, x: Regs, d: nat, v: u64, c: u64)
    requires RegsRel(r, x) && d <= 10
    ensures RegsRel(r[d := v], x[RCX := c][REGISTER_MAP[d] := v])
  {
    MapFacts();
    var y := x[RCX := c][REGISTER_MAP[d] := v];
    forall i | 0 <= i <= 10 ensures y[REGISTER_MAP[i]] == r[d := v][i] {
      assert REGISTER_MAP[i] != RCX;
      if i != d {
        assert REGISTER_MAP[i] != REGISTER_MAP[d];
      }
    }
  }

  lemma MemAfterScratch(f: Frame, m: Mem, x: XState, y: XState)
    requires FrameOk(f) && MemRel(f, m, x) && SameButScratch(x.mem, y.mem, f.sp) && y.regs[RSP] == f.sp
    ensures MemRel(f, m, y)
  {
    assert forall a :: a in m ==> a in f.dom;
  }

  /** The result register is set; only the scratch register and the scratch memory may differ otherwise. */
  lemma HoldingAfterSet(f: Frame, r: IRegs, m: Mem, x: XState, y: XState, d: nat, v: u64)
    requires FrameOk(f) && Holding(f, r, m, x) && d <= 10
    requires y.regs == x.regs[RCX := y.regs[RCX]][REGISTER_MAP[d] := v] && SameButScratch(x.mem, y.mem, f.sp)
    ensures Holding(f, r[d := v], m, y)
  {
    RegsAfterSet(r, x.regs, d, v, y.regs[RCX]);
    MapFacts();
    assert y.regs[RSP] == f.sp;
    MemAfterScratch(f, m, x, y);
  }

  /**
   * How the end of a block answers the outcome of a step at slot `pc` of an n-slot program. A division by zero is left
   * to the handler; a refused access must return the -1 that the interpreter's caller sees.
   */
  ghost predicate Matches(f: Frame, insts: seq<Inst>, pc: nat, o: I.Outcome, b: BlockEnd)
    requires pc < |insts|
  {
    match o
    case Next(s) =>
      && ((b.Fall? && s.pc == V.After(insts, pc)) || (b.Goto? && b.target == ToSlot(s.pc) && s.pc < |insts|))
      && Holding(f, s.regs, s.mem, b.st)
    case Returned(v, m) =>
      && ((b.Fall? && pc == |insts| - 1) || (b.Goto? && b.target == ToExit))
      && b.st.regs[RAX] == v && MemRel(f, m, b.st)
    case DivideByZero(_, m) => b.Goto? && b.target == ToDivByZero && MemRel(f, m, b.st)
    case OutOfBounds(_, m) => b.Goto? && b.target == ToExit && b.st.regs[RAX] == TWO64 - 1 && MemRel(f, m, b.st)
    case Undefined => true
  }

  /**
   * Where generated code and interpreter compute the same, if the access of a load or store is allowed. The differences
   * are real: a multiplication or division takes its operand from the source register exactly when its immediate is 0,
   * and tests the source register for zero even when it does not use it; a 32-bit register move copies 64 bits; a
   * 32-bit left shift masks its amount to 5 bits; a little-endian conversion emits nothing; an unsigned comparison
   * sign-extends its immediate.
   */
  predicate Agrees(inst: Inst, op: Op, r: IRegs)
  {
    var dst, src, imm := r[inst.dst], r[inst.src], inst.imm;
    match op
    case Alu(w, Mul, o) => (o.Imm? <==> imm != 0) || Narrow(w.W64?, dst * src) == Narrow(w.W64?, dst * Wrap64(imm))
    case Alu(w, Div, o) => DivAgrees(w, Div, o, dst, src, imm)
    case Alu(w, Mod, o) => DivAgrees(w, Mod, o, dst, src, imm)
    case Alu(W32, Mov, Reg) => src < TWO32
    case Alu(W32, Lsh, o) =>
      var n := I.ShiftAmount(o, src, imm);
      32 <= n < 64 ==> dst % Pow2(64 - n) == 0
    case End(false) => (imm == 32 ==> dst < TWO32) && (imm == 16 ==> dst < TWO16)
    case Jmp(c, Imm) => imm >= 0 || inst.offset == 0 || !BetweenExtensions(c, dst, imm)
    case _ => true
  }

  /** The source register is not zero; and in register form the immediate is not used, or makes no difference. */
  predicate DivAgrees(w: Width, a: AluOp, o: Operand, dst: u64, src: u64, imm: i32)
  {
    var x, y, z := Narrow(w.W64?, dst), Narrow(w.W64?, src), Narrow(w.W64?, Wrap64(imm));
    if o.Imm? then y != 0
    else imm == 0 || y == 0 || (z != 0 && MulDivResult(w, a, x, y) == MulDivResult(w, a, x, z))
  }

  /** Zero extension and sign extension of a negative immediate fall on different sides of `dst`. */
  predicate BetweenExtensions(c: Cond, dst: u64, imm: i32)
  {
    match c
    case Gt => Low32(imm) < dst <= Wrap64(imm)
    case Le => Low32(imm) < dst <= Wrap64(imm)
    case Ge => Low32(imm) <= dst < Wrap64(imm)
    case Lt => Low32(imm) <= dst < Wrap64(imm)
    case _ => false
  }

  /** The interpreter does not refuse the access of a load or store. Neither code generator emits a bounds check. */
  predicate Allowed(vm: I.Vm, ctx: I.Ctx, inst: Inst, op: Op, r: IRegs)
  {
    match op
    case Ldx(sz) => I.InBounds(vm, ctx, Wrap64(r[inst.src] + inst.offset), SizeBytes(sz))
    case St(sz) => I.InBounds(vm, ctx, Wrap64(r[inst.dst] + inst.offset), SizeBytes(sz))
    case Stx(sz) => I.InBounds(vm, ctx, Wrap64(r[inst.dst] + inst.offset), SizeBytes(sz))
    case _ => true
  }

  // ----- values -----

  lemma NarrowTwice(wide: bool, v: int)
    ensures Narrow(wide, Narrow(wide, v)) == Narrow(wide, v)
    ensures Narrow(wide, Wrap64(v)) == Narrow(wide, v)
  {
  }

  lemma BitwiseNarrow(op: BitOp, wide: bool, a: u64, b: u64)
    ensures Narrow(wide, Bitwise(op, Narrow(wide, a), Narrow(wide, b))) == Narrow(wide, Bitwise(op, a, b))
  {
    hide Bitwise;
    if wide {
      assert Narrow(true, a) == a && Narrow(true, b) == b;
    } else {
      Bitwise64(op, a, b);
      NarrowTwice(false, Bitwise(op, a, b));
    }
  }

  lemma AddSubNarrow(wide: bool, a: u64, b: u64)
    ensures Narrow(wide, Narrow(wide, a) + Narrow(wide, b)) == Narrow(wide, a + b)
    ensures Narrow(wide, Narrow(wide, a) - Narrow(wide, b)) == Narrow(wide, a - b)
  {
    if wide {
      assert Narrow(true, a) == a && Narrow(true, b) == b;
    } else {
      var x, y, p, q := a % TWO32, b % TWO32, a / TWO32, b / TWO32;
      Congruent32(a + b, x + y, p + q);
      Congruent32(a - b, x - y, p - q);
    }
  }

  lemma Congruent32(x: int, y: int, k: int)
    requires x == y + k * TWO32
    ensures x % TWO32 == y % TWO32
  {
  }

  predicate IsBasic(a: AluOp) { a.Add? || a.Sub? || a.Or? || a.And? || a.Xor? }

  /** Cutting the operands to 32 bits before the operation instead of the result after it makes no difference. */
  lemma BasicValue(w: Width, a: AluOp, o: Operand, st: XState, d: reg, dst: u64, src: u64, imm: i32)
    requires IsBasic(a)
    ensures var b := if o.Imm? then Wrap64(imm) else src;
      var y := Binary(w.W64?, AluRR(a), st, d, Narrow(w.W64?, dst), Narrow(w.W64?, b));
      && I.AluSem(w, a, o, dst, src, imm) == I.Value(y.regs[d]) && y == SetReg(st, d, y.regs[d])
  {
    hide Bitwise;
    var b := if o.Imm? then Wrap64(imm) else src;
    assert forall v: int :: I.Truncated(w, v) == I.Value(Narrow(w.W64?, v));
    hide Narrow, I.Truncated, Wrap64;
    match a
    case Add => AddSubNarrow(w.W64?, dst, b);
    case Sub => AddSubNarrow(w.W64?, dst, b);
    case Or => BitwiseNarrow(BitOr, w.W64?, dst, b);
    case And => BitwiseNarrow(BitAnd, w.W64?, dst, b);
    case Xor => BitwiseNarrow(BitXor, w.W64?, dst, b);
  }

  lemma ShiftMask(n: nat, m: nat)
    requires n < m && (m == 32 || m == 64)
    ensures n % m == n && n % 0x100 == n
  {
  }

  predicate IsShift(a: AluOp) { a.Lsh? || a.Rsh? || a.Arsh? }

  /** The shift amount the hardware uses: the low byte of the immediate or of the source register. */
  lemma ShiftValue(w: Width, a: AluOp, o: Operand, dst: u64, src: u64, imm: i32)
    requires IsShift(a) && I.AluSem(w, a, o, dst, src, imm).Value?
    requires w.W32? && a.Lsh? ==> I.ShiftAmount(o, src, imm) < 32
    ensures var n := if o.Imm? then imm % 0x100 else src % 0x100;
      I.AluSem(w, a, o, dst, src, imm) == I.Value(Shift(w.W64?, AluSh(a), Narrow(w.W64?, dst), n))
  {
    hide I.ShlSem, I.ShrSem, I.SarSem, Shift;
    var n := if a.Arsh? && w.W32? && o.Reg? then Low32(src) else I.ShiftAmount(o, src, imm);
    ShiftAmountInRange(w, a, o, dst, src, imm);
    var m := if w.W32? then 32 else 64;
    ShiftMask(n, m);
    if o.Reg? {
      LowByte(src);
    }
    ShiftBy(w, a, dst, n, if o.Imm? then imm % 0x100 else src % 0x100);
  }

  lemma ShiftBy(w: Width, a: AluOp, dst: u64, n: nat, c: nat)
    requires IsShift(a) && n < (if w.W32? then 32 else 64) && c % (if w.W32? then 32 else 64) == n
    ensures I.Value(Shift(w.W64?, AluSh(a), Narrow(w.W64?, dst), c)) ==
      match a
      case Lsh => I.ShlSem(w, dst, n)
      case Rsh => I.ShrSem(w, dst, n)
      case _ => I.SarSem(w, dst, n)
  {
    hide Pow2;
    if a.Lsh? {
      ShlLow32(dst, n);
    } else if a.Rsh? {
      assert Narrow(true, dst) == dst;
    } else {
      assert SignOf(w.W64?, Narrow(w.W64?, dst)) == if w.W32? then Signed32(Low32(dst)) else Signed64(dst);
      hide SignOf, Signed32, Signed64;
    }
  }

  /** A defined shift has an amount below the operand width (left shifts of 32 bits are limited separately). */
  lemma ShiftAmountInRange(w: Width, a: AluOp, o: Operand, dst: u64, src: u64, imm: i32)
    requires IsShift(a) && I.AluSem(w, a, o, dst, src, imm).Value?
    requires w.W32? && a.Lsh? ==> I.ShiftAmount(o, src, imm) < 32
    ensures var n := if a.Arsh? && w.W32? && o.Reg? then Low32(src) else I.ShiftAmount(o, src, imm);
      0 <= n < if w.W32? then 32 else 64
  {
    hide Pow2;
  }

  lemma LowByte(v: u64)
    ensures v % 0x100 == Low32(v) % 0x100
  {
  }

  lemma ShlLow32(v: u64, n: nat)
    ensures Low32(v * Pow2(n)) == Low32(Low32(v) * Pow2(n))
  {
    MulLow32Left(v, Pow2(n));
  }

  lemma MulValue(w: Width, a: u64, b: u64)
    ensures Narrow(w.W64?, Narrow(w.W64?, a) * Narrow(w.W64?, b)) == Narrow(w.W64?, a * b)
  {
    if w.W32? {
      MulLow32(a, b);
    } else {
      assert Narrow(true, a) == a && Narrow(true, b) == b;
    }
  }

  lemma NarrowSmall(w: Width, v: u64)
    requires w.W32? ==> v < TWO32
    ensures Narrow(w.W64?, v) == v
  {
  }

  lemma DivValue(w: Width, a: u64, b: u64)
    requires Narrow(w.W64?, b) != 0
    ensures var x, y := Narrow(w.W64?, a), Narrow(w.W64?, b);
      Narrow(w.W64?, x / y) == x / y && Narrow(w.W64?, x % y) == x % y
  {
    var x, y := Narrow(w.W64?, a), Narrow(w.W64?, b);
    DivSmall(x, y);
    NarrowSmall(w, x / y);
    NarrowSmall(w, x % y);
  }

  // ----- one lemma per kind of instruction -----

  /** The facts a step starts from. */
  ghost predicate Start(f: Frame, insts: seq<Inst>, s: I.State, x: XState, inst: Inst, op: Op)
  {
    && FrameOk(f) && Holding(f, s.regs, s.mem, x) && |insts| < MAX_INSTS
    && s.pc < |insts| && insts[s.pc] == inst && inst.dst <= 10 && inst.src <= 10
    && V.After(insts, s.pc) == (if op.Lddw? then s.pc + 2 else s.pc + 1)
    && (op.Ja? || op.Jmp? ==> 0 <= s.pc + 1 + inst.offset < |insts|)
  }

  lemma Operands(f: Frame, insts: seq<Inst>, s: I.State, x: XState, inst: Inst, op: Op)
    requires Start(f, insts, s, x, inst, op)
    ensures MapRegister(inst.dst) == REGISTER_MAP[inst.dst] && MapRegister(inst.src) == REGISTER_MAP[inst.src]
    ensures x.regs[MapRegister(inst.dst)] == s.regs[inst.dst] && x.regs[MapRegister(inst.src)] == s.regs[inst.src]
    ensures MapRegister(inst.dst) != RCX && MapRegister(inst.dst) != RSP
    ensures MapRegister(inst.src) != RCX && MapRegister(inst.src) != RSP
    ensures I.Advance(s.pc, 1) == s.pc + 1
    ensures HasScratch(x)
  {
    MapFacts();
    ModSmall(inst.dst);
    ModSmall(inst.src);
  }

  lemma ModSmall(r: nat)
    requires r <= 10
    ensures r % 11 == r
  {
  }

  /** A block that sets the destination and falls through answers a step that sets the destination. */
  lemma MatchesSet(f: Frame, insts: seq<Inst>, s: I.State, x: XState, inst: Inst, op: Op, v: u64, b: BlockEnd)
    requires Start(f, insts, s, x, inst, op) && !op.Lddw?
    requires b.Fall? && b.st.regs == x.regs[RCX := b.st.regs[RCX]][MapRegister(inst.dst) := v]
    requires SameButScratch(x.mem, b.st.mem, f.sp)
    ensures Matches(f, insts, s.pc, I.SetDst(s, inst, v), b)
  {
    Operands(f, insts, s, x, inst, op);
    HoldingAfterSet(f, s.regs, s.mem, x, b.st, inst.dst, v);
  }

  /** The block leaves `u` where the step leaves `v`: it answers the step exactly when they are equal. */
  lemma MatchesSetIff(f: Frame, insts: seq<Inst>, s: I.State, x: XState, inst: Inst, op: Op, v: u64, u: u64,
                      b: BlockEnd)
    requires Start(f, insts, s, x, inst, op) && !op.Lddw?
    requires b.Fall? && b.st.regs == x.regs[RCX := b.st.regs[RCX]][MapRegister(inst.dst) := u]
    requires SameButScratch(x.mem, b.st.mem, f.sp)
    ensures Matches(f, insts, s.pc, I.SetDst(s, inst, v), b) <==> u == v
  {
    if u == v {
      MatchesSet(f, insts, s, x, inst, op, v, b);
    } else {
      Operands(f, insts, s, x, inst, op);
      assert b.st.regs[REGISTER_MAP[inst.dst]] == u && s.regs[inst.dst := v][inst.dst] == v;
    }
  }

  lemma SimBasic(f: Frame, insts: seq<Inst>, s: I.State, x: XState, inst: Inst, w: Width, a: AluOp, o: Operand,
                 ext: External, str: u64)
    requires Start(f, insts, s, x, inst, Alu(w, a, o)) && IsBasic(a)
    ensures Matches(f, insts, s.pc, I.AluStep(s, inst, w, a, o),
                    ExecBlock(Select.AluCode(s.pc, w, a, o, MapRegister(inst.dst), MapRegister(inst.src), inst.imm),
                      ext, str, x))
  {
    hide I.AluSem, Matches, Binary;
    var dst, src := MapRegister(inst.dst), MapRegister(inst.src);
    Operands(f, insts, s, x, inst, Alu(w, a, o));
    hide Start, Holding, HasScratch;
    BasicValue(w, a, o, x, dst, s.regs[inst.dst], s.regs[inst.src], inst.imm);
    NarrowTwice(w.W64?, inst.imm);
    var ins := if o.Imm? then RI(w.W64?, Select.AluRI(a), dst, inst.imm) else RR(w.W64?, AluRR(a), src, dst);
    assert AsRR(Select.AluRI(a)) == AluRR(a);
    ExecOne(ins, ext, str, x);
    var b := ExecBlock([Plain(ins)], ext, str, x);
    assert Select.AluCode(s.pc, w, a, o, dst, src, inst.imm) == [Plain(ins)];
    var v := I.AluSem(w, a, o, s.regs[inst.dst], s.regs[inst.src], inst.imm).v;
    assert b.st == SetReg(x, dst, v);
    MatchesSet(f, insts, s, x, inst, Alu(w, a, o), v, b);
  }
}
