/**
 * One interpreter step against the AArch64 code selected for it: what relates the two states, where exactly the two
 * agree, and arithmetic in all its forms, division included.
 */
module A64Simulation {
  import opened Words
  import opened Ebpf
  import opened Memory
  import opened A64
  import opened A64Moves
  import opened A64Select
  import opened A64Exec
  import S = Select
  import X = Simulation
  import T = StepSimulation
  import I = Interp
  import V = Validator

  // ----- what relates the machine to the program -----

  /**
   * What stays fixed while the code runs: the program's addresses, the saved registers in memory, the stack pointer.
   */
  datatype Frame = Frame(dom: set<int>, saved: Mem, sp: u64)

  predicate RegsRel(r: I.Regs, x: ARegs)
  {
    forall i :: 0 <= i <= 10 ==> x[REGISTER_MAP[i]] == r[i]
  }

  /** The machine's memory holds the program's memory and, apart from it, the saved registers. */
  ghost predicate MemRel(f: Frame, m: Mem, x: AState)
  {
    x.sp == f.sp && m.Keys == f.dom && f.saved.Keys !! f.dom && Contains(x.mem, f.saved) && Contains(x.mem, m)
  }

  ghost predicate Holding(f: Frame, r: I.Regs, m: Mem, x: AState)
  {
    RegsRel(r, x.regs) && MemRel(f, m, x)
  }

  lemma MapValues()
    ensures |REGISTER_MAP| == 11
    ensures REGISTER_MAP[0] == 5 && REGISTER_MAP[1] == 0 && REGISTER_MAP[2] == 1 && REGISTER_MAP[3] == 2
    ensures REGISTER_MAP[4] == 3 && REGISTER_MAP[5] == 4 && REGISTER_MAP[6] == 19 && REGISTER_MAP[7] == 20
    ensures REGISTER_MAP[8] == 21 && REGISTER_MAP[9] == 22 && REGISTER_MAP[10] == 23
  {
  }

  /** The other registers with a purpose: temporaries, third argument, zero or stack pointer, frame pointer, link. */
  lemma Purposes()
    ensures TEMP == 24 && TEMP_DIV == 25 && OFFSET == 26 && PC_REGISTER == 2
    ensures RZ == 31 && SP == 31 && FP == 29 && LR == 30 && FRAME_SIZE == 512 + 8 * 10
  {
  }

  /** The map is injective and avoids the three temporaries and number 31. */
  lemma MapFacts()
    ensures forall i, j :: 0 <= i < j <= 10 ==> REGISTER_MAP[i] != REGISTER_MAP[j]
    ensures forall i :: 0 <= i <= 10 ==> REGISTER_MAP[i] < TEMP
  {
    MapValues();
    forall i | 0 <= i <= 10
      ensures REGISTER_MAP[i] < TEMP && forall j :: i < j <= 10 ==> REGISTER_MAP[i] != REGISTER_MAP[j]
    {
      MapFact(i);
    }
  }

  lemma MapFact(i: nat)
    requires i <= 10
    ensures REGISTER_MAP[i] < TEMP && forall j :: i < j <= 10 ==> REGISTER_MAP[i] != REGISTER_MAP[j]
  {
    MapValues();
    forall j | i < j <= 10 ensures REGISTER_MAP[i] != REGISTER_MAP[j] {
      if i < 5 {
        assert i in {0, 1, 2, 3, 4};
      }
    }
  }

  /** Two states that differ at most in the temporaries. */
  predicate SameButTemps(x: ARegs, y: ARegs)
  {
    forall i :: 0 <= i < TEMP ==> y[i] == x[i]
  }

  // ----- the outcome of a block -----

  /**
   * How a block answers the outcome of a step at slot `pc` of an n-slot program. A division by zero is left to the
   * handler; a refused access must return the -1 that the interpreter's caller sees.
   */
  ghost predicate Matches(f: Frame, insts: seq<Inst>, pc: nat, o: I.Outcome, b: BlockEnd)
    requires pc < |insts|
  {
    match o
    case Next(s) =>
      && ((b.Fall? && s.pc == V.After(insts, pc)) || (b.Goto? && b.target == S.ToSlot(s.pc) && s.pc < |insts|))
      && Holding(f, s.regs, s.mem, b.st)
    case Returned(v, m) =>
      && ((b.Fall? && pc == |insts| - 1) || (b.Goto? && b.target == S.ToExit))
      && b.st.regs[MapRegister(0)] == v && MemRel(f, m, b.st)
    case DivideByZero(_, m) => b.Goto? && b.target == S.ToDivByZero && MemRel(f, m, b.st)
    case OutOfBounds(_, m) =>
      b.Goto? && b.target == S.ToExit && b.st.regs[MapRegister(0)] == TWO64 - 1 && MemRel(f, m, b.st)
    case Undefined => true
  }

  /** The facts a step starts from. */
  ghost predicate Start(f: Frame, insts: seq<Inst>, s: I.State, x: AState, inst: Inst, op: Op)
  {
    && Holding(f, s.regs, s.mem, x) && |insts| < MAX_INSTS
    && s.pc < |insts| && insts[s.pc] == inst && inst.dst <= 10 && inst.src <= 10
    && V.After(insts, s.pc) == (if op.Lddw? then s.pc + 2 else s.pc + 1)
    && (op.Ja? || op.Jmp? ==> 0 <= s.pc + 1 + inst.offset < |insts|)
  }

  /**
   * Where AArch64 code and interpreter compute the same on an instruction other than a call, if the access of a load or
   * store is allowed. The differences are real: a negation reads the source register; an 8-byte store of an immediate
   * does not sign-extend it; a 32-bit left shift masks its amount to 5 bits; a 32-bit little-endian conversion emits
   * nothing; an unsigned comparison sign-extends its immediate.
   */
  predicate Agrees(inst: Inst, op: Op, r: I.Regs)
  {
    var dst, src, imm := r[inst.dst], r[inst.src], inst.imm;
    match op
    case Alu(W32, Lsh, o) =>
      var n := I.ShiftAmount(o, src, imm);
      32 <= n < 64 ==> dst % Pow2(64 - n) == 0
    case Neg(w) => Narrow(w.W64?, src) == Narrow(w.W64?, dst)
    case End(false) => imm == 32 ==> dst < TWO32
    case St(sz) => sz.S64? ==> imm >= 0
    case Jmp(c, Imm) => imm >= 0 || inst.offset == 0 || !X.BetweenExtensions(c, dst, imm)
    case _ => true
  }

  /** A call leaves its result in the register of r1 too, which the interpreter keeps. */
  predicate CallAgrees(vm: I.Vm, h: I.Helpers, s: I.State, inst: Inst)
  {
    0 <= inst.imm < |vm.extFuncs| ==>
      var v := h(vm.extFuncs[inst.imm], s.regs[1..6], s.mem).0;
      v == s.regs[1] || (inst.imm == vm.unwindIndex && v == 0)
  }

  lemma Operands(f: Frame, insts: seq<Inst>, s: I.State, x: AState, inst: Inst, op: Op)
    requires Start(f, insts, s, x, inst, op)
    ensures MapRegister(inst.dst) == REGISTER_MAP[inst.dst] && MapRegister(inst.src) == REGISTER_MAP[inst.src]
    ensures x.regs[MapRegister(inst.dst)] == s.regs[inst.dst] && x.regs[MapRegister(inst.src)] == s.regs[inst.src]
    ensures MapRegister(inst.dst) < TEMP && MapRegister(inst.src) < TEMP
    ensures I.Advance(s.pc, 1) == s.pc + 1
  {
    MapFacts();
    X.ModSmall(inst.dst);
    X.ModSmall(inst.src);
  }

  lemma HoldingSame(f: Frame, r: I.Regs, m: Mem, x: AState, y: AState)
    requires Holding(f, r, m, x) && SameButTemps(x.regs, y.regs) && y.sp == x.sp && y.mem == x.mem
    ensures Holding(f, r, m, y)
  {
    MapFacts();
  }

  lemma RegsAfterSet(r: I.Regs, x: ARegs, y: ARegs, d: nat, v: u64)
    requires RegsRel(r, x) && d <= 10 && SameButTemps(x[REGISTER_MAP[d] := v], y)
    ensures RegsRel(r[d := v], y)
  {
    MapFacts();
    forall i | 0 <= i <= 10 ensures y[REGISTER_MAP[i]] == r[d := v][i] {
      if i != d {
        assert REGISTER_MAP[i] != REGISTER_MAP[d];
      }
    }
  }

  /** The block leaves `u` where the step leaves `v`: it answers the step exactly when they are equal. */
  lemma MatchesSet(f: Frame, insts: seq<Inst>, s: I.State, x: AState, inst: Inst, op: Op, v: u64, u: u64, b: BlockEnd)
    requires Start(f, insts, s, x, inst, op) && !op.Lddw?
    requires b.Fall? && SameButTemps(x.regs[MapRegister(inst.dst) := u], b.st.regs) && b.st.sp == x.sp
    requires b.st.mem == x.mem
    ensures Matches(f, insts, s.pc, I.SetDst(s, inst, v), b) <==> u == v
  {
    Operands(f, insts, s, x, inst, op);
    if u == v {
      RegsAfterSet(s.regs, x.regs, b.st.regs, inst.dst, v);
    } else {
      assert b.st.regs[REGISTER_MAP[inst.dst]] == u && s.regs[inst.dst := v][inst.dst] == v;
    }
  }

  // ----- the second operand -----

  function SecondOperand(inst: Inst, op: Op, r: I.Regs): u64
  {
    if ThroughTemp(op, inst.imm) then Narrow(IsAlu64(op), Wrap64(inst.imm)) else r[inst.src]
  }

  /** After the prefix the second operand is in its register, and the program's registers are unchanged. */
  lemma PrefixRuns(f: Frame, insts: seq<Inst>, s: I.State, x: AState, inst: Inst, op: Op, rest: seq<Item>,
                   ext: External)
    returns (y: AState)
    requires Start(f, insts, s, x, inst, op)
    ensures ExecBlock(PrefixCode(op, inst.imm) + rest, ext, x) == ExecBlock(rest, ext, y)
    ensures Start(f, insts, s, y, inst, op) && y.regs[SourceRegister(inst, op)] == SecondOperand(inst, op, s.regs)
    ensures SourceRegister(inst, op) <= TEMP
  {
    Operands(f, insts, s, x, inst, op);
    hide ThroughTemp, ExecBlock, IsAlu64, Narrow;
    if ThroughTemp(op, inst.imm) {
      var v := Narrow(IsAlu64(op), Wrap64(inst.imm));
      y := WithReg(x, TEMP, v);
      ExecConstant(IsAlu64(op), TEMP, Wrap64(inst.imm), rest, ext, x);
      HoldingSame(f, s.regs, s.mem, x, y);
    } else {
      y := x;
      assert [] + rest == rest;
    }
  }

  // ----- arithmetic -----

  /** What the register form of an operation other than division leaves in its destination. */
  function AluResult(sf: bool, a: AluOp, x: u64, b: u64): u64
    requires !a.Div? && !a.Mod?
  {
    match a
    case Add => Narrow(sf, Narrow(sf, x) + Narrow(sf, b))
    case Sub => Narrow(sf, Narrow(sf, x) - Narrow(sf, b))
    case Mul => Narrow(sf, 0 + x * b)
    case Mov => Narrow(sf, Bitwise(BitOr, Narrow(sf, 0), Narrow(sf, b)))
    case Or => Narrow(sf, Bitwise(BitOr, Narrow(sf, x), Narrow(sf, b)))
    case And => Narrow(sf, Bitwise(BitAnd, Narrow(sf, x), Narrow(sf, b)))
    case Xor => Narrow(sf, Bitwise(BitXor, Narrow(sf, x), Narrow(sf, b)))
    case _ => Shifted(sf, ShiftFor(a), Narrow(sf, x), b)
  }

  lemma AluRuns(pc: u16, sf: bool, a: AluOp, dst: areg, src: areg, ext: External, y: AState)
    requires !a.Div? && !a.Mod? && dst < TEMP && src <= TEMP
    ensures ExecBlock(RegisterForm(pc, sf, a, dst, src), ext, y) ==
      Fall(WithReg(y, dst, AluResult(sf, a, y.regs[dst], y.regs[src])))
  {
    hide AluIns, AluResult, Exec;
    AluExec(sf, a, dst, src, ext, y);
    ExecOne(AluIns(sf, a, dst, src), ext, y);
  }

  lemma AluExec(sf: bool, a: AluOp, dst: areg, src: areg, ext: External, y: AState)
    requires !a.Div? && !a.Mod? && dst < TEMP && src <= TEMP
    ensures Exec(AluIns(sf, a, dst, src), ext, y) == Some(WithReg(y, dst, AluResult(sf, a, y.regs[dst], y.regs[src])))
    ensures !AluIns(sf, a, dst, src).Cbnz?
  {
    hide Bitwise, Narrow, Shifted;
  }

  /** Cutting the second operand to the width first makes no difference. */
  lemma AluResultNarrow(sf: bool, a: AluOp, x: u64, b: u64)
    requires !a.Div? && !a.Mod?
    ensures AluResult(sf, a, x, Narrow(sf, b)) == AluResult(sf, a, x, b)
  {
    hide Bitwise, Narrow, Shifted;
    X.NarrowTwice(sf, b);
    if a.Mul? {
      ProductNarrow(sf, x, b);
    } else if X.IsShift(a) {
      CountNarrow(sf, ShiftFor(a), Narrow(sf, x), b);
    }
  }

  lemma ProductNarrow(sf: bool, x: u64, b: u64)
    ensures Narrow(sf, x * Narrow(sf, b)) == Narrow(sf, x * b)
  {
    var w := if sf then W64 else W32;
    X.MulValue(w, x, b);
    X.MulValue(w, x, Narrow(sf, b));
    X.NarrowTwice(sf, b);
    hide Narrow;
  }

  /** The hardware looks at the low bits of the amount only. */
  lemma CountNarrow(sf: bool, op: ShiftOp, x: u64, b: u64)
    ensures Shifted(sf, op, x, Narrow(sf, b)) == Shifted(sf, op, x, b)
  {
    if sf {
      assert Narrow(sf, b) == b;
    } else {
      DivModUnique(b, 32, 0x800_0000 * (b / TWO32) + Low32(b) / 32, Low32(b) % 32);
    }
    hide Narrow, Pow2, SignOf;
  }

  /** The byte of the shift amount that x86 uses has the same low bits. */
  lemma CountSame(o: Operand, src: u64, imm: i32)
    ensures var b, c := if o.Imm? then Wrap64(imm) else src, if o.Imm? then imm % 0x100 else src % 0x100;
      b % 32 == c % 32 && b % 64 == c % 64
  {
    var v: int := if o.Imm? then imm else src;
    var b, c := v % TWO64, v % 0x100;
    assert v == TWO64 * (v / TWO64) + b && v == 0x100 * (v / 0x100) + c;
    DivModUnique(b, 64, 4 * (v / 0x100) - TWO64 / 64 * (v / TWO64) + c / 64, c % 64);
    DivModUnique(b, 32, 8 * (v / 0x100) - TWO64 / 32 * (v / TWO64) + c / 32, c % 32);
  }

  /** Against the interpreter: equal unless a 32-bit left shift by 32 or more loses bits. */
  lemma AluAgrees(w: Width, a: AluOp, o: Operand, dst: u64, src: u64, imm: i32)
    requires !a.Div? && !a.Mod? && I.AluSem(w, a, o, dst, src, imm).Value?
    ensures var n := I.ShiftAmount(o, src, imm);
      I.AluSem(w, a, o, dst, src, imm).v == AluResult(w.W64?, a, dst, if o.Imm? then Wrap64(imm) else src) <==>
        (w.W32? && a.Lsh? && 32 <= n < 64 ==> dst % Pow2(64 - n) == 0)
  {
    hide Bitwise, Pow2, SignOf, I.ShlSem, I.ShrSem, I.SarSem;
    var b := if o.Imm? then Wrap64(imm) else src;
    if X.IsShift(a) {
      T.ShiftAgrees(w, a, o, dst, src, imm);
      CountSame(o, src, imm);
    } else {
      X.AddSubNarrow(w.W64?, dst, b);
      NotShift(w, a, dst, b);
    }
  }

  /** The operation on unbounded numbers. */
  function Exact(a: AluOp, x: nat, b: nat): int
  {
    match a
    case Add => x + b
    case Sub => x - b
    case Mul => x * b
    case Or => Bitwise(BitOr, x, b)
    case And => Bitwise(BitAnd, x, b)
    case Xor => Bitwise(BitXor, x, b)
    case _ => b
  }

  lemma NotShift(w: Width, a: AluOp, dst: u64, b: u64)
    requires !X.IsShift(a) && !a.Div? && !a.Mod?
    ensures AluResult(w.W64?, a, dst, b) == Narrow(w.W64?, Exact(a, dst, b))
  {
    hide Bitwise;
    X.AddSubNarrow(w.W64?, dst, b);
    X.BitwiseNarrow(BitOr, w.W64?, dst, b);
    X.BitwiseNarrow(BitAnd, w.W64?, dst, b);
    X.BitwiseNarrow(BitXor, w.W64?, dst, b);
    X.BitwiseNarrow(BitOr, w.W64?, 0, b);
    OrZero(b);
  }

  lemma SimAlu(f: Frame, insts: seq<Inst>, s: I.State, x: AState, inst: Inst, w: Width, a: AluOp, o: Operand,
               ext: External)
    requires Start(f, insts, s, x, inst, Alu(w, a, o)) && !a.Div? && !a.Mod?
    requires !(o.Imm? && IsSimpleImm(Alu(w, a, o), inst.imm))
    requires x.regs[SourceRegister(inst, Alu(w, a, o))] == SecondOperand(inst, Alu(w, a, o), s.regs)
    ensures var r := I.AluStep(s, inst, w, a, o);
      Matches(f, insts, s.pc, r,
        ExecBlock(RegisterForm(s.pc, w.W64?, a, MapRegister(inst.dst), SourceRegister(inst, Alu(w, a, o))), ext, x))
      <==> (Agrees(inst, Alu(w, a, o), s.regs) || r.Undefined?)
  {
    hide I.AluSem, Matches, AluResult, RegisterForm, ExecBlock, Pow2, Narrow, IsSimpleImm, Holding;
    assert s.pc < |insts|;
    hide Start;
    var op := Alu(w, a, o);
    Operands(f, insts, s, x, inst, op);
    var dst, src := MapRegister(inst.dst), SourceRegister(inst, op);
    var r := I.AluSem(w, a, o, s.regs[inst.dst], s.regs[inst.src], inst.imm);
    NeverDivides(w, a, o, s.regs[inst.dst], s.regs[inst.src], inst.imm);
    AluRuns(s.pc, w.W64?, a, dst, src, ext, x);
    var b := ExecBlock(RegisterForm(s.pc, w.W64?, a, dst, src), ext, x);
    if r.Value? {
      AluResultNarrow(w.W64?, a, s.regs[inst.dst], if o.Imm? then Wrap64(inst.imm) else s.regs[inst.src]);
      AluAgrees(w, a, o, s.regs[inst.dst], s.regs[inst.src], inst.imm);
      MatchesSet(f, insts, s, x, inst, op, r.v, AluResult(w.W64?, a, x.regs[dst], x.regs[src]), b);
    } else {
      MatchesUndefined(f, insts, s.pc, b);
    }
  }

  lemma NeverDivides(w: Width, a: AluOp, o: Operand, dst: u64, src: u64, imm: i32)
    requires !a.Div? && !a.Mod?
    ensures !I.AluSem(w, a, o, dst, src, imm).DivZero?
  {
    hide Pow2, Bitwise;
  }

  lemma MatchesUndefined(f: Frame, insts: seq<Inst>, pc: nat, b: BlockEnd)
    requires pc < |insts|
    ensures Matches(f, insts, pc, I.Undefined, b)
  {
  }

  /** Additions, subtractions and moves that hold their immediate. */
  lemma SimSimple(f: Frame, insts: seq<Inst>, s: I.State, x: AState, inst: Inst, w: Width, a: AluOp, ext: External)
    requires Start(f, insts, s, x, inst, Alu(w, a, Imm)) && IsSimpleImm(Alu(w, a, Imm), inst.imm)
    ensures Matches(f, insts, s.pc, I.AluStep(s, inst, w, a, Imm),
                    ExecBlock(SimpleForm(w.W64?, a, MapRegister(inst.dst), inst.imm), ext, x))
  {
    var dst, imm, sf := MapRegister(inst.dst), inst.imm, w.W64?;
    Operands(f, insts, s, x, inst, Alu(w, a, Imm));
    hide Start, Matches, Narrow, MoveCode, Wrap64;
    var v := I.AluSem(w, a, Imm, s.regs[inst.dst], s.regs[inst.src], imm);
    var b := ExecBlock(SimpleForm(sf, a, dst, imm), ext, x);
    if a.Mov? {
      assert v == I.Value(Narrow(sf, Wrap64(imm))) by { MovSem(w, s.regs[inst.dst], s.regs[inst.src], imm); }
      ExecConstant(sf, dst, Wrap64(imm), [], ext, x);
      assert Lift(MoveCode(sf, dst, Wrap64(imm))) + [] == Lift(MoveCode(sf, dst, Wrap64(imm)));
      MatchesSet(f, insts, s, x, inst, Alu(w, a, Imm), v.v, Narrow(sf, Wrap64(imm)), b);
    } else {
      var u := Narrow(sf, Narrow(sf, x.regs[dst]) + if a.Add? then imm else -imm);
      SumSem(w, a, s.regs[inst.dst], s.regs[inst.src], imm);
      ExecOne(SumImm(sf, if a.Add? then ADD else SUB, dst, dst, imm), ext, x);
      MatchesSet(f, insts, s, x, inst, Alu(w, a, Imm), v.v, u, b);
    }
  }

  lemma MovSem(w: Width, dst: u64, src: u64, imm: i32)
    ensures I.AluSem(w, Mov, Imm, dst, src, imm) == I.Value(Narrow(w.W64?, Wrap64(imm)))
  {
  }

  lemma SumSem(w: Width, a: AluOp, dst: u64, src: u64, imm: i32)
    requires (a.Add? || a.Sub?) && 0 <= imm < 0x1000
    ensures I.AluSem(w, a, Imm, dst, src, imm) ==
      I.Value(Narrow(w.W64?, Narrow(w.W64?, dst) + if a.Add? then imm else -imm))
  {
    var sf := w.W64?;
    assert Narrow(sf, imm) == imm && Wrap64(imm) == imm;
    X.AddSubNarrow(sf, dst, imm);
    assert forall v: int :: I.Truncated(w, v) == I.Value(Narrow(sf, v));
    hide Narrow, Wrap64, Low32, Bitwise, I.DivSem, I.ShlSem, I.ShrSem, I.SarSem, I.Truncated;
  }

  // ----- division -----

  /** The branch over the handler call skips one move and one jump: it lands on the division, for every slot number. */
  lemma DivmodLayout(pc: u16, mod: bool, sf: bool, rd: areg, rn: areg, rm: areg)
    ensures var udiv := Udiv(sf, if mod then TEMP_DIV else rd, rn, rm);
      var tail := [Do(udiv)] + if mod then [Do(Msub(sf, rd, rm, TEMP_DIV, rn))] else [];
      && DivmodCode(pc, mod, sf, rd, rn, rm) ==
        [Do(Cbnz(sf, 3, rm)), Do(MoveWide(true, MOVZ, 0, pc, PC_REGISTER)), To(S.ToDivByZero)] + tail
      && DivmodCode(pc, mod, sf, rd, rn, rm)[SignedField(3, 0x4_0000)..] == tail
  {
    SmallConstant(PC_REGISTER, pc);
    hide MoveCode;
    assert Lift([MoveWide(true, MOVZ, 0, pc, PC_REGISTER)]) == [Do(MoveWide(true, MOVZ, 0, pc, PC_REGISTER))];
  }

  /** Subtracting divisor times quotient leaves the remainder, at either width, whatever the high halves hold. */
  lemma RemainderFits(sf: bool, a: u64, b: u64)
    requires Narrow(sf, b) != 0
    ensures Narrow(sf, a - Narrow(sf, a) / Narrow(sf, b) * b) == Narrow(sf, a) % Narrow(sf, b)
  {
    var x, y := Narrow(sf, a), Narrow(sf, b);
    var q := x / y;
    assert x == y * q + x % y;
    if sf {
      assert x == a && y == b;
      assert q * b == y * q;
      DivModUnique(x % y, TWO64, 0, x % y);
    } else {
      var k := a / TWO32 - (b / TWO32) * q;
      assert a - q * b == x % y + TWO32 * k by {
        assert a == x + TWO32 * (a / TWO32) && b == y + TWO32 * (b / TWO32);
        assert q * b == y * q + TWO32 * (b / TWO32) * q;
        assert TWO32 * (b / TWO32) * q == TWO32 * ((b / TWO32) * q);
      }
      DivModUnique(a - q * b, TWO32, k, x % y);
    }
  }

  lemma MsubValue(sf: bool, rd: areg, rm: areg, ext: External, x: AState, y: AState)
    requires rd < TEMP && rm <= TEMP && Narrow(sf, x.regs[rm]) != 0
    requires y == WithReg(x, TEMP_DIV, Quotient(Narrow(sf, x.regs[rd]), Narrow(sf, x.regs[rm])))
    ensures Exec(Msub(sf, rd, rm, TEMP_DIV, rd), ext, y) ==
      Some(WithReg(y, rd, Narrow(sf, x.regs[rd]) % Narrow(sf, x.regs[rm])))
  {
    var a, b := x.regs[rd], x.regs[rm];
    RemainderFits(sf, a, b);
    hide Narrow;
    var q := Narrow(sf, a) / Narrow(sf, b);
    assert y.regs[rd] == a && y.regs[rm] == b && y.regs[TEMP_DIV] == q;
    assert b * q == q * b;
  }

  /** The division itself, and the remainder from it. */
  lemma QuotientRuns(mod: bool, sf: bool, rd: areg, rm: areg, ext: External, x: AState)
    requires rd < TEMP && rm <= TEMP && Narrow(sf, x.regs[rm]) != 0
    ensures var a, b := Narrow(sf, x.regs[rd]), Narrow(sf, x.regs[rm]);
      var tail := [Do(Udiv(sf, if mod then TEMP_DIV else rd, rd, rm))] +
        if mod then [Do(Msub(sf, rd, rm, TEMP_DIV, rd))] else [];
      ExecBlock(tail, ext, x) ==
        Fall(if mod then WithReg(WithReg(x, TEMP_DIV, Quotient(a, b)), rd, a % b) else WithReg(x, rd, Quotient(a, b)))
  {
    hide Narrow, Quotient;
    var q := Quotient(Narrow(sf, x.regs[rd]), Narrow(sf, x.regs[rm]));
    var to := if mod then TEMP_DIV else rd;
    var udiv, y := Udiv(sf, to, rd, rm), WithReg(x, to, q);
    assert Exec(udiv, ext, x) == Some(y);
    hide ExecBlock;
    if mod {
      MsubValue(sf, rd, rm, ext, x, y);
      var msub := Msub(sf, rd, rm, TEMP_DIV, rd);
      hide Exec;
      ExecStep(udiv, [Do(msub)], ext, x);
      ExecOne(msub, ext, y);
    } else {
      hide Exec;
      ExecOne(udiv, ext, x);
      assert [Do(udiv)] + [] == [Do(udiv)];
    }
  }

  /** A compare-and-branch at the head of a block. */
  lemma CbnzSplits(code: seq<Item>, sf: bool, imm19: u19, rt: areg, ext: External, x: AState)
    requires code != [] && code[0] == Do(Cbnz(sf, imm19, rt)) && 1 <= SignedField(imm19, 0x4_0000) <= |code|
    ensures ExecBlock(code, ext, x) ==
      ExecBlock(if Narrow(sf, Read(x.regs, rt)) == 0 then code[1..] else code[SignedField(imm19, 0x4_0000)..], ext, x)
  {
    hide Narrow, Exec;
  }

  /**
   * The division sequence: a zero divisor leaves for the handler with the slot number in its register; otherwise the
   * destination gets the quotient or remainder, and only a temporary may change besides.
   */
  lemma DivmodRuns(pc: u16, mod: bool, sf: bool, rd: areg, rm: areg, ext: External, x: AState)
    requires rd < TEMP && rm <= TEMP
    ensures var e := ExecBlock(DivmodCode(pc, mod, sf, rd, rd, rm), ext, x);
      var a, b := Narrow(sf, x.regs[rd]), Narrow(sf, x.regs[rm]);
      if b == 0 then e == Goto(S.ToDivByZero, WithReg(x, 2, pc))
      else e == Fall(if mod then WithReg(WithReg(x, TEMP_DIV, Quotient(a, b)), rd, a % b)
        else WithReg(x, rd, Quotient(a, b)))
  {
    hide Narrow, DivmodCode, Quotient;
    var code := DivmodCode(pc, mod, sf, rd, rd, rm);
    DivmodLayout(pc, mod, sf, rd, rd, rm);
    CbnzSplits(code, sf, 3, rm, ext, x);
    if Narrow(sf, x.regs[rm]) == 0 {
      var move := MoveWide(true, MOVZ, 0, pc, PC_REGISTER);
      assert code[1..] == [Do(move)] + code[2..];
      ExecStep(move, code[2..], ext, x);
      assert code[2..][0] == To(S.ToDivByZero);
    } else {
      hide ExecBlock;
      QuotientRuns(mod, sf, rd, rm, ext, x);
    }
  }
}
