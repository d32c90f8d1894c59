/** Stack discipline: no generated instruction block moves the stack pointer, whatever the program computes. */
module StackDiscipline {
  import opened Words
  import opened Ebpf
  import opened Memory
  import opened X86
  import opened X86Exec
  import opened Select
  import opened Blocks
  import opened Simulation
  import V = Validator

  /** External code returns with the stack pointer it was called with and unmaps nothing. */
  ghost predicate ExternalKeepsStack(ext: External)
  {
    forall addr, x :: KeepsStack(x, ext(addr, x))
  }

  /** From `x` to `y` the stack pointer stays and no memory is lost. */
  ghost predicate KeepsStack(x: XState, y: XState)
  {
    x.regs[RSP] == y.regs[RSP] && x.mem.Keys <= y.mem.Keys
  }

  /** Neither pushes nor pops, returns, nor writes the stack pointer. */
  predicate Quiet(a: Asm)
  {
    match a
    case Plain(x) => QuietX(x)
    case LeaString(dst, _) => dst != RSP
    case _ => true
  }

  predicate QuietX(x: X)
  {
    match x
    case RR(_, op, _, dst) => dst != RSP
    case RI(_, op, dst, _) => dst != RSP
    case ShI(_, _, dst, _) => dst != RSP
    case ShCl(_, _, dst) => dst != RSP
    case Un(_, _, dst) => dst != RSP
    case Rol16(dst, _) => dst != RSP
    case Bswap(_, dst) => dst != RSP
    case MovAbs(dst, _) => dst != RSP
    case Ld(_, _, dst, _) => dst != RSP
    case Str(_, _, _, _) => true
    case StrI(_, _, _, _) => true
    case CallRax => true
    case _ => false
  }

  predicate AllQuiet(code: seq<Asm>)
  {
    forall i :: 0 <= i < |code| ==> Quiet(code[i])
  }

  lemma QuietKeeps(x: X, ext: External, st: XState)
    requires QuietX(x) && ExternalKeepsStack(ext)
    ensures var e := Exec(x, ext, 0, st); !e.Finish? && (e.Continue? ==> KeepsStack(st, e.st))
  {
    hide Narrow, Shift, RotateWord, Swapped, LeBytes, Bitwise, Load, Mapped, CmpFlags, TestFlags;
    match x
    case Str(sz, src, base, d) => StoreKeeps(st, sz, base, d, st.regs[src]);
    case StrI(sz, base, d, bits) => StoreKeeps(st, sz, base, d, Signed32(bits));
    case CallRax => assert KeepsStack(st, ext(st.regs[RAX], st));
    case _ => hide Store;
  }

  lemma StoreKeeps(st: XState, sz: Size, base: reg, d: i32, v: int)
    ensures var e := ExecStore(st, sz, base, d, v); !e.Finish? && (e.Continue? ==> KeepsStack(st, e.st))
  {
    hide Store;
    var a := Wrap64(st.regs[base] + d);
    if Mapped(st.mem, a, SizeBytes(sz)) {
      StoreAt(st.mem, a, SizeBytes(sz), v);
    }
  }

  /** How a block may end: not by returning, and with the stack as it found it. */
  ghost predicate Level(st: XState, e: BlockEnd)
  {
    !e.Return? && (!e.Crash? ==> KeepsStack(st, e.st))
  }

  lemma {:induction false} QuietBlock(code: seq<Asm>, ext: External, str: u64, st: XState)
    requires AllQuiet(code) && ExternalKeepsStack(ext)
    ensures Level(st, ExecBlock(code, ext, str, st))
    decreases |code|
  {
    hide Exec, ExternalKeepsStack, QuietX, Holds;
    if code != [] {
      assert Quiet(code[0]) && AllQuiet(code[1..]);
      match code[0]
      case Plain(x) =>
        QuietKeeps(x, ext, st);
        var e := Exec(x, ext, 0, st);
        if e.Continue? {
          QuietBlock(code[1..], ext, str, e.st);
        }
      case JmpTo(_) =>
      case JccTo(_, _) => QuietBlock(code[1..], ext, str, st);
      case LeaString(dst, _) => QuietBlock(code[1..], ext, str, XState(st.regs[dst := str], st.flags, st.mem));
    }
  }

  lemma QuietAppend(a: seq<Asm>, b: seq<Asm>)
    requires AllQuiet(a) && AllQuiet(b)
    ensures AllQuiet(a + b)
  {
    hide Quiet;
  }

  /** The code of every instruction but multiplication, division and remainder is quiet. */
  lemma OpQuiet(p: Source, i: nat, inst: Inst, op: Op, dst: reg, src: reg)
    requires i < |p.insts| && dst != RSP
    requires op.Alu? ==> !op.alu.Mul? && !op.alu.Div? && !op.alu.Mod?
    ensures AllQuiet(OpCode(p, i, inst, op, dst, src))
  {
    hide StoreBits, LddwBits, SlotTarget;
    match op
    case Call =>
      if 0 <= inst.imm < |p.extFuncs| {
        var unwind := if inst.imm == p.unwindIndex then [Plain(RI(true, CmpRI, MapRegister(0), 0)),
          JccTo(CcE, ToExit)] else [];
        MapFacts();
        QuietAppend([MovReg(R9, RCX)], CallCode(p.extFuncs[inst.imm]));
        QuietAppend([MovReg(R9, RCX)] + CallCode(p.extFuncs[inst.imm]), unwind);
      }
    case _ =>
  }

  lemma ScratchKeepsStack(x: XState, e: BlockEnd)
    requires e.Goto? || e.Fall?
    requires e.st.regs[RSP] == x.regs[RSP] && (e.st.mem == x.mem || SameButScratch(x.mem, e.st.mem, x.regs[RSP]))
    ensures KeepsStack(x, e.st)
  {
  }

  /** A nonzero immediate is a nonzero operand in both widths. */
  lemma SecondNonzero(w: Width, imm: i32, src: u64)
    ensures imm != 0 ==> Narrow(w.W64?, SecondValue(imm, src)) != 0
    ensures imm == 0 ==> SecondValue(imm, src) == src
  {
  }

  /** Pushes and pops of a multiplication or division balance, and its division never faults. */
  lemma MulDivModLevel(i: nat, w: Width, op: AluOp, src: reg, dst: reg, imm: i32, ext: External, str: u64, st: XState)
    requires dst != RCX && dst != RSP && src != RCX && src != RSP && HasScratch(st)
    requires op.Mul? || op.Div? || op.Mod?
    ensures Level(st, ExecBlock(MulDivMod(i, w, op, src, dst, imm), ext, str, st))
    ensures !ExecBlock(MulDivMod(i, w, op, src, dst, imm), ext, str, st).Crash?
  {
    hide ExecBlock, MulDivMod, MulDivResult, Narrow, SecondValue, KeepsStack;
    MulDivModRuns(i, w, op, src, dst, imm, ext, str, st);
    SecondNonzero(w, imm, st.regs[src]);
    ScratchKeepsStack(st, ExecBlock(MulDivMod(i, w, op, src, dst, imm), ext, str, st));
  }

  /** One instruction: wherever its code ends, in the program, at the epilogue or at the handler, the stack is level. */
  lemma CodeLevel(p: Source, i: nat, ext: External, str: u64, st: XState)
    requires i < |p.insts| && ExternalKeepsStack(ext) && HasScratch(st)
    ensures Level(st, ExecBlock(Code(p, i), ext, str, st))
  {
    hide ExecBlock, ExternalKeepsStack, DecodeOp, MulDivMod, Level;
    var inst := p.insts[i];
    var dst, src := MapRegister(inst.dst), MapRegister(inst.src);
    MapFacts();
    match DecodeOp(inst.opcode)
    case None => QuietBlock([], ext, str, st);
    case Some(op) =>
      if op.Alu? && (op.alu.Mul? || op.alu.Div? || op.alu.Mod?) {
        MulDivModLevel(i, op.width, op.alu, src, dst, inst.imm, ext, str, st);
      } else {
        OpQuiet(p, i, inst, op, dst, src);
        hide OpCode;
        QuietBlock(OpCode(p, i, inst, op, dst, src), ext, str, st);
      }
  }

  /** Where generated code is between blocks: at a slot, gone to the epilogue or the handler, or stopped by a fault. */
  datatype Boundary = AtSlot(pc: nat, st: XState) | Left(target: Target, st: XState) | Faulted

  /** At most `fuel` blocks of the program's code. */
  function RunBlocks(p: Source, ext: External, str: u64, pc: nat, st: XState, fuel: nat): Boundary
    decreases fuel
  {
    if fuel == 0 || pc >= |p.insts| then AtSlot(pc, st)
    else match ExecBlock(Code(p, pc), ext, str, st)
      case Fall(st') => RunBlocks(p, ext, str, V.After(p.insts, pc), st', fuel - 1)
      case Goto(ToSlot(t), st') => RunBlocks(p, ext, str, t, st', fuel - 1)
      case Goto(t, st') => Left(t, st')
      case _ => Faulted
  }

  /**
   * In every execution of every generated program, agreeing with the interpreter or not, the stack pointer has the
   * same value at each instruction boundary, at the epilogue and at the division handler.
   */
  lemma {:induction false} StackStaysLevel(p: Source, ext: External, str: u64, pc: nat, st: XState, fuel: nat)
    requires ExternalKeepsStack(ext) && HasScratch(st)
    ensures var b := RunBlocks(p, ext, str, pc, st, fuel);
      !b.Faulted? ==> b.st.regs[RSP] == st.regs[RSP] && HasScratch(b.st)
    decreases fuel
  {
    hide ExecBlock, Code, ExternalKeepsStack;
    if fuel > 0 && pc < |p.insts| {
      CodeLevel(p, pc, ext, str, st);
      var e := ExecBlock(Code(p, pc), ext, str, st);
      match e
      case Fall(y) => StackStaysLevel(p, ext, str, V.After(p.insts, pc), y, fuel - 1);
      case Goto(t, y) =>
        if t.ToSlot? {
          StackStaysLevel(p, ext, str, t.pc, y, fuel - 1);
        }
      case _ =>
    }
  }
}
