/**
 * Stack discipline of the emitted bytes: every boundary is reached by the machine, and the exit gives the frame back.
 */
module StackRestored {
  import opened Words
  import opened Ebpf
  import opened Memory
  import opened X86
  import opened X86Exec
  import opened Select
  import opened Blocks
  import opened Layout
  import opened MachineCode
  import opened Simulation
  import opened Positions
  import opened CallFrame
  import opened ImageSize
  import opened StackDiscipline
  import opened JitCorrect
  import I = Interp
  import V = Validator

  /** Where the machine is at a boundary between blocks. */
  function MachineAt(p: Source, b: Boundary): Config
    requires !b.Faulted?
  {
    match b
    case AtSlot(pc, st) => AtPc(p, pc, st)
    case Left(t, st) => At(PlaceOf(PlacesOf(p), TargetPc(t)), st)
  }

  /** A block that leaves by a jump leaves to the target of one of its jumps. */
  lemma {:induction false} GotoFrom(code: seq<Asm>, ext: External, str: u64, st: XState) returns (k: nat)
    requires ExecBlock(code, ext, str, st).Goto?
    ensures k < |code| && (code[k].JmpTo? || code[k].JccTo?) && code[k].target == ExecBlock(code, ext, str, st).target
    decreases |code|
  {
    hide Exec, Holds;
    k := 0;
    match code[0] {
      case Plain(x) =>
        k := GotoFrom(code[1..], ext, str, Exec(x, ext, 0, st).st);
        k := k + 1;
      case JmpTo(_) =>
      case JccTo(c, _) =>
        if !Holds(c, st.flags) {
          k := GotoFrom(code[1..], ext, str, st);
          k := k + 1;
        }
      case LeaString(dst, _) =>
        k := GotoFrom(code[1..], ext, str, XState(st.regs[dst := str], st.flags, st.mem));
        k := k + 1;
    }
  }

  /** The slots an instruction's code jumps to: those of JA and of the conditional jumps. */
  lemma SlotJumps(p: Source, i: nat, inst: Inst, op: Op, dst: reg, src: reg, k: nat)
    requires i < |p.insts| && k < |OpCode(p, i, inst, op, dst, src)|
    requires var a := OpCode(p, i, inst, op, dst, src)[k]; (a.JmpTo? || a.JccTo?) && a.target.ToSlot?
    ensures (op.Ja? || op.Jmp?) && OpCode(p, i, inst, op, dst, src)[k].target == SlotTarget(i, inst.offset)
  {
    hide LoadImm, SlotTarget, LddwBits, StoreBits;
    if op.Alu? {
      hide MulDivMod;
      if op.alu.Mul? || op.alu.Div? || op.alu.Mod? {
        DivisionJumps(i, op.width, op.alu, src, dst, inst.imm, k);
      }
    }
  }

  lemma DivisionJumps(i: nat, w: Width, a: AluOp, src: reg, dst: reg, imm: i32, k: nat)
    requires k < |MulDivMod(i, w, a, src, dst, imm)|
    requires MulDivMod(i, w, a, src, dst, imm)[k].JmpTo? || MulDivMod(i, w, a, src, dst, imm)[k].JccTo?
    ensures MulDivMod(i, w, a, src, dst, imm)[k].target == ToDivByZero
  {
    hide LoadImm;
    NoJumps(w, a, src, dst, imm);
    hide SaveRegs, Compute, Deliver, SecondOperand;
  }

  predicate NoJump(a: Asm) { !a.JmpTo? && !a.JccTo? }

  lemma NoJumps(w: Width, a: AluOp, src: reg, dst: reg, imm: i32)
    ensures forall k :: 0 <= k < |SaveRegs(dst)| ==> NoJump(SaveRegs(dst)[k])
    ensures forall k :: 0 <= k < |Compute(w, a)| ==> NoJump(Compute(w, a)[k])
    ensures forall k :: 0 <= k < |Deliver(a, dst)| ==> NoJump(Deliver(a, dst)[k])
    ensures NoJump(SecondOperand(src, imm))
  {
    hide LoadImm;
  }

  /** In an accepted program a block that goes to a slot goes to an instruction start. */
  lemma GoesToStart(p: Source, vm: I.Vm, i: nat, ext: External, str: u64, st: XState)
    requires V.Runnable(vm) && p.insts == vm.insts && V.IsStart(vm.insts, i)
    requires i < |p.insts| && ExecBlock(Code(p, i), ext, str, st).Goto?
    ensures var t := ExecBlock(Code(p, i), ext, str, st).target;
      t.ToSlot? ==> t.pc < |p.insts| && V.IsStart(p.insts, t.pc)
  {
    hide ExecBlock, OpCode, DecodeOp, V.Starts, V.InstError;
    var k := GotoFrom(Code(p, i), ext, str, st);
    V.StartFacts(vm, i);
    var inst := p.insts[i];
    var op := DecodeOp(inst.opcode).value;
    assert Code(p, i) == OpCode(p, i, inst, op, MapRegister(inst.dst), MapRegister(inst.src));
    if Code(p, i)[k].target.ToSlot? {
      SlotJumps(p, i, inst, op, MapRegister(inst.dst), MapRegister(inst.src), k);
      V.JumpFacts(vm, i);
    }
  }

  lemma SlotIsPlace(p: Source, pc: nat)
    requires pc < |p.insts| < MAX_INSTS && V.IsStart(p.insts, pc)
    ensures PlaceOf(PlacesOf(p), TargetPc(ToSlot(pc))) == PcPlace(p, pc)
  {
    hide Prologue, Epilogue, DivHandler, BodyCode, V.Starts;
    LocsKeys(p, 0, CodeLen(Prologue()));
  }

  /** Every boundary of the program's execution is reached by the machine executing the image. */
  lemma {:induction false} BlocksOnMachine(p: Source, vm: I.Vm, base: u64, ext: External, pc: nat, x: XState, fuel: nat)
    returns (n: nat)
    requires V.Runnable(vm) && Compiles(p, vm) && (pc < |p.insts| ==> V.IsStart(p.insts, pc))
    requires !RunBlocks(p, ext, Wrap64(base + PlacesOf(p).strings), pc, x, fuel).Faulted?
    ensures Ticks(Image(p), base, ext, AtPc(p, pc, x), n)
      == MachineAt(p, RunBlocks(p, ext, Wrap64(base + PlacesOf(p).strings), pc, x, fuel))
    decreases fuel
  {
    hide Image, PlacesOf, PcPlace, ExecBlock, Code, PlaceOf, Tick, V.Starts, V.InstError;
    var str := Wrap64(base + PlacesOf(p).strings);
    if fuel == 0 || pc >= |p.insts| {
      n := 0;
    } else {
      ProgramBounded(vm, p);
      V.StartFacts(vm, pc);
      assert |p.insts| < MAX_INSTS;
      hide V.Runnable;
      var e := ExecBlock(Code(p, pc), ext, str, x);
      var k := CodeOnMachine(p, pc, base, ext, x);
      var j := 0;
      match e {
        case Fall(y) => j := BlocksOnMachine(p, vm, base, ext, V.After(p.insts, pc), y, fuel - 1);
        case Goto(t, y) =>
          GoesToStart(p, vm, pc, ext, str, x);
          if t.ToSlot? {
            SlotIsPlace(p, t.pc);
            j := BlocksOnMachine(p, vm, base, ext, t.pc, y, fuel - 1);
          }
        case _ =>
      }
      TicksAdd(Image(p), base, ext, AtPc(p, pc, x), k, j);
      n := k + j;
    }
  }

  /** The machine's state after the prologue. */
  function Entered(ext: External, str: u64, x: XState): XState
  {
    match ExecBlock(Prologue(), ext, str, x)
    case Fall(st) => st
    case _ => x
  }

  lemma StartPlace(p: Source)
    ensures PcPlace(p, 0) == CodeLen(Prologue())
  {
    hide Prologue, Epilogue, DivHandler, Code;
    Pieces(p);
  }

  lemma EnterOnMachine(p: Source, vm: I.Vm, base: u64, ext: External, x: XState) returns (n: nat)
    requires V.Runnable(vm) && Compiles(p, vm) && EntryOk(x, map[])
    ensures var y := Entered(ext, Wrap64(base + PlacesOf(p).strings), x);
      && HasScratch(y) && y.regs[RSP] == x.regs[RSP] - SAVED - STACK_SIZE
      && Ticks(Image(p), base, ext, At(0, x), n) == AtPc(p, 0, y)
  {
    hide ExecBlock, Image, Ticks, Prologue, Epilogue, DivHandler, BodyCode, PlacesOf, CodeLen, AllWellFormed, PcPlace,
      V.Runnable;
    ProgramBounded(vm, p);
    var str := Wrap64(base + PlacesOf(p).strings);
    var f := PrologueRuns(ext, str, x, map[]);
    FrameCodeWellFormed(p);
    Pieces(p);
    StartPlace(p);
    assert CodeLen([]) == 0 by { NoCode(); }
    n := PieceOnMachine(p, [], Prologue(), BodyCode(p, 0) + Epilogue() + DivHandler(p), base, ext, x);
  }

  lemma SavedMapped(v: Regs, m: Mem, top: int)
    requires SavedBelow(NONVOLATILE, v, m, top)
    ensures Mapped(m, top - SAVED, SAVED)
  {
    hide Load64;
    NonvolatileFacts();
  }

  lemma BytesOf(m: Mem, a: int, n: nat) returns (s: seq<byte>)
    requires Mapped(m, a, n)
    ensures |s| == n && forall k :: a <= k < a + n ==> k in m && m[k] == s[k - a]
  {
    s := ReadBytes(m, a, n);
    ReadBytesAt(m, a, n);
    forall k | a <= k < a + n ensures k in m && m[k] == s[k - a] {
      assert ReadBytes(m, a, n)[k - a] == m[a + (k - a)];
    }
  }

  /** With the saved registers still in place the epilogue can run. */
  lemma FrameAtExit(st: XState, v: Regs) returns (f: Frame)
    requires HasScratch(st) && st.regs[RSP] + STACK_SIZE + SAVED < TWO64
    requires SavedBelow(NONVOLATILE, v, st.mem, st.regs[RSP] + STACK_SIZE + SAVED)
    ensures FrameOk(f) && MemRel(f, map[], st) && f.sp == st.regs[RSP] && f.dom == {}
  {
    var top: int := st.regs[RSP] + STACK_SIZE;
    SavedMapped(v, st.mem, top + SAVED);
    var saved := BytesOf(st.mem, top, SAVED);
    f := Frame(st.regs[RSP], saved, {});
    hide SavedBelow;
  }

  lemma FirstIsStart(insts: seq<Inst>)
    ensures insts != [] ==> V.IsStart(insts, 0)
  {
  }

  /** The program is over: it has left for the exit or run off its end. */
  predicate AtExit(p: Source, b: Boundary)
  {
    (b.Left? && b.target == ToExit) || (b.AtSlot? && b.pc >= |p.insts|)
  }

  lemma ExitPlace(p: Source, b: Boundary)
    requires AtExit(p, b)
    ensures MachineAt(p, b) == At(PlacesOf(p).exit, b.st)
  {
    hide PlacesOf, PcPlace;
    if b.AtSlot? {
      EndPlace(p, b.pc);
    }
  }

  /** What the execution of the image has come to after the prologue and `fuel` blocks. */
  function Execution(p: Source, base: u64, ext: External, x: XState, fuel: nat): Boundary
  {
    var str := Wrap64(base + PlacesOf(p).strings);
    RunBlocks(p, ext, str, 0, Entered(ext, str, x), fuel)
  }

  /**
   * Any execution of the image of an accepted program, agreeing with the interpreter or not, whatever memory it
   * touches: if it comes to its exit with the five saved registers still in their slots, then the function returns with
   * the stack pointer and the nonvolatile registers as on entry, and with the value of r0.
   */
  lemma ExitRestores(p: Source, vm: I.Vm, base: u64, ext: External, x: XState, fuel: nat) returns (n: nat)
    requires V.Runnable(vm) && Compiles(p, vm) && EntryOk(x, map[]) && ExternalKeepsStack(ext)
    requires var b := Execution(p, base, ext, x, fuel);
      AtExit(p, b) && SavedBelow(NONVOLATILE, x.regs, b.st.mem, x.regs[RSP])
    ensures var b := Execution(p, base, ext, x, fuel);
      ReturnedWell(Ticks(Image(p), base, ext, At(0, x), n), b.st.regs[RAX], map[], x.regs[RSP], x.regs)
  {
    hide Image, Ticks, PlacesOf, Execution, SavedBelow, ReturnedWell, V.Runnable, MachineAt, ExternalKeepsStack;
    var b := Execution(p, base, ext, x, fuel);
    var i := ReachedOnMachine(p, vm, base, ext, x, fuel);
    var f := FrameAtExit(b.st, x.regs);
    assert |Image(p)| < TWO31 by { ProgramBounded(vm, p); }
    var k := FinishAtExit(p, f, base, ext, b.st, map[], x.regs);
    ExitPlace(p, b);
    TicksAdd(Image(p), base, ext, At(0, x), i, k);
    n := i + k;
  }

  /** The machine comes to where the execution is, the stack pointer below the frame made on entry. */
  lemma ReachedOnMachine(p: Source, vm: I.Vm, base: u64, ext: External, x: XState, fuel: nat) returns (n: nat)
    requires V.Runnable(vm) && Compiles(p, vm) && EntryOk(x, map[]) && ExternalKeepsStack(ext)
    requires !Execution(p, base, ext, x, fuel).Faulted?
    ensures var b := Execution(p, base, ext, x, fuel);
      && Ticks(Image(p), base, ext, At(0, x), n) == MachineAt(p, b)
      && HasScratch(b.st) && b.st.regs[RSP] == x.regs[RSP] - SAVED - STACK_SIZE
  {
    hide ExecBlock, Image, Ticks, PlacesOf, PcPlace, RunBlocks, Entered, V.Starts, ExternalKeepsStack, MachineAt;
    var str := Wrap64(base + PlacesOf(p).strings);
    var y := Entered(ext, str, x);
    var i := EnterOnMachine(p, vm, base, ext, x);
    StackStaysLevel(p, ext, str, 0, y, fuel);
    assert |p.insts| > 0 ==> V.IsStart(p.insts, 0) by { FirstIsStart(p.insts); }
    var j := BlocksOnMachine(p, vm, base, ext, 0, y, fuel);
    TicksAdd(Image(p), base, ext, At(0, x), i, j);
    n := i + j;
  }

  /**
   * The same where the program divides by zero: if the printer leaves the frame alone, the function returns -1 through
   * the handler, with the stack pointer and the nonvolatile registers as on entry.
   */
  lemma HandlerRestores(p: Source, vm: I.Vm, base: u64, ext: External, x: XState, fuel: nat) returns (n: nat)
    requires V.Runnable(vm) && Compiles(p, vm) && EntryOk(x, map[]) && ExternalKeepsStack(ext)
    requires forall f: Frame :: FrameOf(f, x, map[]) ==> PrinterOk(f, ext, p.errorPrintf)
    requires var b := Execution(p, base, ext, x, fuel);
      b.Left? && b.target == ToDivByZero && SavedBelow(NONVOLATILE, x.regs, b.st.mem, x.regs[RSP])
    ensures ReturnedWell(Ticks(Image(p), base, ext, At(0, x), n), TWO64 - 1, map[], x.regs[RSP], x.regs)
  {
    hide Image, Ticks, PlacesOf, Execution, SavedBelow, ReturnedWell, V.Runnable, ExternalKeepsStack, PrinterOk;
    var b := Execution(p, base, ext, x, fuel);
    var i := ReachedOnMachine(p, vm, base, ext, x, fuel);
    assert MachineAt(p, b) == At(PlacesOf(p).divByZero, b.st);
    var f := FrameAtExit(b.st, x.regs);
    assert FrameOf(f, x, map[]);
    assert |Image(p)| < TWO31 by { ProgramBounded(vm, p); }
    var k := FinishAtHandler(p, f, base, ext, b.st, map[], x.regs);
    TicksAdd(Image(p), base, ext, At(0, x), i, k);
    n := i + k;
  }
}
