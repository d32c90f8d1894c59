/**
 * The x86-64 code generator preserves meaning: from interpreter runs to runs of the emitted bytes, by way of single
 * steps, the entry, the return and the division handler. The main theorem is at the end.
 */
module JitCorrect {
  import opened Words
  import opened Ebpf
  import opened Memory
  import opened X86
  import opened X86Exec
  import opened Select
  import opened Blocks
  import opened Layout
  import opened MachineCode
  import opened Simulation
  import opened StepSimulation
  import opened Positions
  import opened CallFrame
  import opened ImageSize
  import opened Calls
  import I = Interp
  import V = Validator
  import R = Runs

  /** The generator translates what the interpreter runs. */
  predicate Compiles(p: Source, vm: I.Vm)
  {
    p.insts == vm.insts && p.extFuncs == vm.extFuncs && p.unwindIndex == vm.unwindIndex
  }

  /** Every instruction: where the step is defined, the selected block answers it exactly if `AgreesAt` holds. */
  lemma StepMatches(p: Source, vm: I.Vm, h: I.Helpers, ctx: I.Ctx, f: Frame, s: I.State, x: XState, ext: External,
                    str: u64)
    requires V.Runnable(vm) && Compiles(p, vm) && V.Good(vm, ctx, s) && s.pc < |vm.insts|
    requires FrameOk(f) && Holding(f, s.regs, s.mem, x) && HelpersOk(f, ext, h, {}, vm.extFuncs)
    ensures Matches(f, vm.insts, s.pc, I.Step(vm, h, ctx, s), ExecBlock(Code(p, s.pc), ext, str, x))
      <==> (AgreesAt(vm, ctx, s) || I.Step(vm, h, ctx, s).Undefined?)
  {
    hide DecodeOp, Agrees, Allowed, Holding, HelpersOk, Matches, ExecBlock, I.AluStep, I.LoadStep, I.StoreStep,
      I.JumpStep, I.CallStep, Select.AluCode, EndCode, JumpCode, V.InstError, V.Starts, LoadImm, I.EndSem, I.NegSem,
      CallCode, V.Accepted, I.LddwValue;
    V.StartFacts(vm, s.pc);
    var inst := vm.insts[s.pc];
    var op := DecodeOp(inst.opcode).value;
    assert Start(f, vm.insts, s, x, inst, op) by { StartHolds(vm, f, s, x, inst, op); }
    hide Start, FrameOk, V.Good, V.Runnable;
    assert Code(p, s.pc) == OpCode(p, s.pc, inst, op, MapRegister(inst.dst), MapRegister(inst.src));
    assert I.Step(vm, h, ctx, s) == I.Execute(vm, h, ctx, s, inst, op);
    ExecuteMatches(p, vm, h, ctx, f, s, x, ext, str, inst, op);
  }

  lemma StartHolds(vm: I.Vm, f: Frame, s: I.State, x: XState, inst: Inst, op: Op)
    requires V.Runnable(vm) && V.IsStart(vm.insts, s.pc) && s.pc < |vm.insts| && inst == vm.insts[s.pc]
    requires DecodeOp(inst.opcode) == Some(op)
    requires FrameOk(f) && Holding(f, s.regs, s.mem, x)
    ensures Start(f, vm.insts, s, x, inst, op)
    ensures op.Lddw? ==> s.pc + 1 < |vm.insts|
  {
    hide DecodeOp, Agrees, Holding, FrameOk;
    V.StartFacts(vm, s.pc);
    if op.Ja? || op.Jmp? {
      V.JumpFacts(vm, s.pc);
    }
  }

  lemma ExecuteMatches(p: Source, vm: I.Vm, h: I.Helpers, ctx: I.Ctx, f: Frame, s: I.State, x: XState, ext: External,
                       str: u64, inst: Inst, op: Op)
    requires Compiles(p, vm) && s.pc < |vm.insts| && Start(f, vm.insts, s, x, inst, op)
    requires op.Call? ==> HelpersOk(f, ext, h, {}, vm.extFuncs)
    ensures Matches(f, vm.insts, s.pc, I.Execute(vm, h, ctx, s, inst, op),
                    ExecBlock(OpCode(p, s.pc, inst, op, MapRegister(inst.dst), MapRegister(inst.src)), ext, str, x))
      <==> ((Agrees(inst, op, s.regs) && Allowed(vm, ctx, inst, op, s.regs)) ||
        I.Execute(vm, h, ctx, s, inst, op).Undefined?)
  {
    hide Start, Matches, ExecBlock, HelpersOk, I.AluStep, I.LoadStep, I.StoreStep, I.JumpStep, I.CallStep,
      Select.AluCode, EndCode, JumpCode, LoadImm, I.EndSem, I.NegSem, CallCode, I.LddwValue, LddwBits, StoreBits;
    match op
    case Alu(w, a, o) => AluMatches(f, vm.insts, s, x, inst, w, a, o, ext, str);
    case Neg(w) => SimNeg(f, vm.insts, s, x, inst, w, ext, str);
    case End(big) => SimEnd(f, vm.insts, s, x, inst, big, ext, str);
    case Ldx(sz) => SimLoad(f, vm.insts, s, x, inst, sz, vm, ctx, ext, str);
    case St(sz) => SimStore(f, vm.insts, s, x, inst, op, vm, ctx, ext, str);
    case Stx(sz) => SimStore(f, vm.insts, s, x, inst, op, vm, ctx, ext, str);
    case Lddw => LddwMatches(p, vm, h, ctx, f, s, x, ext, str, inst);
    case Ja => SimJa(f, vm.insts, s, x, inst, ext, str);
    case Jmp(c, o) => SimJump(f, vm.insts, s, x, inst, c, o, ext, str);
    case Exit => SimExit(f, vm.insts, s, x, inst, ext, str);
    case Call => SimCall(f, vm.insts, s, x, inst, p, vm, h, ext, str);
  }

  lemma AluMatches(f: Frame, insts: seq<Inst>, s: I.State, x: XState, inst: Inst, w: Width, a: AluOp, o: Operand,
                   ext: External, str: u64)
    requires s.pc < |insts| && Start(f, insts, s, x, inst, Alu(w, a, o))
    ensures Matches(f, insts, s.pc, I.AluStep(s, inst, w, a, o),
                    ExecBlock(Select.AluCode(s.pc, w, a, o, MapRegister(inst.dst), MapRegister(inst.src), inst.imm),
                      ext, str, x))
      <==> (Agrees(inst, Alu(w, a, o), s.regs) || I.AluStep(s, inst, w, a, o).Undefined?)
  {
    hide Start, Matches, ExecBlock, I.AluStep, Select.AluCode, DivAgrees;
    if IsBasic(a) {
      SimBasic(f, insts, s, x, inst, w, a, o, ext, str);
    } else if IsShift(a) {
      SimShift(f, insts, s, x, inst, w, a, o, ext, str);
    } else if a.Mov? {
      SimMov(f, insts, s, x, inst, w, o, ext, str);
    } else {
      SimMulDiv(f, insts, s, x, inst, w, a, o, ext, str);
    }
  }

  lemma LddwMatches(p: Source, vm: I.Vm, h: I.Helpers, ctx: I.Ctx, f: Frame, s: I.State, x: XState, ext: External,
                    str: u64, inst: Inst)
    requires Compiles(p, vm) && s.pc < |vm.insts| && Start(f, vm.insts, s, x, inst, Lddw)
    ensures Matches(f, vm.insts, s.pc, I.Execute(vm, h, ctx, s, inst, Lddw),
                    ExecBlock(OpCode(p, s.pc, inst, Lddw, MapRegister(inst.dst), MapRegister(inst.src)), ext, str, x))
  {
    hide Holding, FrameOk, ExecBlock, LoadImm, LddwBits, I.LddwValue, Agrees;
    assert I.Advance(s.pc, 1) == s.pc + 1;
    if s.pc + 1 < |vm.insts| {
      assert I.Advance(s.pc + 1, 1) == s.pc + 2;
      SimLddw(f, vm.insts, s, x, inst, ext, str);
    } else {
      assert I.Execute(vm, h, ctx, s, inst, Lddw) == I.Undefined;
    }
  }

  /**
   * A program that loads from address 0 and returns: validation accepts it, the interpreter refuses the load, and the
   * code makes it.
   */
  lemma RefusedLoad(p: Source, h: I.Helpers, ctx: I.Ctx, garbage: I.Regs, m: Mem, x: XState, ext: External, str: u64)
    requires p.insts == [Inst(0x71, 0, 1, 0, 0), Inst(0x95, 0, 0, 0, 0)] && ctx.mem == 0 && ctx.stack > 0
    requires x.regs[RDI] == 0 && 0 in x.mem
    ensures var vm := I.Vm(p.insts, true, seq(MAX_EXT_FUNCS, _ => 0), -1);
      var s := I.Initial(ctx, garbage, m);
      V.Runnable(vm) && I.Step(vm, h, ctx, s) == I.OutOfBounds(0, m) && !AgreesAt(vm, ctx, s)
    ensures Load(x.mem, 0, 1) < TWO64
    ensures ExecBlock(Code(p, 0), ext, str, x) == Fall(XState(x.regs[RAX := Load(x.mem, 0, 1)], x.flags, x.mem))
  {
    MapValues();
    assert DecodeOp(0x71) == Some(Ldx(S8)) by { OpcodeTable(Ldx(S8), 0x71); }
    assert DecodeOp(0x95) == Some(Exit) by { OpcodeTable(Exit, 0x95); }
    assert V.Starts(p.insts, 0) == {0, 1} by { assert V.Starts(p.insts, 2) == {}; }
    LoadRuns(S8, RDI, RAX, 0, x.mem, ext, x);
    assert Code(p, 0) == [Plain(Ld(S8, RDI, RAX, 0))];
    hide Exec, Load;
    ExecOne(Ld(S8, RDI, RAX, 0), ext, str, x);
  }

  // ----- registers that a call may change -----

  /** The program's registers as the machine has them. */
  function Actual(r: I.Regs, x: XState): I.Regs
  {
    var q: seq<u64> := seq(16, i requires 0 <= i < 16 => ActualReg(r, x, i));
    q
  }

  function ActualReg(r: I.Regs, x: XState, i: nat): u64
    requires i < 16
  {
    if i <= 10 then x.regs[REGISTER_MAP[i]] else r[i]
  }

  lemma ActualHolds(f: Frame, dead: set<nat>, r: I.Regs, m: Mem, x: XState)
    requires HoldingBut(f, dead, r, m, x)
    ensures Holding(f, Actual(r, x), m, x) && SameBut(dead, r, Actual(r, x))
  {
    hide MemRel;
  }

  /** As `Matches`, but for the registers that are dead in front of the next slot. */
  ghost predicate Answers(f: Frame, insts: seq<Inst>, dead: seq<set<nat>>, pc: nat, o: I.Outcome, b: BlockEnd)
    requires pc < |insts|
  {
    match o
    case Next(s) =>
      && ((b.Fall? && s.pc == V.After(insts, pc)) || (b.Goto? && b.target == ToSlot(s.pc) && s.pc < |insts|))
      && s.pc < |dead| && HoldingBut(f, dead[s.pc], s.regs, s.mem, b.st)
    case _ => Matches(f, insts, pc, o, b)
  }

  /** What the code is compared on does not depend on dead registers either. */
  lemma AgreesAlike(vm: I.Vm, ctx: I.Ctx, inst: Inst, op: Op, r: I.Regs, q: I.Regs, dead: set<nat>, arity: seq<nat>)
    requires inst.dst <= 10 && inst.src <= 10 && SameBut(dead, r, q) && Uses(inst, op, arity) !! dead
    ensures Agrees(inst, op, r) <==> Agrees(inst, op, q)
    ensures Allowed(vm, ctx, inst, op, r) <==> Allowed(vm, ctx, inst, op, q)
  {
    hide Pow2, Narrow, DivAgrees, BetweenExtensions, I.InBounds;
  }

  /** A block that answers the step from the machine's registers answers the step. */
  lemma AnswersAlike(f: Frame, insts: seq<Inst>, dead: seq<set<nat>>, d: set<nat>, pc: nat, o: I.Outcome, q: I.Outcome,
                     b: BlockEnd)
    requires pc < |insts| && Alike(d, o, q) && Matches(f, insts, pc, q, b)
    requires o.Next? ==> o.s.pc < |dead| && d <= dead[o.s.pc]
    ensures Answers(f, insts, dead, pc, o, b)
  {
    hide MemRel;
  }

  lemma CallAnswers(p: Source, vm: I.Vm, h: I.Helpers, ctx: I.Ctx, f: Frame, s: I.State, x: XState, ext: External,
                    str: u64, c: Convention, inst: Inst)
    requires Compiles(p, vm) && s.pc < |vm.insts| && Start(f, vm.insts, s.(regs := Actual(s.regs, x)), x, inst, Call)
    requires HelpersOk(f, ext, h, c.scratch, vm.extFuncs) && Takes(h, vm.extFuncs, c.arity) && s.pc < |c.dead|
    requires HoldingBut(f, c.dead[s.pc], s.regs, s.mem, x) && Uses(inst, Call, c.arity) !! c.dead[s.pc]
    requires var o := I.CallStep(vm, h, s, inst);
      !o.Undefined? && (o.Next? ==>
        o.s.pc < |c.dead| && DeadBehind(inst, Call, c.scratch, c.dead[s.pc]) <= c.dead[o.s.pc])
    ensures Answers(f, vm.insts, c.dead, s.pc, I.CallStep(vm, h, s, inst),
                    ExecBlock(OpCode(p, s.pc, inst, Call, MapRegister(inst.dst), MapRegister(inst.src)), ext, str, x))
  {
    hide ExecBlock, MemRel, FrameOk, OpCode, HelpersOk, Takes, Uses;
    var q := Actual(s.regs, x);
    ActualHolds(f, c.dead[s.pc], s.regs, s.mem, x);
    hide Actual;
    var s' := s.(regs := q);
    Operands(f, vm.insts, s', x, inst, Call);
    CallEnds(f, vm.insts, s', x, inst, p, vm, h, c.scratch, ext, str);
    CallAlike(vm, h, s.regs, q, s.mem, inst, c.dead[s.pc], c.arity);
  }

  /** Every defined step on which code and interpreter agree is answered, whatever the dead registers hold. */
  lemma StepAnswers(p: Source, vm: I.Vm, h: I.Helpers, ctx: I.Ctx, f: Frame, s: I.State, x: XState, ext: External,
                    str: u64, c: Convention)
    requires V.Runnable(vm) && Compiles(p, vm) && V.Good(vm, ctx, s) && s.pc < |vm.insts| && Follows(vm.insts, c)
    requires FrameOk(f) && HoldingBut(f, c.dead[s.pc], s.regs, s.mem, x)
    requires HelpersOk(f, ext, h, c.scratch, vm.extFuncs) && Takes(h, vm.extFuncs, c.arity)
    requires AgreesAt(vm, ctx, s) && !I.Step(vm, h, ctx, s).Undefined?
    ensures Answers(f, vm.insts, c.dead, s.pc, I.Step(vm, h, ctx, s), ExecBlock(Code(p, s.pc), ext, str, x))
  {
    hide DecodeOp, Agrees, Allowed, HoldingBut, HelpersOk, Takes, ExecBlock, I.Execute, Follows, Uses, DeadBehind,
      OpCode, Answers, Matches, V.Starts, V.InstError, V.Accepted, FrameOk, Holding, Actual;
    V.StartFacts(vm, s.pc);
    SomeDead(vm.insts, c);
    SlotFacts(vm, c, s.pc);
    var inst := vm.insts[s.pc];
    var op := DecodeOp(inst.opcode).value;
    var q, dead, o := Actual(s.regs, x), c.dead[s.pc], I.Step(vm, h, ctx, s);
    var s' := s.(regs := q);
    ActualHolds(f, dead, s.regs, s.mem, x);
    assert Start(f, vm.insts, s', x, inst, op) by { StartHolds(vm, f, s', x, inst, op); }
    assert Code(p, s.pc) == OpCode(p, s.pc, inst, op, MapRegister(inst.dst), MapRegister(inst.src));
    assert o == I.Execute(vm, h, ctx, s, inst, op);
    if o.Next? {
      GoesToSuccessor(vm, h, ctx, s, c);
    }
    hide Start, V.Good, V.Runnable, I.Step;
    if op.Call? {
      CallIs(vm, h, ctx, s, inst);
      CallAnswers(p, vm, h, ctx, f, s, x, ext, str, c, inst);
    } else {
      AgreesAlike(vm, ctx, inst, op, s.regs, q, dead, c.arity);
      ExecuteAlike(vm, h, ctx, s, q, inst, op, dead, c.arity);
      ExecuteMatches(p, vm, h, ctx, f, s', x, ext, str, inst, op);
      BehindOther(inst, op, c.scratch, dead);
      AnswersAlike(f, vm.insts, c.dead, dead - Sets(inst, op), s.pc, o, I.Execute(vm, h, ctx, s', inst, op),
                   ExecBlock(Code(p, s.pc), ext, str, x));
    }
  }

  lemma CallIs(vm: I.Vm, h: I.Helpers, ctx: I.Ctx, s: I.State, inst: Inst)
    ensures I.Execute(vm, h, ctx, s, inst, Call) == I.CallStep(vm, h, s, inst)
  {
  }

  // ----- one step on the machine -----

  /** The machine at the code of slot `pc`. */
  function AtPc(p: Source, pc: nat, x: XState): Config { At(PcPlace(p, pc), x) }

  /** Running the code linked for slot `k` from its place. */
  lemma CodeOnMachine(p: Source, k: nat, base: u64, ext: External, x: XState) returns (n: nat)
    requires V.IsStart(p.insts, k) && k < |p.insts| && p.insts[k].dst <= 10 && p.insts[k].src <= 10
    requires |Image(p)| < TWO31
    requires !ExecBlock(Code(p, k), ext, Wrap64(base + PlacesOf(p).strings), x).Crash?
    ensures Ticks(Image(p), base, ext, AtPc(p, k, x), n) ==
      EndConfig(ExecBlock(Code(p, k), ext, Wrap64(base + PlacesOf(p).strings), x), PlacesOf(p),
        PcPlace(p, V.After(p.insts, k)))
  {
    hide Code, ExecBlock, Image, Link, PlacesOf, AllCode, Ticks, EndConfig, V.Starts, V.After, PcPlace, CodeLen,
      AllWellFormed, PlacesFit;
    var a, b := ImageAround(p, k);
    var pre, post := ImageSplit(p, a, Code(p, k), b);
    FallPlace(p, k);
    PlacesInside(p);
    CodeWellFormed(p, k);
    n := BlockRuns(pre, Code(p, k), post, PlacesOf(p), base, ext, x);
  }

  /** A piece of frame code, run in place. */
  lemma PieceOnMachine(p: Source, a: seq<Asm>, c: seq<Asm>, b: seq<Asm>, base: u64, ext: External, x: XState)
    returns (n: nat)
    requires AllCode(p) == a + c + b && AllWellFormed(c) && |Image(p)| < TWO31
    requires !ExecBlock(c, ext, Wrap64(base + PlacesOf(p).strings), x).Crash?
    ensures Ticks(Image(p), base, ext, At(CodeLen(a), x), n) ==
      EndConfig(ExecBlock(c, ext, Wrap64(base + PlacesOf(p).strings), x), PlacesOf(p), CodeLen(a) + CodeLen(c))
  {
    hide ExecBlock, Image, Link, PlacesOf, AllCode, Ticks, EndConfig, CodeLen, AllWellFormed, PlacesFit;
    var pre, post := ImageSplit(p, a, c, b);
    PlacesInside(p);
    n := BlockRuns(pre, c, post, PlacesOf(p), base, ext, x);
  }

  /** What the machine has reached when the interpreter's outcome is `o`. */
  ghost predicate Reached(p: Source, f: Frame, dead: seq<set<nat>>, o: I.Outcome, c: Config)
  {
    match o
    case Next(s) => c.At? && c.pc == PcPlace(p, s.pc) && s.pc < |dead| && HoldingBut(f, dead[s.pc], s.regs, s.mem, c.st)
    case Returned(v, m) => c.At? && c.pc == PlacesOf(p).exit && c.st.regs[RAX] == v && MemRel(f, m, c.st)
    case DivideByZero(_, m) => c.At? && c.pc == PlacesOf(p).divByZero && MemRel(f, m, c.st)
    case OutOfBounds(_, m) => c.At? && c.pc == PlacesOf(p).exit && c.st.regs[RAX] == TWO64 - 1 && MemRel(f, m, c.st)
    case Undefined => true
  }

  /** An answering block end puts the machine where the outcome belongs. */
  lemma AnswersReached(p: Source, f: Frame, dead: seq<set<nat>>, pc: nat, o: I.Outcome, b: BlockEnd)
    requires pc < |p.insts| && Answers(f, p.insts, dead, pc, o, b) && !o.Undefined?
    requires o.Next? ==> V.IsStart(p.insts, o.s.pc) || o.s.pc == V.After(p.insts, pc)
    requires o.Next? && o.s.pc < |p.insts| ==> V.IsStart(p.insts, o.s.pc)
    requires o.Returned? && b.Fall? ==> PcPlace(p, V.After(p.insts, pc)) == PlacesOf(p).exit
    ensures Reached(p, f, dead, o, EndConfig(b, PlacesOf(p), PcPlace(p, V.After(p.insts, pc)))) && !b.Crash?
  {
    hide HoldingBut, Holding, MemRel, BodyCode, AllCode, Code, Prologue, Epilogue, DivHandler;
    if o.Next? && b.Goto? {
      LocsKeys(p, 0, CodeLen(Prologue()));
      assert TargetPc(ToSlot(o.s.pc)) == o.s.pc;
    }
  }

  /** The place after the last instruction is the epilogue. */
  lemma EndPlace(p: Source, pc: nat)
    requires pc >= |p.insts|
    ensures PcPlace(p, pc) == PlacesOf(p).exit
  {
    hide BodyCode, Code, Prologue, Epilogue, DivHandler, V.Starts;
    LocsKeys(p, 0, CodeLen(Prologue()));
    V.StartsBounded(p.insts, 0);
  }

  /** Exactly where generated code and interpreter agree on the instruction in front of which the program is. */
  predicate AgreesAt(vm: I.Vm, ctx: I.Ctx, s: I.State)
  {
    s.pc < |vm.insts| && DecodeOp(vm.insts[s.pc].opcode).Some? ==>
      var inst, op := vm.insts[s.pc], DecodeOp(vm.insts[s.pc].opcode).value;
      Agrees(inst, op, s.regs) && Allowed(vm, ctx, inst, op, s.regs)
  }

  /** One interpreter step is answered by finitely many machine steps. */
  lemma StepOnMachine(p: Source, vm: I.Vm, h: I.Helpers, ctx: I.Ctx, f: Frame, base: u64, ext: External, c: Convention,
                      s: I.State, x: XState)
    returns (n: nat)
    requires V.Runnable(vm) && Compiles(p, vm) && V.Good(vm, ctx, s) && s.pc < |vm.insts| && |Image(p)| < TWO31
    requires Follows(vm.insts, c) && Takes(h, vm.extFuncs, c.arity) && HelpersOk(f, ext, h, c.scratch, vm.extFuncs)
    requires FrameOk(f) && HoldingBut(f, c.dead[s.pc], s.regs, s.mem, x)
    requires AgreesAt(vm, ctx, s) && !I.Step(vm, h, ctx, s).Undefined?
    ensures Reached(p, f, c.dead, I.Step(vm, h, ctx, s), Ticks(Image(p), base, ext, AtPc(p, s.pc, x), n))
  {
    hide I.Step, Code, ExecBlock, Image, PlacesOf, Ticks, Reached, Holding, HelpersOk, FrameOk, Agrees, PcPlace,
      DecodeOp;
    var str := Wrap64(base + PlacesOf(p).strings);
    var o, b := I.Step(vm, h, ctx, s), ExecBlock(Code(p, s.pc), ext, str, x);
    V.StartFacts(vm, s.pc);
    StepAnswers(p, vm, h, ctx, f, s, x, ext, str, c);
    if o.Next? {
      NextStart(vm, h, ctx, s);
    }
    if o.Returned? && b.Fall? {
      EndPlace(p, V.After(vm.insts, s.pc));
    }
    hide Answers, Matches;
    AnswersReached(p, f, c.dead, s.pc, o, b);
    n := CodeOnMachine(p, s.pc, base, ext, x);
  }

  lemma NextStart(vm: I.Vm, h: I.Helpers, ctx: I.Ctx, s: I.State)
    requires V.Runnable(vm) && V.Good(vm, ctx, s) && s.pc < |vm.insts| && I.Step(vm, h, ctx, s).Next?
    ensures var t := I.Step(vm, h, ctx, s).s;
      V.IsStart(vm.insts, t.pc) || (t.pc == |vm.insts| && t.pc == V.After(vm.insts, s.pc))
  {
    hide I.Step, I.Taken;
    V.StepKeepsGood(vm, h, ctx, s);
    V.StepGoesTo(vm, h, ctx, s);
    V.StartFacts(vm, s.pc);
    var op := DecodeOp(vm.insts[s.pc].opcode).value;
    if op.Ja? || op.Jmp? {
      V.JumpFacts(vm, s.pc);
    }
  }

  // ----- whole runs -----

  /** Generated code and interpreter agree on every step of the run. */
  predicate AgreesAlong(vm: I.Vm, h: I.Helpers, ctx: I.Ctx, s: I.State, fuel: nat)
    decreases fuel
  {
    fuel > 0 ==>
      && AgreesAt(vm, ctx, s)
      && var o := I.Step(vm, h, ctx, s);
         (o.Next? ==> AgreesAlong(vm, h, ctx, o.s, fuel - 1))
  }

  /** What the caller of the interpreter sees: the returned value, or all ones on an error. */
  function Observable(o: I.Outcome): u64
    requires R.Finished(o)
  {
    if o.Returned? then o.ret else TWO64 - 1
  }

  /** The generated function has returned `r`, kept the calling convention and left memory `m` to the program. */
  ghost predicate ReturnedWell(c: Config, r: u64, m: Mem, top: int, v: Regs)
  {
    && c.Halted? && c.st.regs[RAX] == r && Contains(c.st.mem, m)
    && c.st.regs[RSP] == top && forall q: reg :: q in NONVOLATILE ==> c.st.regs[q] == v[q]
  }

  /** Where the pieces of the whole code start. */
  lemma Pieces(p: Source)
    ensures AllCode(p) == [] + Prologue() + (BodyCode(p, 0) + Epilogue() + DivHandler(p))
    ensures AllCode(p) == (Prologue() + BodyCode(p, 0)) + Epilogue() + DivHandler(p)
    ensures AllCode(p) == (Prologue() + BodyCode(p, 0) + Epilogue()) + DivHandler(p) + []
    ensures CodeLen(Prologue() + BodyCode(p, 0)) == PlacesOf(p).exit
    ensures CodeLen(Prologue() + BodyCode(p, 0) + Epilogue()) == PlacesOf(p).divByZero
    ensures p.insts != [] ==> PcPlace(p, 0) == CodeLen(Prologue())
  {
    hide Prologue, Epilogue, DivHandler, BodyCode, CodeLen, Code;
    CodeLenAppend(Prologue(), BodyCode(p, 0));
    CodeLenAppend(Prologue() + BodyCode(p, 0), Epilogue());
  }

  /** From the epilogue's place the function returns. */
  lemma FinishAtExit(p: Source, f: Frame, base: u64, ext: External, x: XState, m: Mem, v: Regs) returns (n: nat)
    requires |Image(p)| < TWO31 && FrameOk(f) && MemRel(f, m, x)
    requires SavedBelow(NONVOLATILE, v, x.mem, f.sp + STACK_SIZE + SAVED)
    ensures ReturnedWell(Ticks(Image(p), base, ext, At(PlacesOf(p).exit, x), n), x.regs[RAX], m,
      f.sp + STACK_SIZE + SAVED, v)
  {
    hide ExecBlock, Image, Ticks, SavedBelow, Prologue, Epilogue, DivHandler, BodyCode, PlacesOf, FrameOk, AllCode,
      CodeLen, AllWellFormed;
    EpilogueRuns(ext, Wrap64(base + PlacesOf(p).strings), f, m, x, v);
    FrameCodeWellFormed(p);
    Pieces(p);
    n := PieceOnMachine(p, Prologue() + BodyCode(p, 0), Epilogue(), DivHandler(p), base, ext, x);
  }

  /** From the division handler's place the function returns -1. */
  lemma FinishAtHandler(p: Source, f: Frame, base: u64, ext: External, x: XState, m: Mem, v: Regs) returns (n: nat)
    requires |Image(p)| < TWO31 && FrameOk(f) && MemRel(f, m, x) && PrinterOk(f, ext, p.errorPrintf)
    requires SavedBelow(NONVOLATILE, v, x.mem, f.sp + STACK_SIZE + SAVED)
    ensures ReturnedWell(Ticks(Image(p), base, ext, At(PlacesOf(p).divByZero, x), n), TWO64 - 1, m,
      f.sp + STACK_SIZE + SAVED, v)
  {
    hide ExecBlock, Image, Ticks, SavedBelow, Prologue, Epilogue, DivHandler, BodyCode, PlacesOf, FrameOk, PrinterOk,
      ReturnedWell, MemRel, AllCode, CodeLen, AllWellFormed;
    var str := Wrap64(base + PlacesOf(p).strings);
    var front := Prologue() + BodyCode(p, 0) + Epilogue();
    HandlerRuns(p, ext, str, f, m, x);
    FrameCodeWellFormed(p);
    Pieces(p);
    var k := PieceOnMachine(p, front, DivHandler(p), [], base, ext, x);
    var y := ExecBlock(DivHandler(p), ext, str, x).st;
    StillSaved(f, m, x, m, y, v);
    var j := FinishAtExit(p, f, base, ext, y, m, v);
    TicksAdd(Image(p), base, ext, At(PlacesOf(p).divByZero, x), k, j);
    n := k + j;
  }

  lemma ProgramBounded(vm: I.Vm, p: Source)
    requires V.Runnable(vm) && Compiles(p, vm)
    ensures |Image(p)| < TWO31
  {
    hide Image;
    ImageBounded(p);
  }

  /** A finishing run of the interpreter, replayed by the machine from the code of its first instruction. */
  lemma {:induction false} RunOnMachine(p: Source, vm: I.Vm, h: I.Helpers, ctx: I.Ctx, f: Frame, base: u64,
                                        ext: External, c: Convention, s: I.State, x: XState, v: Regs, fuel: nat)
    returns (n: nat)
    requires V.Runnable(vm) && Compiles(p, vm) && V.Good(vm, ctx, s)
    requires Follows(vm.insts, c) && Takes(h, vm.extFuncs, c.arity) && s.pc < |c.dead|
    requires FrameOk(f) && HoldingBut(f, c.dead[s.pc], s.regs, s.mem, x)
    requires SavedBelow(NONVOLATILE, v, x.mem, f.sp + STACK_SIZE + SAVED)
    requires HelpersOk(f, ext, h, c.scratch, vm.extFuncs) && PrinterOk(f, ext, p.errorPrintf)
    requires AgreesAlong(vm, h, ctx, s, fuel) && R.Finished(I.Run(vm, h, ctx, s, fuel))
    ensures var o := I.Run(vm, h, ctx, s, fuel);
      ReturnedWell(Ticks(Image(p), base, ext, AtPc(p, s.pc, x), n), Observable(o), R.MemOf(o),
        f.sp + STACK_SIZE + SAVED, v)
    decreases fuel
  {
    hide I.Step, Image, Ticks, HoldingBut, HelpersOk, PrinterOk, FrameOk, SavedBelow, PlacesOf, PcPlace, ReturnedWell,
      V.Runnable, AgreesAt, Follows, Takes;
    var o := I.Step(vm, h, ctx, s);
    assert |Image(p)| < TWO31 by { ProgramBounded(vm, p); }
    R.StepInside(vm, h, ctx, s);
    var k := StepOnMachine(p, vm, h, ctx, f, base, ext, c, s, x);
    var y := Ticks(Image(p), base, ext, AtPc(p, s.pc, x), k);
    HeldMem(f, c.dead[s.pc], s.regs, s.mem, x);
    var j;
    match o {
      case Next(t) =>
        V.StepKeepsGood(vm, h, ctx, s);
        HeldMem(f, c.dead[t.pc], t.regs, t.mem, y.st);
        StillSaved(f, s.mem, x, t.mem, y.st, v);
        j := RunOnMachine(p, vm, h, ctx, f, base, ext, c, t, y.st, v, fuel - 1);
      case Returned(r, m) =>
        StillSaved(f, s.mem, x, m, y.st, v);
        j := FinishAtExit(p, f, base, ext, y.st, m, v);
      case DivideByZero(_, m) =>
        StillSaved(f, s.mem, x, m, y.st, v);
        j := FinishAtHandler(p, f, base, ext, y.st, m, v);
      case OutOfBounds(_, m) =>
        StillSaved(f, s.mem, x, m, y.st, v);
        j := FinishAtExit(p, f, base, ext, y.st, m, v);
    }
    TicksAdd(Image(p), base, ext, AtPc(p, s.pc, x), k, j);
    n := k + j;
  }

  lemma HeldMem(f: Frame, dead: set<nat>, r: I.Regs, m: Mem, x: XState)
    requires HoldingBut(f, dead, r, m, x)
    ensures MemRel(f, m, x)
  {
  }

  lemma EntryGood(vm: I.Vm, x: XState, m: Mem)
    requires V.Runnable(vm)
    ensures V.Good(vm, CtxOf(x), EntryState(x, m)) && EntryState(x, m).pc == 0 && EntryState(x, m).mem == m
  {
    R.InitialIsGood(vm, CtxOf(x), GarbageOf(x), m);
  }

  lemma FinishedRunStarted(vm: I.Vm, h: I.Helpers, ctx: I.Ctx, s: I.State, fuel: nat)
    requires R.Finished(I.Run(vm, h, ctx, s, fuel))
    ensures s.pc < |vm.insts|
  {
    hide I.Step;
    R.StepInside(vm, h, ctx, s);
  }

  /** The frames an activation entered in state `x` can have. */
  ghost predicate FrameOf(f: Frame, x: XState, m: Mem)
  {
    f.sp == x.regs[RSP] - SAVED - STACK_SIZE && f.dom == m.Keys
  }

  /**
   * External code keeps the calling convention, whatever the saved registers hold: helpers may change registers in
   * `scratch`, the printer any but the stack pointer.
   */
  ghost predicate ExternalOk(ext: External, h: I.Helpers, scratch: set<nat>, fns: seq<u64>, printer: u64, x: XState,
                             m: Mem)
  {
    forall f: Frame :: FrameOf(f, x, m) ==> HelpersOk(f, ext, h, scratch, fns) && PrinterOk(f, ext, printer)
  }

  /**
   * The code generator preserves meaning. Take any validated program that keeps to a calling convention with its
   * helpers, the image generated for it, and any machine state with room for the activation. If the interpreter,
   * started on the same arguments, registers and memory with its stack where the generated code puts it, finishes
   * within any number of steps, with a result or an error, and generated code and interpreter agree on each step, then
   * executing the image's bytes from offset 0 returns the same observable result and memory, with the stack pointer and
   * the nonvolatile registers restored.
   */
  lemma JitPreservesMeaning(p: Source, vm: I.Vm, h: I.Helpers, c: Convention, base: u64, ext: External, x: XState,
                            m: Mem, fuel: nat)
    returns (n: nat)
    requires V.Runnable(vm) && Compiles(p, vm) && Follows(vm.insts, c) && Takes(h, vm.extFuncs, c.arity)
    requires EntryOk(x, m) && ExternalOk(ext, h, c.scratch, vm.extFuncs, p.errorPrintf, x, m)
    requires AgreesAlong(vm, h, CtxOf(x), EntryState(x, m), fuel)
    requires R.Finished(I.Run(vm, h, CtxOf(x), EntryState(x, m), fuel))
    ensures var o := I.Run(vm, h, CtxOf(x), EntryState(x, m), fuel);
      ReturnedWell(Ticks(Image(p), base, ext, At(0, x), n), Observable(o), R.MemOf(o), x.regs[RSP], x.regs)
  {
    hide I.Run, ExecBlock, Image, Ticks, Follows, Takes, HelpersOk, MemRel, PrinterOk, FrameOk, SavedBelow,
      ReturnedWell, V.Runnable, AgreesAlong, Prologue, Epilogue, DivHandler, BodyCode, PlacesOf, AllCode, CodeLen,
      AllWellFormed, EntryOk, PcPlace, CtxOf, EntryState, V.Good;
    var ctx, s := CtxOf(x), EntryState(x, m);
    var str := Wrap64(base + PlacesOf(p).strings);
    EntryGood(vm, x, m);
    assert |Image(p)| < TWO31 by { ProgramBounded(vm, p); }
    assert vm.insts != [] by { FinishedRunStarted(vm, h, ctx, s, fuel); }
    assert 0 < |c.dead| by { SomeDead(vm.insts, c); }
    var f := PrologueRuns(ext, str, x, m);
    assert FrameOf(f, x, m);
    var y := ExecBlock(Prologue(), ext, str, x).st;
    FrameCodeWellFormed(p);
    Pieces(p);
    assert CodeLen([]) == 0 by { NoCode(); }
    var k := PieceOnMachine(p, [], Prologue(), BodyCode(p, 0) + Epilogue() + DivHandler(p), base, ext, x);
    var j := RunOnMachine(p, vm, h, ctx, f, base, ext, c, s, y, x.regs, fuel);
    TicksAdd(Image(p), base, ext, At(0, x), k, j);
    n := k + j;
  }
}
