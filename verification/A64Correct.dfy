/**
 * AArch64 code preserves meaning: from interpreter runs to runs of the emitted words, by way of single steps, the
 * entry, the return and the division handler. The main theorem is at the end.
 */
module A64Correct {
  import opened Words
  import opened Ebpf
  import opened Memory
  import opened A64
  import opened A64Moves
  import opened A64Select
  import opened A64Exec
  import opened A64Simulation
  import opened A64Steps
  import opened A64Layout
  import opened A64Frame
  import opened Calls
  import S = Select
  import J = JitCorrect
  import I = Interp
  import V = Validator
  import R = Runs

  /** The code of a program, finished, in a buffer that ends with the string table. */
  ghost predicate Linked(code: seq<byte>, p: S.Source, str: u64)
  {
    |code| < MAX_IMAGE && 4 * |AllItems(p, str)| <= |code| && InPlace(code, 0, AllItems(p, str), PlacesOf(p))
  }

  function StringAddress(p: S.Source, base: u64): u64 { Wrap64(base + PlacesOf(p).strings) }

  lemma GoodOne(p: S.Source, base: u64, n: nat, item: Item)
    requires 4 * |AllItems(p, StringAddress(p, base))| <= n && (item.Address? ==> item.value == StringAddress(p, base))
    ensures GoodItem(item, PlacesOf(p), base, n)
  {
    hide AllItems, PlacesOf, GoodTarget, StringAddress;
    var str := StringAddress(p, base);
    match item
    case To(t) => TargetStays(p, str, t, n);
    case If(_, t) => TargetStays(p, str, t, n);
    case Address(_, _) =>
      PlacesSum(p, str);
      AddressIs(p, base);
    case Do(_) =>
  }

  lemma GoodPiece(p: S.Source, base: u64, n: nat, items: seq<Item>)
    requires 4 * |AllItems(p, StringAddress(p, base))| <= n
    requires forall i :: 0 <= i < |items| ==> items[i].Address? ==> items[i].value == StringAddress(p, base)
    ensures GoodItems(items, PlacesOf(p), base, n)
  {
    hide AllItems, PlacesOf, GoodItem, StringAddress;
    forall i | 0 <= i < |items| ensures GoodItem(items[i], PlacesOf(p), base, n) {
      GoodOne(p, base, n, items[i]);
    }
  }

  lemma AddressIs(p: S.Source, base: u64)
    ensures StringAddress(p, base) == Wrap64(base + PlacesOf(p).strings)
  {
    hide PlacesOf;
  }

  lemma TargetStays(p: S.Source, str: u64, t: S.Target, n: nat)
    requires 4 * |AllItems(p, str)| <= n
    ensures GoodTarget(PlacesOf(p), t, n)
  {
    EveryTarget(p, str, t);
  }

  /** A piece of the code runs on the machine as its block does. */
  lemma PieceOnMachine(code: seq<byte>, p: S.Source, base: u64, ext: External, a: seq<Item>, b: seq<Item>, c: seq<Item>,
                       x: AState)
    returns (n: nat)
    requires Linked(code, p, StringAddress(p, base)) && AllItems(p, StringAddress(p, base)) == a + (b + c)
    requires AllProper(b)
    requires forall i :: 0 <= i < |b| ==> b[i].Address? ==> b[i].value == StringAddress(p, base)
    requires !ExecBlock(b, ext, x).Crash?
    ensures Ticks(code, base, ext, At(4 * |a|, x), n) == EndsAt(ExecBlock(b, ext, x), 4 * (|a| + |b|), PlacesOf(p))
  {
    var str := StringAddress(p, base);
    hide InPlace, PlacesOf, AllProper, GoodItems, ExecBlock, StringAddress;
    assert |AllItems(p, str)| == |a| + |b| + |c|;
    hide AllItems;
    InPlacePart(code, AllItems(p, str), PlacesOf(p), a, b, c);
    GoodPiece(p, base, |code|, b);
    PlacesSum(p, str);
    n := BlockOnMachine(code, base, ext, |a|, b, PlacesOf(p), x);
  }

  lemma NoAddresses(p: S.Source, k: nat, v: u64)
    requires k < |p.insts|
    ensures forall i :: 0 <= i < |Code(p, k)| ==> !Code(p, k)[i].Address?
  {
    hide MoveCode, S.LddwBits, DecodeOp;
  }

  // ----- registers that a call may change -----

  /** As `Holding`, but for the registers in `dead`. */
  ghost predicate HoldingBut(f: Frame, dead: set<nat>, r: I.Regs, m: Mem, x: AState)
  {
    (forall i :: 0 <= i <= 10 && i !in dead ==> x.regs[REGISTER_MAP[i]] == r[i]) && MemRel(f, m, x)
  }

  /** The program's registers as the machine has them. */
  function Actual(r: I.Regs, x: AState): I.Regs
  {
    var q: seq<u64> := seq(16, i requires 0 <= i < 16 => ActualReg(r, x, i));
    q
  }

  function ActualReg(r: I.Regs, x: AState, i: nat): u64
    requires i < 16
  {
    if i <= 10 then x.regs[REGISTER_MAP[i]] else r[i]
  }

  lemma ActualHolds(f: Frame, dead: set<nat>, r: I.Regs, m: Mem, x: AState)
    requires HoldingBut(f, dead, r, m, x)
    ensures Holding(f, Actual(r, x), m, x) && SameBut(dead, r, Actual(r, x))
  {
    hide MemRel;
  }

  /** As `Matches`, but for the registers that are dead in front of the next slot. */
  ghost predicate Answers(f: Frame, insts: seq<Inst>, dead: seq<set<nat>>, pc: nat, o: I.Outcome, b: BlockEnd)
    requires pc < |insts|
  {
    match o
    case Next(s) =>
      && ((b.Fall? && s.pc == V.After(insts, pc)) || (b.Goto? && b.target == S.ToSlot(s.pc) && s.pc < |insts|))
      && s.pc < |dead| && HoldingBut(f, dead[s.pc], s.regs, s.mem, b.st)
    case _ => Matches(f, insts, pc, o, b)
  }

  /** What the code is compared on does not depend on dead registers either. */
  lemma AgreesAlike(inst: Inst, op: Op, r: I.Regs, q: I.Regs, dead: set<nat>, arity: seq<nat>)
    requires inst.dst <= 10 && inst.src <= 10 && SameBut(dead, r, q) && Uses(inst, op, arity) !! dead
    ensures Agrees(inst, op, r) <==> Agrees(inst, op, q)
  {
    hide Pow2, Narrow, X.BetweenExtensions;
  }

  /** A block that answers the step from the machine's registers answers the step. */
  lemma AnswersAlike(f: Frame, insts: seq<Inst>, dead: seq<set<nat>>, d: set<nat>, pc: nat, o: I.Outcome, q: I.Outcome,
                     b: BlockEnd)
    requires pc < |insts| && Alike(d, o, q) && Matches(f, insts, pc, q, b)
    requires o.Next? ==> o.s.pc < |dead| && d <= dead[o.s.pc]
    ensures Answers(f, insts, dead, pc, o, b)
  {
    hide MemRel;
  }

  /** The result of a call, but for what the convention lets it change. */
  lemma ReturnsBut(f: Frame, scratch: set<nat>, dead: set<nat>, r: I.Regs, q: I.Regs, v: u64, m: Mem, z: AState)
    requires Returns(scratch, q, v, z.regs) && MemRel(f, m, z) && SameBut(dead, r, q) && (1 in scratch || v == r[1])
    ensures HoldingBut(f, (dead - {0}) + scratch, r[0 := v], m, z)
  {
    MapValues();
    hide MemRel;
    forall i | 0 <= i <= 10 && i !in (dead - {0}) + scratch ensures z.regs[REGISTER_MAP[i]] == r[0 := v][i] {
      if i >= 2 {
        assert q[i] == r[i];
      }
    }
  }

  lemma WeakerHolding(f: Frame, d: set<nat>, e: set<nat>, r: I.Regs, m: Mem, x: AState)
    requires HoldingBut(f, d, r, m, x) && d <= e
    ensures HoldingBut(f, e, r, m, x)
  {
    hide MemRel;
  }

  lemma CallAnswers(p: S.Source, vm: I.Vm, h: I.Helpers, f: Frame, s: I.State, x: AState, q: I.Regs, ext: External,
                    c: Convention, inst: Inst)
    requires Compiles(p, vm) && s.pc < |vm.insts| && Start(f, vm.insts, s.(regs := q), x, inst, Call)
    requires HelpersOk(f, ext, h, c.scratch, vm.extFuncs) && Takes(h, vm.extFuncs, c.arity) && s.pc < |c.dead|
    requires SameBut(c.dead[s.pc], s.regs, q) && Uses(inst, Call, c.arity) !! c.dead[s.pc]
    requires 0 <= inst.imm < |vm.extFuncs| && vm.extFuncs[inst.imm] != 0
    requires 1 in c.scratch || CallAgrees(vm, h, s, inst)
    requires var o := I.CallStep(vm, h, s, inst);
      o.Next? ==> o.s.pc < |c.dead| && DeadBehind(inst, Call, c.scratch, c.dead[s.pc]) <= c.dead[o.s.pc]
    ensures Answers(f, vm.insts, c.dead, s.pc, I.CallStep(vm, h, s, inst),
                    ExecBlock(HelperCode(p.extFuncs[inst.imm], inst.imm == p.unwindIndex), ext, x))
  {
    hide ExecBlock, MemRel, Holding, HoldingBut, HelperCode, HelpersOk, Takes, Uses, Returns, SameBut;
    var s' := s.(regs := q);
    MapValues();
    Operands(f, vm.insts, s', x, inst, Call);
    CallEnds(f, vm.insts, s', x, inst, p, vm, h, c.scratch, ext);
    CallAlike(vm, h, s.regs, q, s.mem, inst, c.dead[s.pc], c.arity);
    var r := h(vm.extFuncs[inst.imm], s.regs[1..6], s.mem);
    var b := ExecBlock(HelperCode(p.extFuncs[inst.imm], inst.imm == p.unwindIndex), ext, x);
    ResultReturned(c.scratch, q, r.0, b.st.regs);
    var o := I.CallStep(vm, h, s, inst);
    if o.Next? {
      ReturnsBut(f, c.scratch, c.dead[s.pc], s.regs, q, r.0, r.1, b.st);
      WeakerHolding(f, (c.dead[s.pc] - {0}) + c.scratch, c.dead[o.s.pc], s.regs[0 := r.0], r.1, b.st);
    }
  }

  /** Every defined step on which code and interpreter agree is answered, whatever the dead registers hold. */
  lemma StepAnswers(p: S.Source, vm: I.Vm, h: I.Helpers, ctx: I.Ctx, f: Frame, s: I.State, x: AState, ext: External,
                    c: Convention)
    requires V.Runnable(vm) && Compiles(p, vm) && V.Good(vm, ctx, s) && s.pc < |vm.insts| && Follows(vm.insts, c)
    requires HoldingBut(f, c.dead[s.pc], s.regs, s.mem, x)
    requires HelpersOk(f, ext, h, c.scratch, vm.extFuncs) && Takes(h, vm.extFuncs, c.arity)
    requires AgreesAt(vm, h, ctx, c.scratch, s) && !I.Step(vm, h, ctx, s).Undefined?
    ensures Answers(f, vm.insts, c.dead, s.pc, I.Step(vm, h, ctx, s), ExecBlock(Code(p, s.pc), ext, x))
  {
    hide DecodeOp, Agrees, CallAgrees, X.Allowed, HoldingBut, HelpersOk, Takes, ExecBlock, I.Execute, Follows, Uses,
      DeadBehind, OpCode, PrefixCode, SourceRegister, Answers, Matches, V.Starts, V.InstError, V.Accepted, Holding,
      Actual, SecondOperand;
    V.StartFacts(vm, s.pc);
    SomeDead(vm.insts, c);
    SlotFacts(vm, c, s.pc);
    var inst := vm.insts[s.pc];
    var op := DecodeOp(inst.opcode).value;
    var q, dead, o := Actual(s.regs, x), c.dead[s.pc], I.Step(vm, h, ctx, s);
    var s' := s.(regs := q);
    ActualHolds(f, dead, s.regs, s.mem, x);
    StartHolds(vm, f, s', x, inst, op);
    assert o == I.Execute(vm, h, ctx, s, inst, op);
    if o.Next? {
      GoesToSuccessor(vm, h, ctx, s, c);
    }
    hide Start, V.Good, V.Runnable, I.Step;
    var code := OpCode(p, s.pc, inst, op, MapRegister(inst.dst), SourceRegister(inst, op));
    assert Code(p, s.pc) == PrefixCode(op, inst.imm) + code;
    hide Code;
    var y := PrefixRuns(f, vm.insts, s', x, inst, op, code, ext);
    if op.Call? {
      J.CallIs(vm, h, ctx, s, inst);
      CallCodeIs(p, s.pc, inst, MapRegister(inst.dst), SourceRegister(inst, op));
      CallAnswers(p, vm, h, f, s, y, q, ext, c, inst);
    } else {
      AgreesAlike(inst, op, s.regs, q, dead, c.arity);
      J.AgreesAlike(vm, ctx, inst, op, s.regs, q, dead, c.arity);
      ExecuteAlike(vm, h, ctx, s, q, inst, op, dead, c.arity);
      ExecuteMatches(p, vm, h, ctx, f, s', y, ext, inst, op);
      BehindOther(inst, op, c.scratch, dead);
      AnswersAlike(f, vm.insts, c.dead, dead - Sets(inst, op), s.pc, o, I.Execute(vm, h, ctx, s', inst, op),
                   ExecBlock(code, ext, y));
    }
  }

  lemma CallCodeIs(p: S.Source, i: nat, inst: Inst, dst: areg, src: areg)
    requires i < |p.insts| && 0 <= inst.imm < |p.extFuncs|
    ensures OpCode(p, i, inst, Call, dst, src) == HelperCode(p.extFuncs[inst.imm], inst.imm == p.unwindIndex)
  {
    hide HelperCode;
  }

  // ----- one step -----

  /** The machine at the code of slot `pc`. */
  function AtPc(p: S.Source, pc: nat, x: AState): Config { At(PcPlace(p, pc), x) }

  /** Where the machine is after the code of a step, and what it holds. */
  ghost predicate Reached(p: S.Source, f: Frame, dead: seq<set<nat>>, o: I.Outcome, c: Config)
  {
    match o
    case Next(s) =>
      c.At? && c == AtPc(p, s.pc, c.st) && s.pc < |dead| && HoldingBut(f, dead[s.pc], s.regs, s.mem, c.st)
    case Returned(v, m) => c.At? && c.pc == PlacesOf(p).exit && c.st.regs[5] == v && MemRel(f, m, c.st)
    case DivideByZero(_, m) => c.At? && c.pc == PlacesOf(p).divByZero && MemRel(f, m, c.st)
    case OutOfBounds(_, m) => c.At? && c.pc == PlacesOf(p).exit && c.st.regs[5] == TWO64 - 1 && MemRel(f, m, c.st)
    case Undefined => true
  }

  lemma AnswersReached(p: S.Source, f: Frame, dead: seq<set<nat>>, pc: nat, o: I.Outcome, b: BlockEnd)
    requires pc < |p.insts| < MAX_INSTS && Answers(f, p.insts, dead, pc, o, b) && !o.Undefined?
    requires o.Next? && o.s.pc < |p.insts| ==> o.s.pc in PlacesOf(p).locs
    requires o.Returned? && b.Fall? ==> PcPlace(p, V.After(p.insts, pc)) == PlacesOf(p).exit
    ensures Reached(p, f, dead, o, EndsAt(b, PcPlace(p, V.After(p.insts, pc)), PlacesOf(p)))
  {
    hide HoldingBut, Holding, MemRel, PlacesOf, V.After;
  }

  /** One interpreter step is some ticks of the machine. */
  lemma StepOnMachine(code: seq<byte>, p: S.Source, vm: I.Vm, h: I.Helpers, ctx: I.Ctx, f: Frame, base: u64,
                      ext: External, c: Convention, s: I.State, x: AState)
    returns (n: nat)
    requires V.Runnable(vm) && Compiles(p, vm) && V.Good(vm, ctx, s) && s.pc < |vm.insts|
    requires Linked(code, p, StringAddress(p, base))
    requires Follows(vm.insts, c) && Takes(h, vm.extFuncs, c.arity) && HelpersOk(f, ext, h, c.scratch, vm.extFuncs)
    requires HoldingBut(f, c.dead[s.pc], s.regs, s.mem, x)
    requires AgreesAt(vm, h, ctx, c.scratch, s) && !I.Step(vm, h, ctx, s).Undefined?
    ensures Reached(p, f, c.dead, I.Step(vm, h, ctx, s), Ticks(code, base, ext, AtPc(p, s.pc, x), n))
  {
    hide I.Step, HoldingBut, HelpersOk, Follows, Takes, AgreesAt, ExecBlock, Code, Linked, V.Starts, V.InstError,
      AllItems, PlacesOf, StringAddress, Answers, Matches, PcPlace, AllProper, Reached, Ticks;
    var str := StringAddress(p, base);
    var o := I.Step(vm, h, ctx, s);
    V.StartFacts(vm, s.pc);
    assert |p.insts| < MAX_INSTS;
    hide V.Runnable, V.Good;
    StepAnswers(p, vm, h, ctx, f, s, x, ext, c);
    var pre, post := SlotPlace(p, str, s.pc);
    CodeProper(p, s.pc);
    NoAddresses(p, s.pc, str);
    var b := ExecBlock(Code(p, s.pc), ext, x);
    assert !b.Crash? by { NotCrash(f, p.insts, c.dead, s.pc, o, b); }
    n := PieceOnMachine(code, p, base, ext, pre, Code(p, s.pc), post, x);
    if o.Next? {
      NextPlaced(p, vm, h, ctx, s);
    }
    if o.Returned? && b.Fall? {
      assert s.pc == |p.insts| - 1 by { FellLast(f, p.insts, c.dead, s.pc, o, b); }
      PastEnd(p, V.After(vm.insts, s.pc), vm, s.pc);
    }
    AnswersReached(p, f, c.dead, s.pc, o, b);
  }

  lemma NotCrash(f: Frame, insts: seq<Inst>, dead: seq<set<nat>>, pc: nat, o: I.Outcome, b: BlockEnd)
    requires pc < |insts| && Answers(f, insts, dead, pc, o, b) && !o.Undefined?
    ensures !b.Crash?
  {
  }

  lemma FellLast(f: Frame, insts: seq<Inst>, dead: seq<set<nat>>, pc: nat, o: I.Outcome, b: BlockEnd)
    requires pc < |insts| && Answers(f, insts, dead, pc, o, b) && o.Returned? && b.Fall?
    ensures pc == |insts| - 1
  {
  }

  lemma PastEnd(p: S.Source, next: nat, vm: I.Vm, pc: nat)
    requires p.insts == vm.insts && pc == |p.insts| - 1 && next == V.After(vm.insts, pc)
    ensures PcPlace(p, next) == PlacesOf(p).exit
  {
    assert next >= |p.insts| by { AfterGrows(p, pc); }
    LocsBelow(p, 0, 4 * |Prologue()|, next);
    hide Locs, Prologue, Epilogue, BodyCode, DivHandler;
  }

  /** The next slot, if it is in the program, has a place. */
  lemma NextPlaced(p: S.Source, vm: I.Vm, h: I.Helpers, ctx: I.Ctx, s: I.State)
    requires V.Runnable(vm) && Compiles(p, vm) && V.Good(vm, ctx, s) && s.pc < |vm.insts| && I.Step(vm, h, ctx, s).Next?
    ensures var t := I.Step(vm, h, ctx, s).s; t.pc < |p.insts| ==> t.pc in PlacesOf(p).locs
  {
    hide I.Step, Code;
    J.NextStart(vm, h, ctx, s);
    var t := I.Step(vm, h, ctx, s).s;
    if t.pc < |p.insts| {
      var a := CodeSplit(p, 0, 4 * |Prologue()|, t.pc);
    }
  }

  // ----- whole runs -----

  /** Generated code and interpreter agree on every step of the run. */
  predicate AgreesAlong(vm: I.Vm, h: I.Helpers, ctx: I.Ctx, scratch: set<nat>, s: I.State, fuel: nat)
    decreases fuel
  {
    fuel > 0 ==>
      && AgreesAt(vm, h, ctx, scratch, s)
      && var o := I.Step(vm, h, ctx, s);
         (o.Next? ==> AgreesAlong(vm, h, ctx, scratch, o.s, fuel - 1))
  }

  /** The function has returned `r`, kept the calling convention and left memory `m` to the program. */
  ghost predicate ReturnedWell(c: Config, r: u64, m: Mem, top: int, v: ARegs)
  {
    && c.Halted? && c.st.regs[0] == r && Contains(c.st.mem, m) && c.st.sp == top
    && forall j :: 0 <= j < 10 ==> c.st.regs[SAVED[j]] == v[SAVED[j]]
  }

  lemma Pieces(p: S.Source, str: u64)
    ensures AllItems(p, str) ==
      [] + (Prologue() + (BodyCode(p, 0) + (Epilogue() + [Do(RetTo(LR))]) + DivHandler(p, str)))
    ensures AllItems(p, str) == (Prologue() + BodyCode(p, 0)) + (Epilogue() + ([Do(RetTo(LR))] + DivHandler(p, str)))
    ensures AllItems(p, str) ==
      (Prologue() + BodyCode(p, 0) + (Epilogue() + [Do(RetTo(LR))])) + (DivHandler(p, str) + [])
    ensures PlacesOf(p).exit == 4 * |Prologue() + BodyCode(p, 0)|
    ensures PlacesOf(p).divByZero == 4 * |Prologue() + BodyCode(p, 0) + (Epilogue() + [Do(RetTo(LR))])|
    ensures p.insts != [] ==> PcPlace(p, 0) == 4 * |Prologue()|
  {
    hide Prologue, Epilogue, DivHandler, BodyCode, Code;
  }

  /** The return at the end of the epilogue. */
  lemma ReturnTick(code: seq<byte>, p: S.Source, str: u64, base: u64, ext: External, y: AState)
    requires Linked(code, p, str)
    ensures Tick(code, base, ext, At(PlacesOf(p).exit + 4 * |Epilogue()|, y)) == Halted(y)
  {
    hide Prologue, Epilogue, DivHandler, BodyCode, ItemAt, PlacesOf, Tick;
    Pieces(p, str);
    var k := |Prologue() + BodyCode(p, 0)| + |Epilogue()|;
    assert AllItems(p, str)[k] == Do(RetTo(LR));
    hide AllItems;
    assert ItemAt(code, 4 * (0 + k), AllItems(p, str)[k], PlacesOf(p));
    RetRuns(code, 4 * k, PlacesOf(p), base, ext, y);
  }

  lemma RetRuns(code: seq<byte>, at: nat, l: L.Places, base: u64, ext: External, y: AState)
    requires ItemAt(code, at, Do(RetTo(LR)), l) && at % 4 == 0
    ensures Tick(code, base, ext, At(at, y)) == Halted(y)
  {
    hide Encode, Decode, WordAt;
    DecodeEncode(RetTo(LR));
  }

  /** From the epilogue's place to the return. */
  lemma LeaveOnMachine(code: seq<byte>, p: S.Source, f: Frame, base: u64, ext: External, x: AState, m: Mem, v: ARegs)
    returns (n: nat, y: AState)
    requires Linked(code, p, StringAddress(p, base)) && MemRel(f, m, x) && AllSaved(f.saved, f.sp, v)
    requires f.sp + FRAME_SIZE < TWO64
    ensures Ticks(code, base, ext, At(PlacesOf(p).exit, x), n) == Halted(y) && Restored(f, x, v, y)
  {
    hide ExecBlock, Tick, Ticks, AllSaved, Prologue, Epilogue, DivHandler, BodyCode, PlacesOf, AllItems, AllProper,
      Linked, StringAddress, MemRel, PcPlace, Restored;
    var str := StringAddress(p, base);
    y := EpilogueRuns(ext, f, m, x, v);
    FrameProper(p, str);
    Pieces(p, str);
    NoFrameAddresses();
    var k := PieceOnMachine(code, p, base, ext, Prologue() + BodyCode(p, 0), Epilogue(),
      [Do(RetTo(LR))] + DivHandler(p, str), x);
    ReturnTicks(code, p, str, base, ext, y);
    TicksAdd(code, base, ext, At(PlacesOf(p).exit, x), k, 1);
    n := k + 1;
  }

  lemma RestoredWell(f: Frame, x: AState, m: Mem, v: ARegs, y: AState)
    requires MemRel(f, m, x) && Restored(f, x, v, y)
    ensures ReturnedWell(Halted(y), x.regs[5], m, f.sp + FRAME_SIZE, v)
  {
  }

  /** From the epilogue's place the function returns. */
  lemma FinishAtExit(code: seq<byte>, p: S.Source, f: Frame, base: u64, ext: External, x: AState, m: Mem, v: ARegs)
    returns (n: nat)
    requires Linked(code, p, StringAddress(p, base)) && MemRel(f, m, x) && AllSaved(f.saved, f.sp, v)
    requires f.sp + FRAME_SIZE < TWO64
    ensures ReturnedWell(Ticks(code, base, ext, At(PlacesOf(p).exit, x), n), x.regs[5], m, f.sp + FRAME_SIZE, v)
  {
    hide Ticks, AllSaved, PlacesOf, Linked, StringAddress, MemRel, ReturnedWell, Restored;
    var y;
    n, y := LeaveOnMachine(code, p, f, base, ext, x, m, v);
    RestoredWell(f, x, m, v, y);
  }

  lemma ReturnTicks(code: seq<byte>, p: S.Source, str: u64, base: u64, ext: External, y: AState)
    requires Linked(code, p, str)
    ensures Ticks(code, base, ext, At(PlacesOf(p).exit + 4 * |Epilogue()|, y), 1) == Halted(y)
  {
    hide Tick, Linked, PlacesOf, Epilogue;
    ReturnTick(code, p, str, base, ext, y);
    assert Ticks(code, base, ext, Halted(y), 0) == Halted(y);
  }

  lemma NoFrameAddresses()
    ensures forall i :: 0 <= i < |Epilogue()| ==> !Epilogue()[i].Address?
    ensures forall i :: 0 <= i < |Prologue()| ==> !Prologue()[i].Address?
  {
  }

  lemma HandlerAddresses(p: S.Source, str: u64)
    ensures forall i :: 0 <= i < |DivHandler(p, str)| && DivHandler(p, str)[i].Address? ==>
      DivHandler(p, str)[i].value == str
  {
    hide MoveCode;
  }

  /** From the division handler's place the function returns -1. */
  lemma FinishAtHandler(code: seq<byte>, p: S.Source, f: Frame, base: u64, ext: External, x: AState, m: Mem, v: ARegs)
    returns (n: nat)
    requires Linked(code, p, StringAddress(p, base)) && MemRel(f, m, x) && AllSaved(f.saved, f.sp, v)
    requires f.sp + FRAME_SIZE < TWO64
    requires PrinterOk(f, ext, p.errorPrintf)
    ensures ReturnedWell(Ticks(code, base, ext, At(PlacesOf(p).divByZero, x), n), TWO64 - 1, m, f.sp + FRAME_SIZE, v)
  {
    var str := StringAddress(p, base);
    hide ExecBlock, Tick, AllSaved, Prologue, Epilogue, DivHandler, BodyCode, PlacesOf, AllItems, AllProper, Linked,
      StringAddress, MemRel, PrinterOk, ReturnedWell;
    var y := HandlerRuns(p, str, ext, f, m, x);
    FrameProper(p, str);
    Pieces(p, str);
    HandlerAddresses(p, str);
    var k := PieceOnMachine(code, p, base, ext, Prologue() + BodyCode(p, 0) + (Epilogue() + [Do(RetTo(LR))]),
      DivHandler(p, str), [], x);
    var j := FinishAtExit(code, p, f, base, ext, y, m, v);
    TicksAdd(code, base, ext, At(PlacesOf(p).divByZero, x), k, j);
    n := k + j;
  }

  /** A finishing run of the interpreter, replayed by the machine from the code of its first instruction. */
  lemma {:induction false} RunOnMachine(code: seq<byte>, p: S.Source, vm: I.Vm, h: I.Helpers, ctx: I.Ctx, f: Frame,
                                        base: u64, ext: External, c: Convention, s: I.State, x: AState, v: ARegs,
                                        fuel: nat)
    returns (n: nat)
    requires V.Runnable(vm) && Compiles(p, vm) && V.Good(vm, ctx, s) && Linked(code, p, StringAddress(p, base))
    requires Follows(vm.insts, c) && Takes(h, vm.extFuncs, c.arity) && s.pc < |c.dead|
    requires HoldingBut(f, c.dead[s.pc], s.regs, s.mem, x) && AllSaved(f.saved, f.sp, v) && f.sp + FRAME_SIZE < TWO64
    requires HelpersOk(f, ext, h, c.scratch, vm.extFuncs) && PrinterOk(f, ext, p.errorPrintf)
    requires AgreesAlong(vm, h, ctx, c.scratch, s, fuel) && R.Finished(I.Run(vm, h, ctx, s, fuel))
    ensures var o := I.Run(vm, h, ctx, s, fuel);
      ReturnedWell(Ticks(code, base, ext, AtPc(p, s.pc, x), n), J.Observable(o), R.MemOf(o), f.sp + FRAME_SIZE, v)
    decreases fuel
  {
    hide I.Step, Ticks, HoldingBut, HelpersOk, PrinterOk, AllSaved, PlacesOf, PcPlace, ReturnedWell, V.Runnable,
      AgreesAt, Linked, StringAddress, MemRel, V.Good, Follows, Takes;
    var o := I.Step(vm, h, ctx, s);
    R.StepInside(vm, h, ctx, s);
    var k := StepOnMachine(code, p, vm, h, ctx, f, base, ext, c, s, x);
    var y := Ticks(code, base, ext, AtPc(p, s.pc, x), k);
    var j;
    match o {
      case Next(t) =>
        V.StepKeepsGood(vm, h, ctx, s);
        j := RunOnMachine(code, p, vm, h, ctx, f, base, ext, c, t, y.st, v, fuel - 1);
      case Returned(r, m) => j := FinishAtExit(code, p, f, base, ext, y.st, m, v);
      case DivideByZero(_, m) => j := FinishAtHandler(code, p, f, base, ext, y.st, m, v);
      case OutOfBounds(_, m) => j := FinishAtExit(code, p, f, base, ext, y.st, m, v);
    }
    TicksAdd(code, base, ext, AtPc(p, s.pc, x), k, j);
    n := k + j;
  }

  /**
   * External code keeps the calling convention, whatever registers the frame of this activation saves: helpers may
   * change registers in `scratch`, the printer any but the stack pointer.
   */
  ghost predicate ExternalOk(ext: External, h: I.Helpers, scratch: set<nat>, fns: seq<u64>, printer: u64, x: AState,
                             m: Mem)
  {
    forall f: Frame :: f.sp == x.sp - FRAME_SIZE && f.dom == m.Keys && OnlySlots(f) ==>
      HelpersOk(f, ext, h, scratch, fns) && PrinterOk(f, ext, printer)
  }

  lemma HoldingAll(f: Frame, dead: set<nat>, r: I.Regs, m: Mem, x: AState)
    requires Holding(f, r, m, x)
    ensures HoldingBut(f, dead, r, m, x)
  {
    hide MemRel;
  }

  lemma EntryGood(vm: I.Vm, x: AState, m: Mem)
    requires V.Runnable(vm) && EntryOk(x, m)
    ensures V.Good(vm, CtxOf(x), EntryState(x, m)) && EntryState(x, m).pc == 0 && EntryState(x, m).mem == m
  {
    R.InitialIsGood(vm, CtxOf(x), GarbageOf(x), m);
  }

  /**
   * The AArch64 code generator preserves meaning. Take any validated program that keeps to a calling convention with
   * its helpers, its finished code in a buffer of less than 1 MiB, and any machine state with room for the activation.
   * If the interpreter, started on the same arguments, registers and memory with its stack where the generated code
   * puts it, finishes within any number of steps, with a result or an error, and generated code and interpreter agree
   * on each step, then executing the buffer's words from offset 0 returns the same observable result and memory, with
   * the stack pointer, the link register and the callee-saved registers restored.
   */
  lemma A64PreservesMeaning(code: seq<byte>, p: S.Source, vm: I.Vm, h: I.Helpers, c: Convention, base: u64,
                            ext: External, x: AState, m: Mem, fuel: nat)
    returns (n: nat)
    requires V.Runnable(vm) && Compiles(p, vm) && Linked(code, p, StringAddress(p, base))
    requires Follows(vm.insts, c) && Takes(h, vm.extFuncs, c.arity)
    requires EntryOk(x, m) && ExternalOk(ext, h, c.scratch, vm.extFuncs, p.errorPrintf, x, m)
    requires AgreesAlong(vm, h, CtxOf(x), c.scratch, EntryState(x, m), fuel)
    requires R.Finished(I.Run(vm, h, CtxOf(x), EntryState(x, m), fuel))
    ensures var o := I.Run(vm, h, CtxOf(x), EntryState(x, m), fuel);
      ReturnedWell(Ticks(code, base, ext, At(0, x), n), J.Observable(o), R.MemOf(o), x.sp, x.regs)
  {
    hide I.Run, Ticks, Holding, HoldingBut, Follows, Takes, HelpersOk, PrinterOk, AllSaved, ReturnedWell, V.Runnable,
      AgreesAlong, EntryOk, PcPlace, CtxOf, EntryState, V.Good, Linked, StringAddress;
    var ctx, s := CtxOf(x), EntryState(x, m);
    EntryGood(vm, x, m);
    assert vm.insts != [] by { J.FinishedRunStarted(vm, h, ctx, s, fuel); }
    var k, y := EnterOnMachine(code, p, base, ext, x, m);
    var f := FrameOf(m, y);
    assert 0 < |c.dead| by { SomeDead(vm.insts, c); }
    assert HoldingBut(f, c.dead[0], s.regs, s.mem, y) by { HoldingAll(f, c.dead[0], s.regs, s.mem, y); }
    var j := RunOnMachine(code, p, vm, h, ctx, f, base, ext, c, s, y, x.regs, fuel);
    TicksAdd(code, base, ext, At(0, x), k, j);
    n := k + j;
  }

  /** From the entry to the code of the first slot. */
  lemma EnterOnMachine(code: seq<byte>, p: S.Source, base: u64, ext: External, x: AState, m: Mem)
    returns (n: nat, y: AState)
    requires Linked(code, p, StringAddress(p, base)) && EntryOk(x, m) && p.insts != []
    ensures Ticks(code, base, ext, At(0, x), n) == AtPc(p, 0, y)
    ensures var f := FrameOf(m, y);
      Holding(f, EntryState(x, m).regs, m, y) && AllSaved(f.saved, f.sp, x.regs) && f.sp == x.sp - FRAME_SIZE &&
        f.dom == m.Keys && OnlySlots(f)
  {
    hide ExecBlock, Ticks, Holding, AllSaved, Prologue, Epilogue, DivHandler, BodyCode, PlacesOf, AllItems, AllProper,
      EntryOk, PcPlace, EntryState, Linked, StringAddress;
    var str := StringAddress(p, base);
    y := PrologueRuns(ext, x, m);
    FrameProper(p, str);
    Pieces(p, str);
    NoFrameAddresses();
    n := PieceOnMachine(code, p, base, ext, [], Prologue(),
      BodyCode(p, 0) + (Epilogue() + [Do(RetTo(LR))]) + DivHandler(p, str), x);
  }
}
