/** What validation buys: safety, memory confinement and termination of whole runs. */
module Runs {
  import opened Words
  import opened Ebpf
  import opened Memory
  import opened Interp
  import opened Validator

  /** The final state or memory of an outcome. */
  function MemOf(o: Outcome): Mem
    requires !o.Undefined?
  {
    match o
    case Next(s) => s.mem
    case Returned(_, m) => m
    case DivideByZero(_, m) => m
    case OutOfBounds(_, m) => m
  }

  /** The run is over: the program has returned, or the interpreter has stopped it with an error. */
  predicate Finished(o: Outcome) { !o.Next? && !o.Undefined? }

  /** Every state a validated program reaches, after any number of steps, is a good one. */
  lemma {:induction false} RunKeepsGood(vm: Vm, h: Helpers, ctx: Ctx, s: State, fuel: nat)
    requires Runnable(vm) && Good(vm, ctx, s)
    requires Run(vm, h, ctx, s, fuel).Next?
    ensures Good(vm, ctx, Run(vm, h, ctx, s, fuel).s)
    decreases fuel
  {
    hide Step;
    if fuel > 0 {
      StepInside(vm, h, ctx, s);
      StepKeepsGood(vm, h, ctx, s);
      RunKeepsGood(vm, h, ctx, Step(vm, h, ctx, s).s, fuel - 1);
    }
  }

  lemma StepInside(vm: Vm, h: Helpers, ctx: Ctx, s: State)
    requires !Step(vm, h, ctx, s).Undefined?
    ensures s.pc < |vm.insts|
  {
    hide Execute;
  }

  /** Runs started by `ubpf_exec` begin in a good state. */
  lemma InitialIsGood(vm: Vm, ctx: Ctx, garbage: Regs, mem: Mem)
    requires Runnable(vm)
    ensures Good(vm, ctx, Initial(ctx, garbage, mem))
  {
  }

  // ----- running off the end -----

  /** The instruction in program order before the end, if any, is EXIT or JA. */
  ghost predicate EndsInJump(insts: seq<Inst>)
  {
    && insts != []
    && forall i :: i in Starts(insts, 0) && i < |insts| && After(insts, i) >= |insts| ==>
         DecodeOp(insts[i].opcode) == Some(Exit) || DecodeOp(insts[i].opcode) == Some(Ja)
  }

  /** With such a last instruction the program counter never leaves the program. */
  lemma {:induction false} RunStaysInside(vm: Vm, h: Helpers, ctx: Ctx, s: State, fuel: nat)
    requires Runnable(vm) && Good(vm, ctx, s) && EndsInJump(vm.insts)
    requires s.pc < |vm.insts|
    requires Run(vm, h, ctx, s, fuel).Next?
    ensures Run(vm, h, ctx, s, fuel).s.pc < |vm.insts|
    decreases fuel
  {
    hide Step;
    if fuel > 0 {
      StepStaysInside(vm, h, ctx, s);
      StepKeepsGood(vm, h, ctx, s);
      RunStaysInside(vm, h, ctx, Step(vm, h, ctx, s).s, fuel - 1);
    }
  }

  lemma StepStaysInside(vm: Vm, h: Helpers, ctx: Ctx, s: State)
    requires Runnable(vm) && Good(vm, ctx, s) && EndsInJump(vm.insts)
    requires s.pc < |vm.insts| && Step(vm, h, ctx, s).Next?
    ensures Step(vm, h, ctx, s).s.pc < |vm.insts|
  {
    StartFacts(vm, s.pc);
    StepGoesTo(vm, h, ctx, s);
    var inst := vm.insts[s.pc];
    var op := DecodeOp(inst.opcode).value;
    if op.Ja? || op.Jmp? {
      JumpFacts(vm, s.pc);
    }
    ExitReturns(vm, h, ctx, s);
    hide Step, Taken;
  }

  lemma ExitReturns(vm: Vm, h: Helpers, ctx: Ctx, s: State)
    requires s.pc < |vm.insts|
    ensures DecodeOp(vm.insts[s.pc].opcode) == Some(Exit) ==> Step(vm, h, ctx, s) == Returned(s.regs[0], s.mem)
  {
    hide DecodeOp;
  }

  /** Without it the program counter can: validation accepts a program that runs off its end. */
  lemma RunsOffEnd(h: Helpers, ctx: Ctx, garbage: Regs, mem: Mem)
    ensures var vm := Vm([Inst(0xb7, 0, 0, 0, 0)], false, seq(MAX_EXT_FUNCS, _ => 0), -1);
      && Runnable(vm)
      && Run(vm, h, ctx, Initial(ctx, garbage, mem), 1).Next?
      && Run(vm, h, ctx, Initial(ctx, garbage, mem), 1).s.pc == |vm.insts|
  {
    var i := Inst(0xb7, 0, 0, 0, 0);
    assert DecodeOp(i.opcode) == Some(Alu(W64, Mov, Imm)) by { OpcodeTable(Alu(W64, Mov, Imm), 0xb7); }
    assert Starts([i], 0) == {0} by { assert Starts([i], 1) == {}; }
  }

  // ----- memory confinement -----

  /** Inside the context buffer or the program's stack. */
  predicate Owned(ctx: Ctx, a: int)
  {
    || (ctx.mem != 0 && ctx.mem <= a < ctx.mem + ctx.len)
    || ctx.stack <= a < ctx.stack + STACK_SIZE
  }

  predicate NoCalls(vm: Vm)
  {
    forall i :: 0 <= i < |vm.insts| ==> DecodeOp(vm.insts[i].opcode) != Some(Call)
  }

  /** `m2` differs from `m1` at owned addresses only, and maps the same addresses. */
  predicate Confined(ctx: Ctx, m1: Mem, m2: Mem)
  {
    m2.Keys == m1.Keys && forall a :: a in m1 && !Owned(ctx, a) ==> m2[a] == m1[a]
  }

  lemma ExecuteConfined(vm: Vm, h: Helpers, ctx: Ctx, s: State, inst: Inst, op: Op)
    requires vm.boundsCheck && !op.Call?
    requires !Execute(vm, h, ctx, s, inst, op).Undefined?
    ensures Confined(ctx, s.mem, MemOf(Execute(vm, h, ctx, s, inst, op)))
  {
    hide AluSem, EndSem, Load, Store, LddwValue, Taken, Advance;
    if op.St? || op.Stx? {
      var a := Wrap64(s.regs[inst.dst] + inst.offset);
      if Mapped(s.mem, a, SizeBytes(op.size)) {
        StoreAt(s.mem, a, SizeBytes(op.size), if op.St? then inst.imm else s.regs[inst.src]);
      }
    }
  }

  /**
   * With bounds checking on, no run of any program without calls, validated or not, changes a byte
   * outside the context buffer and the stack.
   */
  lemma {:induction false} RunConfined(vm: Vm, h: Helpers, ctx: Ctx, s: State, fuel: nat)
    requires vm.boundsCheck && NoCalls(vm)
    requires !Run(vm, h, ctx, s, fuel).Undefined?
    ensures Confined(ctx, s.mem, MemOf(Run(vm, h, ctx, s, fuel)))
    decreases fuel
  {
    if fuel > 0 && s.pc < |vm.insts| {
      hide Execute, DecodeOp;
      var inst := vm.insts[s.pc];
      if DecodeOp(inst.opcode).Some? {
        ExecuteConfined(vm, h, ctx, s, inst, DecodeOp(inst.opcode).value);
      }
      var o := Step(vm, h, ctx, s);
      if o.Next? {
        RunConfined(vm, h, ctx, o.s, fuel - 1);
      }
    }
  }

  // ----- termination -----

  predicate ForwardJumps(insts: seq<Inst>)
  {
    forall i :: 0 <= i < |insts| ==>
      match DecodeOp(insts[i].opcode)
      case Some(Ja) => insts[i].offset >= 0
      case Some(Jmp(_, _)) => insts[i].offset >= 0
      case _ => true
  }

  /** A validated program that only jumps forward and ends in EXIT or JA stops within num_insts steps. */
  lemma {:induction false} ForwardRunsStop(vm: Vm, h: Helpers, ctx: Ctx, s: State)
    requires Runnable(vm) && Good(vm, ctx, s) && EndsInJump(vm.insts) && ForwardJumps(vm.insts)
    requires s.pc < |vm.insts|
    ensures !Run(vm, h, ctx, s, |vm.insts| - s.pc).Next?
    decreases |vm.insts| - s.pc
  {
    var o := Step(vm, h, ctx, s);
    hide Step, Taken;
    if o.Next? {
      StepStaysInside(vm, h, ctx, s);
      StepKeepsGood(vm, h, ctx, s);
      StepGoesTo(vm, h, ctx, s);
      StartFacts(vm, s.pc);
      assert o.s.pc > s.pc;
      ForwardRunsStop(vm, h, ctx, o.s);
      RunMonotone(vm, h, ctx, o.s, |vm.insts| - o.s.pc, |vm.insts| - s.pc - 1);
    }
  }

  /** More fuel does not change a finished run. */
  lemma {:induction false} RunMonotone(vm: Vm, h: Helpers, ctx: Ctx, s: State, fuel: nat, more: nat)
    requires fuel <= more && !Run(vm, h, ctx, s, fuel).Next?
    ensures Run(vm, h, ctx, s, more) == Run(vm, h, ctx, s, fuel)
    decreases fuel
  {
    hide Step;
    if fuel > 0 && Step(vm, h, ctx, s).Next? {
      RunMonotone(vm, h, ctx, Step(vm, h, ctx, s).s, fuel - 1, more - 1);
    }
  }
}
