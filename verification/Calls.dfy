/**
 * Registers r1 to r5 across helper calls. A C function may change its argument registers, the interpreter keeps them,
 * and programs that keep to the calling convention do not look: two runs that differ in such registers only are alike.
 */
module Calls {
  import opened Words
  import opened Ebpf
  import opened Memory
  import opened Interp
  import opened Validator

  /**
   * What a program and its helpers agree on: the registers a call may change, how many arguments the helper with each
   * index takes, and, in front of each slot, the registers whose value the program does not use any more.
   */
  datatype Convention = Convention(scratch: set<nat>, arity: seq<nat>, dead: seq<set<nat>>)

  const ARGUMENTS: set<nat> := {1, 2, 3, 4, 5}

  function Arguments(n: nat): set<nat> { set i: nat | i in ARGUMENTS && i <= n }

  /** The registers an instruction's effect depends on; a multiplication or division may test its source in any form. */
  function Uses(inst: Inst, op: Op, arity: seq<nat>): set<nat>
  {
    match op
    case Alu(_, a, o) =>
      (if a.Mov? then {} else {inst.dst}) + (if o.Reg? || a.Mul? || a.Div? || a.Mod? then {inst.src} else {})
    case Neg(_) => {inst.dst, inst.src}
    case End(_) => {inst.dst}
    case Ldx(_) => {inst.src}
    case St(_) => {inst.dst}
    case Stx(_) => {inst.dst, inst.src}
    case Jmp(_, o) => if o.Reg? then {inst.dst, inst.src} else {inst.dst}
    case Exit => {0}
    case Call => if 0 <= inst.imm < |arity| then Arguments(arity[inst.imm]) else ARGUMENTS
    case _ => {}
  }

  /** The register an instruction sets. */
  function Sets(inst: Inst, op: Op): set<nat>
  {
    match op
    case Alu(_, _, _) => {inst.dst}
    case Neg(_) => {inst.dst}
    case End(_) => {inst.dst}
    case Ldx(_) => {inst.dst}
    case Lddw => {inst.dst}
    case Call => {0}
    case _ => {}
  }

  /** Where control goes from slot `i`. */
  function Successors(insts: seq<Inst>, i: nat, op: Op): set<int>
    requires i < |insts|
  {
    var target := i + 1 + insts[i].offset;
    match op
    case Exit => {}
    case Ja => {target}
    case Jmp(_, _) => {target, After(insts, i)}
    case _ => {After(insts, i)}
  }

  /** What holds no useful value behind an instruction. */
  function DeadBehind(inst: Inst, op: Op, scratch: set<nat>, dead: set<nat>): set<nat>
  {
    (dead - Sets(inst, op)) + if op.Call? then scratch else {}
  }

  lemma BehindOther(inst: Inst, op: Op, scratch: set<nat>, dead: set<nat>)
    requires !op.Call?
    ensures DeadBehind(inst, op, scratch, dead) == dead - Sets(inst, op)
  {
  }

  predicate SlotFollows(insts: seq<Inst>, c: Convention, i: nat, op: Op)
    requires i < |insts| < |c.dead|
  {
    && c.dead[i] <= ARGUMENTS && Uses(insts[i], op, c.arity) !! c.dead[i]
    && forall j :: j in Successors(insts, i, op) && 0 <= j <= |insts| ==>
         DeadBehind(insts[i], op, c.scratch, c.dead[i]) <= c.dead[j]
  }

  /** The program keeps to the convention: no instruction uses a register that may hold what a call left in it. */
  ghost predicate Follows(insts: seq<Inst>, c: Convention)
  {
    && |insts| < |c.dead|
    && forall i :: i in Starts(insts, 0) && i < |insts| && DecodeOp(insts[i].opcode).Some? ==>
         SlotFollows(insts, c, i, DecodeOp(insts[i].opcode).value)
  }

  /** Each helper takes as many arguments as the convention says. */
  ghost predicate Takes(h: Helpers, fns: seq<u64>, arity: seq<nat>)
  {
    |arity| == |fns| && forall k :: 0 <= k < |fns| ==> TakesArguments(h, fns[k], arity[k])
  }

  ghost predicate TakesArguments(h: Helpers, addr: u64, n: nat)
  {
    forall a, b, m :: AnswersAlike(h, addr, n, a, b, m)
  }

  predicate AnswersAlike(h: Helpers, addr: u64, n: nat, a: seq<u64>, b: seq<u64>, m: Mem)
  {
    SameArguments(a, b, n) ==> h(addr, a, m) == h(addr, b, m)
  }

  predicate SameArguments(a: seq<u64>, b: seq<u64>, n: nat)
  {
    |a| == |b| == 5 && forall i :: 0 <= i < 5 && i < n ==> a[i] == b[i]
  }

  /** Two register files that differ in `dead` at most. */
  predicate SameBut(dead: set<nat>, r: Regs, q: Regs)
  {
    forall i :: 0 <= i <= 10 && i !in dead ==> q[i] == r[i]
  }

  /** The outcome `p` of a step from other registers is like the outcome `o`: the same but for dead registers. */
  predicate Alike(dead: set<nat>, o: Outcome, p: Outcome)
  {
    match o
    case Next(s) => p.Next? && p.s.pc == s.pc && p.s.mem == s.mem && SameBut(dead, s.regs, p.s.regs)
    case _ => p == o
  }

  lemma SomeDead(insts: seq<Inst>, c: Convention)
    requires Follows(insts, c)
    ensures |insts| < |c.dead|
  {
    hide Uses, Starts, DeadBehind, DecodeOp;
  }

  lemma SlotFacts(vm: Vm, c: Convention, i: nat)
    requires Runnable(vm) && Follows(vm.insts, c) && IsStart(vm.insts, i)
    ensures i < |vm.insts| && DecodeOp(vm.insts[i].opcode).Some?
    ensures c.dead[i] <= ARGUMENTS && Uses(vm.insts[i], DecodeOp(vm.insts[i].opcode).value, c.arity) !! c.dead[i]
  {
    hide Uses, DecodeOp, Starts, DeadBehind;
    StartFacts(vm, i);
    assert SlotFollows(vm.insts, c, i, DecodeOp(vm.insts[i].opcode).value);
  }

  /** An instruction that uses no dead register does the same whatever they hold. */
  lemma ExecuteAlike(vm: Vm, h: Helpers, ctx: Ctx, s: State, q: Regs, inst: Inst, op: Op, dead: set<nat>,
                     arity: seq<nat>)
    requires !op.Call? && inst.dst <= 10 && inst.src <= 10
    requires SameBut(dead, s.regs, q) && Uses(inst, op, arity) !! dead
    ensures Alike(dead - Sets(inst, op), Execute(vm, h, ctx, s, inst, op), Execute(vm, h, ctx, s.(regs := q), inst, op))
  {
    hide AluSem, EndSem, NegSem, Taken, InBounds, LddwValue, Load, Store, Mapped, Wrap64, Advance;
    match op
    case Alu(w, a, o) =>
      AluAlike(w, a, o, s.regs[inst.dst], q[inst.dst], s.regs[inst.src], q[inst.src], inst.imm);
    case Jmp(c, o) => TakenAlike(c, o, s.regs[inst.dst], s.regs[inst.src], q[inst.src], inst.imm);
    case _ =>
  }

  lemma AluAlike(w: Width, a: AluOp, o: Operand, dst: u64, dst': u64, src: u64, src': u64, imm: i32)
    requires (a.Mov? || dst == dst') && (o.Imm? || src == src')
    ensures AluSem(w, a, o, dst, src, imm) == AluSem(w, a, o, dst', src', imm)
  {
    hide Truncated, DivSem, ShlSem, ShrSem, SarSem, Bitwise;
  }

  lemma TakenAlike(c: Cond, o: Operand, dst: u64, src: u64, src': u64, imm: i32)
    requires o.Imm? || src == src'
    ensures Taken(c, o, dst, src, imm) == Taken(c, o, dst, src', imm)
  {
    hide Bitwise;
  }

  /** Helpers get the same arguments from registers that agree on them. */
  lemma CallAlike(vm: Vm, h: Helpers, r: Regs, q: Regs, m: Mem, inst: Inst, dead: set<nat>, arity: seq<nat>)
    requires 0 <= inst.imm < |vm.extFuncs| && Takes(h, vm.extFuncs, arity)
    requires SameBut(dead, r, q) && Uses(inst, Call, arity) !! dead
    ensures h(vm.extFuncs[inst.imm], r[1..6], m) == h(vm.extFuncs[inst.imm], q[1..6], m)
  {
    var n, addr := arity[inst.imm], vm.extFuncs[inst.imm];
    assert TakesArguments(h, addr, n);
    assert AnswersAlike(h, addr, n, r[1..6], q[1..6], m);
    forall i | 0 <= i < 5 && i < n ensures r[1..6][i] == q[1..6][i] {
      assert i + 1 in Arguments(n);
    }
    assert SameArguments(r[1..6], q[1..6], n);
  }

  /** The next slot is a successor. */
  lemma GoesToSuccessor(vm: Vm, h: Helpers, ctx: Ctx, s: State, c: Convention)
    requires Runnable(vm) && Good(vm, ctx, s) && s.pc < |vm.insts| && Step(vm, h, ctx, s).Next? && Follows(vm.insts, c)
    ensures DecodeOp(vm.insts[s.pc].opcode).Some?
    ensures var op, pc := DecodeOp(vm.insts[s.pc].opcode).value, Step(vm, h, ctx, s).s.pc;
      && pc <= |vm.insts| && c.dead[s.pc] <= ARGUMENTS && Uses(vm.insts[s.pc], op, c.arity) !! c.dead[s.pc]
      && DeadBehind(vm.insts[s.pc], op, c.scratch, c.dead[s.pc]) <= c.dead[pc]
  {
    hide Step, Taken, InstError, Uses, DeadBehind, Starts, DecodeOp;
    StartFacts(vm, s.pc);
    StepGoesTo(vm, h, ctx, s);
    StepKeepsGood(vm, h, ctx, s);
    var op, pc := DecodeOp(vm.insts[s.pc].opcode).value, Step(vm, h, ctx, s).s.pc;
    assert SlotFollows(vm.insts, c, s.pc, op);
    if op == Exit {
      ExitEnds(vm, h, ctx, s);
    }
    assert pc in Successors(vm.insts, s.pc, op);
    assert pc <= |vm.insts| by { StartsBounded(vm.insts, 0); }
  }

  lemma ExitEnds(vm: Vm, h: Helpers, ctx: Ctx, s: State)
    requires s.pc < |vm.insts| && DecodeOp(vm.insts[s.pc].opcode) == Some(Exit)
    ensures !Step(vm, h, ctx, s).Next?
  {
    hide DecodeOp;
  }

  // ----- who keeps to a convention -----

  /** Every program keeps to the convention of helpers that change no register and take five arguments. */
  lemma KeepingHelpers(insts: seq<Inst>, h: Helpers, fns: seq<u64>)
    ensures Follows(insts, Convention({}, seq(|fns|, _ => 5), seq(|insts| + 1, _ => {})))
    ensures Takes(h, fns, seq(|fns|, _ => 5))
  {
    hide Uses, Starts;
    forall k | 0 <= k < |fns| ensures TakesArguments(h, fns[k], 5) {
      forall a, b, m ensures AnswersAlike(h, fns[k], 5, a, b, m) {
        if SameArguments(a, b, 5) {
          assert a == b;
        }
      }
    }
  }

  /** A program without calls keeps to every convention about them. */
  lemma NoCallsFollow(insts: seq<Inst>, scratch: set<nat>, arity: seq<nat>)
    requires forall i :: 0 <= i < |insts| ==> DecodeOp(insts[i].opcode) != Some(Call)
    ensures Follows(insts, Convention(scratch, arity, seq(|insts| + 1, _ => {})))
  {
    hide Uses, Starts, DecodeOp;
  }

  /** A program that sets r1 and calls a helper of one argument, twice: it need not mind what the first call changes. */
  lemma TwoCallsFollow()
    ensures var set1, call := Inst(0xb7, 1, 0, 0, 7), Inst(0x85, 0, 0, 0, 1);
      Follows([set1, call, set1, call, Inst(0x95, 0, 0, 0, 0)],
              Convention(ARGUMENTS, seq(MAX_EXT_FUNCS, _ => 1),
                [{}, {}, ARGUMENTS, {2, 3, 4, 5}, ARGUMENTS, ARGUMENTS]))
  {
    assert DecodeOp(0xb7) == Some(Alu(W64, Mov, Imm)) by { OpcodeTable(Alu(W64, Mov, Imm), 0xb7); }
    assert DecodeOp(0x85) == Some(Call) by { OpcodeTable(Call, 0x85); }
    assert DecodeOp(0x95) == Some(Exit) by { OpcodeTable(Exit, 0x95); }
    hide DecodeOp, Starts;
  }
}
