/** The load-time checker `validate`, and what it guarantees about every run. */
module Validator {
  import opened Words
  import opened Ebpf
  import opened Memory
  import opened Interp

  datatype Error =
    | TooManyInstructions
    | InvalidEndianImmediate(pc: nat)
    | IncompleteLddw(pc: nat)
    | InfiniteLoop(pc: nat)
    | JumpOutOfBounds(pc: nat)
    | JumpToMiddleOfLddw(pc: nat)
    | InvalidCallImmediate(pc: nat)
    | NonexistentFunction(pc: nat)
    | ConstantDivisionByZero(pc: nat)
    | UnknownOpcode(pc: nat)
    | InvalidSourceRegister(pc: nat)
    | InvalidDestinationRegister(pc: nat)

  // ----- what is accepted -----

  predicate IsLddw(inst: Inst) { inst.opcode == 0x18 }

  predicate IsStore(op: Op) { op.St? || op.Stx? }

  /** The next instruction in program order: a two-slot load takes two slots. */
  function After(insts: seq<Inst>, i: nat): nat
    requires i < |insts|
  {
    if IsLddw(insts[i]) then i + 2 else i + 1
  }

  /** The checks one opcode gets, before the register checks. */
  function OpError(insts: seq<Inst>, ext: seq<u64>, i: nat): Option<Error>
    requires i < |insts| && |ext| == MAX_EXT_FUNCS
  {
    var inst := insts[i];
    match DecodeOp(inst.opcode)
    case None => Some(UnknownOpcode(i))
    case Some(End(_)) =>
      if inst.imm != 16 && inst.imm != 32 && inst.imm != 64 then Some(InvalidEndianImmediate(i)) else None
    case Some(Lddw) =>
      if i + 1 >= |insts| || insts[i + 1].opcode != 0 then Some(IncompleteLddw(i)) else None
    case Some(Ja) => JumpError(insts, i)
    case Some(Jmp(_, _)) => JumpError(insts, i)
    case Some(Call) =>
      if inst.imm < 0 || inst.imm >= MAX_EXT_FUNCS then Some(InvalidCallImmediate(i))
      else if ext[inst.imm] == 0 then Some(NonexistentFunction(i))
      else None
    case Some(Alu(_, op, Imm)) =>
      if (op.Div? || op.Mod?) && inst.imm == 0 then Some(ConstantDivisionByZero(i)) else None
    case _ => None
  }

  function JumpError(insts: seq<Inst>, i: nat): Option<Error>
    requires i < |insts|
  {
    var target := i + 1 + insts[i].offset;
    if insts[i].offset == -1 then Some(InfiniteLoop(i))
    else if target < 0 || target >= |insts| then Some(JumpOutOfBounds(i))
    else if insts[target].opcode == 0 then Some(JumpToMiddleOfLddw(i))
    else None
  }

  /** The register checks; `pc` is the slot they report. */
  function RegisterError(inst: Inst, pc: nat): Option<Error>
  {
    var op := DecodeOp(inst.opcode);
    if inst.src > 10 then Some(InvalidSourceRegister(pc))
    else if inst.dst > 9 && !(op.Some? && IsStore(op.value) && inst.dst == 10) then
      Some(InvalidDestinationRegister(pc))
    else None
  }

  function InstError(insts: seq<Inst>, ext: seq<u64>, i: nat): Option<Error>
    requires i < |insts| && |ext| == MAX_EXT_FUNCS
  {
    match OpError(insts, ext, i)
    case Some(e) => Some(e)
    case None => RegisterError(insts[i], if IsLddw(insts[i]) then i + 1 else i)
  }

  /** The first error met when walking the instructions from slot `i`. */
  function FirstError(insts: seq<Inst>, ext: seq<u64>, i: nat): Option<Error>
    requires |ext| == MAX_EXT_FUNCS
    decreases |insts| - i
  {
    if i >= |insts| then None
    else match InstError(insts, ext, i)
      case Some(e) => Some(e)
      case None => FirstError(insts, ext, After(insts, i))
  }

  /** The slots where an instruction starts, walking from slot `i`. */
  function Starts(insts: seq<Inst>, i: nat): set<nat>
    decreases |insts| - i
  {
    if i >= |insts| then {} else {i} + Starts(insts, After(insts, i))
  }

  predicate IsStart(insts: seq<Inst>, i: int) { i in Starts(insts, 0) }

  /** Every instruction passes its checks and there are not too many: no appeal to the order of the walk. */
  ghost predicate Accepted(insts: seq<Inst>, ext: seq<u64>)
    requires |ext| == MAX_EXT_FUNCS
  {
    && |insts| < MAX_INSTS
    && forall i :: i in Starts(insts, 0) && i < |insts| ==> InstError(insts, ext, i).None?
  }

  /** Every instruction is known, and every two-slot load has its second slot. */
  ghost predicate Whole(insts: seq<Inst>)
  {
    forall i :: i in Starts(insts, 0) && i < |insts| ==> WholeAt(insts, i)
  }

  predicate WholeAt(insts: seq<Inst>, i: nat)
    requires i < |insts|
  {
    DecodeOp(insts[i].opcode).Some? && (IsLddw(insts[i]) ==> i + 1 < |insts| && insts[i + 1].opcode == 0)
  }

  /**
   * A look at one opcode decides the check of a jump: unless other checks fail, it is passed exactly by the jumps that
   * do not go to themselves and do go to the start of an instruction.
   */
  method CheckJump(insts: seq<Inst>, i: nat) returns (e: Option<Error>)
    requires i < |insts|
    ensures e == JumpError(insts, i)
    ensures Whole(insts) ==> (e.None? <==> insts[i].offset != -1 && IsStart(insts, i + 1 + insts[i].offset))
  {
    if Whole(insts) {
      JumpExact(insts, i);
    }
    if insts[i].offset == -1 {
      return Some(InfiniteLoop(i));
    }
    var newPc := i + 1 + insts[i].offset;
    if newPc < 0 || newPc >= |insts| {
      return Some(JumpOutOfBounds(i));
    } else if insts[newPc].opcode == 0 {
      return Some(JumpToMiddleOfLddw(i));
    }
    return None;
  }

  /** One round of the checking loop: the error, or the slot of the next instruction. */
  method CheckInst(insts: seq<Inst>, ext: seq<u64>, at: nat) returns (e: Option<Error>, i: nat)
    requires |ext| == MAX_EXT_FUNCS && at < |insts|
    ensures e == InstError(insts, ext, at)
    ensures e.None? ==> i == After(insts, at)
  {
    hide DecodeOp, JumpError;
    var inst := insts[at];
    var store := false;
    i := at;
    LddwOpcode(inst.opcode);
    match DecodeOp(inst.opcode)
    {
      case None =>
        return Some(UnknownOpcode(i)), i;
      case Some(End(_)) =>
        if inst.imm != 16 && inst.imm != 32 && inst.imm != 64 {
          return Some(InvalidEndianImmediate(i)), i;
        }
      case Some(St(_)) =>
        store := true;
      case Some(Stx(_)) =>
        store := true;
      case Some(Lddw) =>
        if i + 1 >= |insts| || insts[i + 1].opcode != 0 {
          return Some(IncompleteLddw(i)), i;
        }
        i := i + 1;
      case Some(Ja) =>
        e := CheckJump(insts, i);
        if e.Some? {
          return;
        }
      case Some(Jmp(_, _)) =>
        e := CheckJump(insts, i);
        if e.Some? {
          return;
        }
      case Some(Call) =>
        if inst.imm < 0 || inst.imm >= MAX_EXT_FUNCS {
          return Some(InvalidCallImmediate(i)), i;
        }
        if ext[inst.imm] == 0 {
          return Some(NonexistentFunction(i)), i;
        }
      case Some(Alu(_, op, Imm)) =>
        if (op.Div? || op.Mod?) && inst.imm == 0 {
          return Some(ConstantDivisionByZero(i)), i;
        }
      case _ =>
    }
    if inst.src > 10 {
      return Some(InvalidSourceRegister(i)), i;
    }
    if inst.dst > 9 && !(store && inst.dst == 10) {
      return Some(InvalidDestinationRegister(i)), i;
    }
    return None, i + 1;
  }

  /**
   * The checking loop. It accepts exactly the programs that satisfy `Accepted`, which are those whose slots all fit,
   * and otherwise reports the first error.
   */
  method Validate(insts: seq<Inst>, ext: seq<u64>) returns (e: Option<Error>)
    requires |ext| == MAX_EXT_FUNCS
    ensures e.None? <==> Accepted(insts, ext)
    ensures e.None? <==> |insts| < 65536 && forall i: nat :: i < |insts| ==> SlotFits(insts, ext, i)
    ensures |insts| < MAX_INSTS ==> e == FirstError(insts, ext, 0)
    ensures |insts| >= MAX_INSTS ==> e == Some(TooManyInstructions)
  {
    hide InstError, SlotFits;
    FirstErrorNone(insts, ext, 0);
    AcceptedExactly(insts, ext);
    if |insts| >= MAX_INSTS {
      return Some(TooManyInstructions);
    }
    var i := 0;
    while i < |insts|
      invariant FirstError(insts, ext, 0) == FirstError(insts, ext, i)
    {
      var next;
      e, next := CheckInst(insts, ext, i);
      if e.Some? {
        return;
      }
      i := next;
    }
    return None;
  }

  lemma LddwOpcode(opcode: byte)
    ensures opcode == 0x18 <==> DecodeOp(opcode) == Some(Lddw)
    ensures opcode == 0 ==> DecodeOp(opcode).None?
  {
    OpcodeTable(Lddw, opcode);
  }

  lemma {:induction false} FirstErrorNone(insts: seq<Inst>, ext: seq<u64>, i: nat)
    requires |ext| == MAX_EXT_FUNCS
    ensures FirstError(insts, ext, i).None? <==>
      forall k :: k in Starts(insts, i) && k < |insts| ==> InstError(insts, ext, k).None?
    decreases |insts| - i
  {
    if i < |insts| {
      FirstErrorNone(insts, ext, After(insts, i));
    }
  }

  // ----- what acceptance guarantees, whatever the program does -----

  lemma {:induction false} StartsBounded(insts: seq<Inst>, i: nat)
    ensures forall k :: k in Starts(insts, i) ==> i <= k < |insts|
    decreases |insts| - i
  {
    if i < |insts| {
      StartsBounded(insts, After(insts, i));
    }
  }

  /** The walk visits the successor of every slot it visits. */
  lemma {:induction false} StartsClosed(insts: seq<Inst>, i: nat, k: nat)
    requires k in Starts(insts, i)
    ensures k < |insts| && (After(insts, k) < |insts| ==> After(insts, k) in Starts(insts, i))
    decreases |insts| - i
  {
    if k != i {
      StartsClosed(insts, After(insts, i), k);
    }
  }

  /** A slot whose opcode is not 0 starts an instruction: a jump check by opcode is enough. */
  lemma {:induction false} NonzeroIsStart(insts: seq<Inst>, i: nat, k: nat)
    requires i <= k < |insts| && insts[k].opcode != 0
    requires forall j :: j in Starts(insts, i) && j < |insts| ==> WholeAt(insts, j)
    ensures k in Starts(insts, i)
    decreases |insts| - i
  {
    hide DecodeOp;
    if i < k {
      assert i in Starts(insts, i);
      NonzeroIsStart(insts, After(insts, i), k);
    }
  }

  lemma JumpExact(insts: seq<Inst>, i: nat)
    requires i < |insts| && Whole(insts)
    ensures JumpError(insts, i).None? <==> insts[i].offset != -1 && IsStart(insts, i + 1 + insts[i].offset)
  {
    hide DecodeOp;
    var target := i + 1 + insts[i].offset;
    StartsBounded(insts, 0);
    if 0 <= target < |insts| {
      LddwOpcode(insts[target].opcode);
      if insts[target].opcode != 0 {
        NonzeroIsStart(insts, 0, target);
      }
    }
  }

  lemma AcceptedIsWhole(insts: seq<Inst>, ext: seq<u64>)
    requires |ext| == MAX_EXT_FUNCS && Accepted(insts, ext)
    ensures Whole(insts)
  {
    hide DecodeOp, JumpError, RegisterError;
    forall i | i in Starts(insts, 0) && i < |insts| ensures WholeAt(insts, i) {
      LddwOpcode(insts[i].opcode);
      assert InstError(insts, ext, i).None?;
    }
  }

  /** A slot the walk does not visit is the second of a two-slot load. */
  lemma {:induction false} GapIsSecond(insts: seq<Inst>, i: nat, k: nat)
    requires i <= k < |insts| && k !in Starts(insts, i)
    ensures k > i && k - 1 in Starts(insts, i) && IsLddw(insts[k - 1])
    decreases |insts| - i
  {
    if k > i + 1 || !IsLddw(insts[i]) {
      GapIsSecond(insts, After(insts, i), k);
    }
  }

  /**
   * What a slot must be like, told by itself, its neighbours and the slot it jumps to: either the empty second slot of
   * a two-slot load, or a known instruction with registers that exist and may be written, whose immediate is one its
   * operation takes, whose second slot is there, and which jumps, if at all, to another instruction of the program.
   */
  predicate SlotFits(insts: seq<Inst>, ext: seq<u64>, i: nat)
    requires |ext| == MAX_EXT_FUNCS && i < |insts|
  {
    var inst, op := insts[i], DecodeOp(insts[i].opcode);
    if inst.opcode == 0 then i > 0 && insts[i - 1].opcode == 0x18
    else
      && op.Some? && inst.src <= 10 && inst.dst <= (if op.value.St? || op.value.Stx? then 10 else 9)
      && match op.value
         case End(_) => inst.imm == 16 || inst.imm == 32 || inst.imm == 64
         case Lddw => i + 1 < |insts| && insts[i + 1].opcode == 0
         case Ja =>
           inst.offset != -1 && 0 <= i + 1 + inst.offset < |insts| && insts[i + 1 + inst.offset].opcode != 0
         case Jmp(_, _) =>
           inst.offset != -1 && 0 <= i + 1 + inst.offset < |insts| && insts[i + 1 + inst.offset].opcode != 0
         case Call => 0 <= inst.imm < 64 && ext[inst.imm] != 0
         case Alu(_, a, Imm) => a.Div? || a.Mod? ==> inst.imm != 0
         case _ => true
  }

  /** If every slot fits, the walk visits no second slot. */
  lemma {:induction false} StartsNonzero(insts: seq<Inst>, ext: seq<u64>, i: nat, k: nat)
    requires |ext| == MAX_EXT_FUNCS && forall j: nat :: j < |insts| ==> SlotFits(insts, ext, j)
    requires k in Starts(insts, i) && (i < |insts| ==> insts[i].opcode != 0)
    ensures k < |insts| && insts[k].opcode != 0
    decreases |insts| - i
  {
    if k != i {
      hide DecodeOp;
      LddwOpcode(insts[i].opcode);
      assert SlotFits(insts, ext, i);
      var next := After(insts, i);
      assert next < |insts| ==> SlotFits(insts, ext, next);
      StartsNonzero(insts, ext, next, k);
    }
  }

  /** What one instruction must be like, told by its own slot, the slot behind it and the slot it jumps to. */
  lemma InstPasses(insts: seq<Inst>, ext: seq<u64>, i: nat)
    requires |ext| == MAX_EXT_FUNCS && i < |insts|
    ensures var inst, op := insts[i], DecodeOp(insts[i].opcode);
      InstError(insts, ext, i).None? <==>
        && op.Some? && inst.src <= 10 && inst.dst <= (if op.value.St? || op.value.Stx? then 10 else 9)
        && match op.value
           case End(_) => inst.imm == 16 || inst.imm == 32 || inst.imm == 64
           case Lddw => i + 1 < |insts| && insts[i + 1].opcode == 0
           case Ja =>
             inst.offset != -1 && 0 <= i + 1 + inst.offset < |insts| && insts[i + 1 + inst.offset].opcode != 0
           case Jmp(_, _) =>
             inst.offset != -1 && 0 <= i + 1 + inst.offset < |insts| && insts[i + 1 + inst.offset].opcode != 0
           case Call => 0 <= inst.imm < 64 && ext[inst.imm] != 0
           case Alu(_, a, Imm) => a.Div? || a.Mod? ==> inst.imm != 0
           case _ => true
  {
    hide DecodeOp;
  }

  /**
   * Which error an instruction gives. Those about its operation come first, each exactly under its condition; a
   * register is reported with the last slot of the instruction.
   */
  lemma ErrorExactly(insts: seq<Inst>, ext: seq<u64>, i: nat, p: nat)
    requires |ext| == MAX_EXT_FUNCS && i < |insts|
    ensures var inst, op, e := insts[i], DecodeOp(insts[i].opcode), InstError(insts, ext, i);
      var jump, to := op == Some(Ja) || (op.Some? && op.value.Jmp?), i + 1 + inst.offset;
      && (e == Some(UnknownOpcode(p)) <==> p == i && op.None?)
      && (e == Some(InvalidEndianImmediate(p)) <==>
          p == i && op.Some? && op.value.End? && inst.imm != 16 && inst.imm != 32 && inst.imm != 64)
      && (e == Some(IncompleteLddw(p)) <==>
          p == i && op == Some(Lddw) && (i + 1 == |insts| || insts[i + 1].opcode != 0))
      && (e == Some(InfiniteLoop(p)) <==> p == i && jump && inst.offset == -1)
      && (e == Some(JumpOutOfBounds(p)) <==> p == i && jump && inst.offset != -1 && !(0 <= to < |insts|))
      && (e == Some(JumpToMiddleOfLddw(p)) <==>
          p == i && jump && inst.offset != -1 && 0 <= to < |insts| && insts[to].opcode == 0)
      && (e == Some(InvalidCallImmediate(p)) <==> p == i && op == Some(Call) && !(0 <= inst.imm < 64))
      && (e == Some(NonexistentFunction(p)) <==>
          p == i && op == Some(Call) && 0 <= inst.imm < 64 && ext[inst.imm] == 0)
      && (e == Some(ConstantDivisionByZero(p)) <==>
          p == i && op.Some? && op.value.Alu? && (op.value.alu.Div? || op.value.alu.Mod?) && op.value.operand.Imm?
          && inst.imm == 0)
      && (e == Some(InvalidSourceRegister(p)) ==>
          inst.src > 10 && p == if op == Some(Lddw) then i + 1 else i)
      && (e == Some(InvalidDestinationRegister(p)) ==>
          && inst.src <= 10 && p == (if op == Some(Lddw) then i + 1 else i)
          && inst.dst > (if op.Some? && (op.value.St? || op.value.Stx?) then 10 else 9))
  {
    LddwOpcode(insts[i].opcode);
    hide DecodeOp;
  }

  /** The error reported for a program is that of an instruction before which all pass. */
  lemma {:induction false} FirstErrorExactly(insts: seq<Inst>, ext: seq<u64>, i: nat)
    requires |ext| == MAX_EXT_FUNCS && FirstError(insts, ext, i).Some?
    ensures exists k ::
      && k in Starts(insts, i) && k < |insts| && InstError(insts, ext, k) == FirstError(insts, ext, i)
      && forall j :: j in Starts(insts, i) && j < k ==> InstError(insts, ext, j).None?
    decreases |insts| - i
  {
    hide InstError;
    StartsBounded(insts, i);
    if InstError(insts, ext, i).None? {
      FirstErrorExactly(insts, ext, After(insts, i));
      StartsBounded(insts, After(insts, i));
    }
  }

  /** In an accepted program a slot starts an instruction exactly when its opcode is not 0. */
  lemma StartsExactly(insts: seq<Inst>, ext: seq<u64>, i: nat)
    requires |ext| == MAX_EXT_FUNCS && Accepted(insts, ext) && i < |insts|
    ensures IsStart(insts, i) <==> insts[i].opcode != 0
  {
    hide DecodeOp, InstError;
    AcceptedIsWhole(insts, ext);
    LddwOpcode(insts[i].opcode);
    if insts[i].opcode != 0 {
      NonzeroIsStart(insts, 0, i);
    }
  }

  /** The programs that are accepted, slot by slot, without a walk. */
  lemma AcceptedExactly(insts: seq<Inst>, ext: seq<u64>)
    requires |ext| == MAX_EXT_FUNCS
    ensures Accepted(insts, ext) <==> |insts| < 65536 && forall i: nat :: i < |insts| ==> SlotFits(insts, ext, i)
  {
    hide DecodeOp, InstError;
    forall i: nat | i < |insts|
      ensures insts[i].opcode == 0x18 <==> DecodeOp(insts[i].opcode) == Some(Lddw)
      ensures insts[i].opcode == 0 ==> DecodeOp(insts[i].opcode).None?
    {
      LddwOpcode(insts[i].opcode);
    }
    if Accepted(insts, ext) {
      forall i: nat | i < |insts| ensures SlotFits(insts, ext, i) {
        StartsExactly(insts, ext, i);
        InstPasses(insts, ext, i);
        if !IsStart(insts, i) {
          GapIsSecond(insts, 0, i);
        }
      }
    }
    if |insts| < MAX_INSTS && forall i: nat :: i < |insts| ==> SlotFits(insts, ext, i) {
      assert |insts| > 0 ==> SlotFits(insts, ext, 0);
      forall i | i in Starts(insts, 0) && i < |insts| ensures InstError(insts, ext, i).None? {
        StartsNonzero(insts, ext, 0, i);
        assert SlotFits(insts, ext, i);
        InstPasses(insts, ext, i);
      }
    }
  }

  ghost predicate Runnable(vm: Vm)
  {
    |vm.extFuncs| == MAX_EXT_FUNCS && Accepted(vm.insts, vm.extFuncs)
  }

  /** The invariant of every run: pc is the end or an instruction start, and r10 is the frame pointer. */
  ghost predicate Good(vm: Vm, ctx: Ctx, s: State)
  {
    && (s.pc == |vm.insts| || IsStart(vm.insts, s.pc))
    && s.regs[10] == Wrap64(ctx.stack + STACK_SIZE)
  }

  /** At an instruction start of an accepted program the instruction is known and its registers exist. */
  lemma StartFacts(vm: Vm, i: nat)
    requires Runnable(vm) && IsStart(vm.insts, i)
    ensures i < |vm.insts| && InstError(vm.insts, vm.extFuncs, i).None?
    ensures DecodeOp(vm.insts[i].opcode).Some?
    ensures vm.insts[i].src <= 10 && vm.insts[i].dst <= 10
    ensures vm.insts[i].dst == 10 ==> IsStore(DecodeOp(vm.insts[i].opcode).value)
    ensures After(vm.insts, i) == |vm.insts| || IsStart(vm.insts, After(vm.insts, i))
    ensures DecodeOp(vm.insts[i].opcode) == Some(Lddw) <==> After(vm.insts, i) == i + 2
  {
    var insts := vm.insts;
    StartsBounded(insts, 0);
    StartsClosed(insts, 0, i);
    LddwOpcode(insts[i].opcode);
    assert InstError(insts, vm.extFuncs, i).None?;
    if IsLddw(insts[i]) {
      assert After(insts, i) <= |insts|;
    }
  }

  /** A jump lands on an instruction start, and the 16-bit addition the interpreter does is exact. */
  lemma JumpFacts(vm: Vm, i: nat)
    requires Runnable(vm) && IsStart(vm.insts, i)
    requires i < |vm.insts| && DecodeOp(vm.insts[i].opcode).Some?
    requires DecodeOp(vm.insts[i].opcode).value.Ja? || DecodeOp(vm.insts[i].opcode).value.Jmp?
    ensures var target := i + 1 + vm.insts[i].offset;
      0 <= target < |vm.insts| && IsStart(vm.insts, target) && target != i && (i + 1) % TWO16 == i + 1
      && ((i + 1) % TWO16 + vm.insts[i].offset) % TWO16 == target
  {
    hide DecodeOp, JumpError, Starts, InstError, RegisterError, Whole;
    StartFacts(vm, i);
    assert |vm.insts| < MAX_INSTS;
    AcceptedIsWhole(vm.insts, vm.extFuncs);
    JumpPassed(vm.insts, vm.extFuncs, i);
    hide Runnable;
    JumpExact(vm.insts, i);
    StartsBounded(vm.insts, 0);
    JumpSum(i, vm.insts[i].offset, |vm.insts|);
  }

  lemma JumpPassed(insts: seq<Inst>, ext: seq<u64>, i: nat)
    requires i < |insts| && |ext| == MAX_EXT_FUNCS && InstError(insts, ext, i).None?
    requires DecodeOp(insts[i].opcode).Some?
    requires DecodeOp(insts[i].opcode).value.Ja? || DecodeOp(insts[i].opcode).value.Jmp?
    ensures JumpError(insts, i).None?
  {
    hide DecodeOp, JumpError, RegisterError;
  }

  lemma JumpSum(i: nat, offset: i16, n: nat)
    requires i < n < TWO16 && 0 <= i + 1 + offset < n
    ensures (i + 1) % TWO16 == i + 1 && ((i + 1) % TWO16 + offset) % TWO16 == i + 1 + offset
  {
  }

  /** Whether the instruction transfers control to its target. */
  predicate Jumps(s: State, inst: Inst, op: Op)
  {
    op.Ja? || (op.Jmp? && Taken(op.cond, op.operand, s.regs[inst.dst], s.regs[inst.src], inst.imm))
  }

  lemma ExecuteGoesTo(vm: Vm, h: Helpers, ctx: Ctx, s: State, inst: Inst, op: Op)
    requires Execute(vm, h, ctx, s, inst, op).Next?
    ensures Execute(vm, h, ctx, s, inst, op).s.pc ==
      if Jumps(s, inst, op) then Advance(Advance(s.pc, 1), inst.offset)
      else if op.Lddw? then Advance(Advance(s.pc, 1), 1)
      else Advance(s.pc, 1)
  {
    hide AluSem, Taken, EndSem, Load, Store, Mapped, InBounds, LddwValue, Advance;
  }

  /** Where a step goes: the next instruction in program order, or the jump target. */
  lemma StepGoesTo(vm: Vm, h: Helpers, ctx: Ctx, s: State)
    requires Runnable(vm) && Good(vm, ctx, s) && s.pc < |vm.insts|
    requires Step(vm, h, ctx, s).Next?
    ensures DecodeOp(vm.insts[s.pc].opcode).Some?
    ensures Step(vm, h, ctx, s).s.pc ==
      if Jumps(s, vm.insts[s.pc], DecodeOp(vm.insts[s.pc].opcode).value) then s.pc + 1 + vm.insts[s.pc].offset
      else After(vm.insts, s.pc)
  {
    hide Execute, Taken, Starts;
    StartFacts(vm, s.pc);
    assert |vm.insts| < MAX_INSTS && (DecodeOp(vm.insts[s.pc].opcode) == Some(Lddw) ==> s.pc + 1 < |vm.insts|);
    hide Runnable, InstError;
    var inst := vm.insts[s.pc];
    var op := DecodeOp(inst.opcode).value;
    if op.Ja? || op.Jmp? {
      JumpFacts(vm, s.pc);
    }
    ExecuteGoesTo(vm, h, ctx, s, inst, op);
  }

  /** Soundness, one step: the invariant is kept. */
  lemma StepKeepsGood(vm: Vm, h: Helpers, ctx: Ctx, s: State)
    requires Runnable(vm) && Good(vm, ctx, s) && s.pc < |vm.insts|
    requires Step(vm, h, ctx, s).Next?
    ensures Good(vm, ctx, Step(vm, h, ctx, s).s)
  {
    StartFacts(vm, s.pc);
    StepGoesTo(vm, h, ctx, s);
    var op := DecodeOp(vm.insts[s.pc].opcode).value;
    if op.Ja? || op.Jmp? {
      JumpFacts(vm, s.pc);
    }
    StepKeepsR10(vm, h, ctx, s, vm.insts[s.pc], op);
  }

  lemma StepKeepsR10(vm: Vm, h: Helpers, ctx: Ctx, s: State, inst: Inst, op: Op)
    requires inst.dst == 10 ==> IsStore(op)
    requires Execute(vm, h, ctx, s, inst, op).Next?
    ensures Execute(vm, h, ctx, s, inst, op).s.regs[10] == s.regs[10]
  {
    hide AluSem, Taken, EndSem, Load, Store, Mapped, InBounds, LddwValue, Advance;
  }
}
