/** The virtual machine object: registering helpers, loading code, running it. */
module UbpfVm {
  import opened Words
  import opened Ebpf
  import opened Memory
  import opened Interp
  import V = Validator
  import R = Runs

  /** The process memory the interpreter reads and writes. */
  class Ram {
    var bytes: Mem

    constructor (m: Mem)
      ensures bytes == m
    {
      bytes := m;
    }
  }

  datatype LoadResult = Loaded | AlreadyLoaded | BadLength | Rejected(error: V.Error)

  function LoadWord(m: Mem, a: int, sz: Size): u64
    requires Mapped(m, a, SizeBytes(sz))
  {
    LoadIsWord(m, a, sz);
    Load(m, a, SizeBytes(sz))
  }

  datatype Access = Accessed | Denied | Fault

  datatype AluStatus = Done | ByZero | NotDefined

  class UbpfVm {
    var insts: Option<seq<Inst>>
    const extFuncs: array<u64>
    const extFuncNames: array<Option<string>>
    var boundsCheckEnabled: bool
    var unwindStackExtensionIndex: int

    ghost predicate Valid()
      reads this
    {
      && extFuncs.Length == MAX_EXT_FUNCS && extFuncNames.Length == MAX_EXT_FUNCS
      && (insts.Some? ==> |insts.value| < MAX_INSTS)
    }

    /** The machine the interpreter runs. */
    ghost function Model(): Vm
      requires insts.Some?
      reads this, extFuncs
    {
      Vm(insts.value, boundsCheckEnabled, extFuncs[..], unwindStackExtensionIndex)
    }

    constructor ()
      ensures Valid() && insts.None? && !boundsCheckEnabled && unwindStackExtensionIndex == -1
      ensures fresh(extFuncs) && fresh(extFuncNames)
      ensures forall i :: 0 <= i < MAX_EXT_FUNCS ==> extFuncs[i] == 0 && extFuncNames[i].None?
    {
      insts := None;
      extFuncs := new u64[MAX_EXT_FUNCS](_ => 0);
      extFuncNames := new Option<string>[MAX_EXT_FUNCS](_ => None);
      boundsCheckEnabled := false;
      unwindStackExtensionIndex := -1;
    }

    method Register(idx: nat, name: Option<string>, fn: u64) returns (ok: bool)
      requires Valid()
      modifies extFuncs, extFuncNames
      ensures Valid() && ok == (idx < MAX_EXT_FUNCS)
      ensures extFuncs[..] == if ok then old(extFuncs[..])[idx := fn] else old(extFuncs[..])
      ensures extFuncNames[..] == if ok then old(extFuncNames[..])[idx := name] else old(extFuncNames[..])
      ensures insts.Some? && fn != 0 && old(V.Runnable(Model())) ==> V.Runnable(Model())
    {
      if idx >= MAX_EXT_FUNCS {
        return false;
      }
      ghost var before := extFuncs[..];
      extFuncs[idx] := fn;
      extFuncNames[idx] := name;
      assert extFuncs[..] == before[idx := fn];
      if insts.Some? && fn != 0 && old(V.Runnable(Model())) {
        MoreFunctions(insts.value, before, idx, fn);
      }
      return true;
    }

    /** The index can be set once. */
    method SetUnwindFunctionIndex(idx: u32) returns (ok: bool)
      modifies this`unwindStackExtensionIndex
      ensures ok == (old(unwindStackExtensionIndex) == -1)
      ensures unwindStackExtensionIndex == if ok then Signed32(idx) else old(unwindStackExtensionIndex)
    {
      if unwindStackExtensionIndex != -1 {
        return false;
      }
      unwindStackExtensionIndex := Signed32(idx);
      return true;
    }

    /** The first function registered under a name, or all ones. */
    method LookupRegisteredFunction(name: string) returns (r: u32)
      requires Valid()
      ensures r < MAX_EXT_FUNCS ==> extFuncNames[r] == Some(name) && forall k :: 0 <= k < r ==>
        extFuncNames[k] != Some(name)
      ensures r >= MAX_EXT_FUNCS ==>
        r == TWO32 - 1 && forall k :: 0 <= k < MAX_EXT_FUNCS ==> extFuncNames[k] != Some(name)
    {
      for i := 0 to MAX_EXT_FUNCS
        invariant forall k :: 0 <= k < i ==> extFuncNames[k] != Some(name)
      {
        if extFuncNames[i] == Some(name) {
          return i;
        }
      }
      return TWO32 - 1;
    }

    /** Code is loaded once, in whole instructions, and only if it validates. */
    method LoadCode(code: seq<byte>) returns (r: LoadResult)
      requires Valid()
      modifies this`insts
      ensures Valid() && (!r.Loaded? ==> insts == old(insts))
      ensures r.AlreadyLoaded? <==> old(insts).Some?
      ensures old(insts).None? ==> (r.BadLength? <==> |code| % 8 != 0)
      ensures r.Loaded? ==> |code| % 8 == 0 && insts == Some(DecodeInsts(code)) && V.Runnable(Model())
      ensures r.Rejected? ==> |code| % 8 == 0 && !V.Accepted(DecodeInsts(code), extFuncs[..])
    {
      if insts.Some? {
        return AlreadyLoaded;
      }
      if |code| % 8 != 0 {
        return BadLength;
      }
      var e := V.Validate(DecodeInsts(code), extFuncs[..]);
      if e.Some? {
        return Rejected(e.value);
      }
      insts := Some(DecodeInsts(code));
      return Loaded;
    }

    method UnloadCode()
      requires Valid()
      modifies this`insts
      ensures Valid() && insts.None?
    {
      insts := None;
    }

    method BoundsCheck(addr: u64, size: nat, mem: u64, memLen: u64, stack: u64) returns (ok: bool)
      requires insts.Some?
      ensures ok == InBounds(Model(), Ctx(mem, memLen, stack), addr, size)
    {
      if !boundsCheckEnabled {
        return true;
      }
      if mem != 0 && addr >= mem && addr + size <= mem + memLen {
        return true;
      } else if addr >= stack && addr + size <= stack + STACK_SIZE {
        return true;
      } else {
        return false;
      }
    }

    // ----- running -----

    /** An arithmetic instruction; 32-bit results are computed on 64 bits and masked. */
    static method ExecAlu(reg: array<u64>, inst: Inst, w: Width, op: AluOp, o: Operand) returns (r: AluStatus)
      requires reg.Length == 16
      modifies reg
      ensures var v := AluSem(w, op, o, old(reg[inst.dst]), old(reg[inst.src]), inst.imm);
        && (r.Done? <==> v.Value?) && (r.ByZero? <==> v.DivZero?)
        && reg[..] == if v.Value? then old(reg[..])[inst.dst := v.v] else old(reg[..])
    {
      hide Bitwise, Pow2;
      var d, b := reg[inst.dst], if o.Imm? then Wrap64(inst.imm) else reg[inst.src];
      var n := ShiftAmount(o, reg[inst.src], inst.imm);
      var result: int;
      match op {
        case Add => result := d + b;
        case Sub => result := d - b;
        case Mul => result := d * b;
        case Or => result := Bitwise(BitOr, d, b);
        case And => result := Bitwise(BitAnd, d, b);
        case Xor => result := Bitwise(BitXor, d, b);
        case Mov => result := b;
        case Lsh => r, result := ShiftLeft(w, d, n);
        case Rsh => r, result := ShiftRightLogical(w, d, n);
        case Arsh => r, result := ShiftRightSigned(w, d, if w.W32? && o.Reg? then Low32(reg[inst.src]) else n);
        case _ => r, result := Divide(w, op.Mod?, o, d, b);
      }
      if !op.Lsh? && !op.Rsh? && !op.Arsh? && !op.Div? && !op.Mod? {
        r := Done;
      }
      if !r.Done? {
        return;
      }
      reg[inst.dst] := Wrap64(result);
      if w.W32? {
        MaskWord(result);
        reg[inst.dst] := Low32(reg[inst.dst]);
      }
    }

    static method Divide(w: Width, mod: bool, o: Operand, d: u64, b: u64) returns (r: AluStatus, result: int)
      ensures r.ByZero? <==> o.Reg? && b == 0
      ensures r.Done? <==> !r.ByZero? && DivSem(w, mod, d, b).Value?
      ensures r.Done? ==> Truncated(w, result) == DivSem(w, mod, d, b)
    {
      if o.Reg? && b == 0 {
        return ByZero, 0;
      }
      var x, y := if w.W32? then Low32(d) else d, if w.W32? then Low32(b) else b;
      if y == 0 {
        return NotDefined, 0;
      }
      DivSmaller(x, y);
      result := if mod then x % y else x / y;
      Small(w, result, x);
      r := Done;
    }

    static method ShiftLeft(w: Width, d: u64, n: int) returns (r: AluStatus, result: int)
      ensures !r.ByZero? && (r.Done? <==> ShlSem(w, d, n).Value?)
      ensures r.Done? ==> Truncated(w, result) == ShlSem(w, d, n)
    {
      if !(0 <= n < 64) {
        return NotDefined, 0;
      }
      return Done, d * Pow2(n);
    }

    static method ShiftRightLogical(w: Width, d: u64, n: int) returns (r: AluStatus, result: int)
      ensures !r.ByZero? && (r.Done? <==> ShrSem(w, d, n).Value?)
      ensures r.Done? ==> Truncated(w, result) == ShrSem(w, d, n)
    {
      if !(0 <= n < if w.W32? then 32 else 64) {
        return NotDefined, 0;
      }
      var x := if w.W32? then Low32(d) else d;
      DivSmaller(x, Pow2(n));
      result := x / Pow2(n);
      Small(w, result, x);
      r := Done;
    }

    static method ShiftRightSigned(w: Width, d: u64, n: int) returns (r: AluStatus, result: int)
      ensures !r.ByZero? && (r.Done? <==> SarSem(w, d, n).Value?)
      ensures r.Done? ==> Truncated(w, result) == SarSem(w, d, n)
    {
      if !(0 <= n < if w.W32? then 32 else 64) {
        return NotDefined, 0;
      }
      return Done, (if w.W32? then Signed32(Low32(d)) else Signed64(d)) / Pow2(n);
    }

    /** A load or store: the bounds check, then the access. */
    method ExecLoad(ram: Ram, reg: array<u64>, inst: Inst, sz: Size, mem: u64, memLen: u64, stack: u64)
      returns (r: Access)
      requires insts.Some? && reg.Length == 16 && reg != extFuncs
      modifies reg
      ensures var a := Wrap64(old(reg[inst.src]) + inst.offset);
        var ok := InBounds(Model(), Ctx(mem, memLen, stack), a, SizeBytes(sz));
        && (r.Denied? <==> !ok) && (r.Fault? <==> ok && !Mapped(ram.bytes, a, SizeBytes(sz)))
        && reg[..] == (if r.Accessed? then
             old(reg[..])[inst.dst := LoadWord(ram.bytes, a, sz)] else old(reg[..]))
    {
      hide Load, InBounds;
      var a := Wrap64(reg[inst.src] + inst.offset);
      var ok := BoundsCheck(a, SizeBytes(sz), mem, memLen, stack);
      if !ok {
        return Denied;
      }
      if !Mapped(ram.bytes, a, SizeBytes(sz)) {
        return Fault;
      }
      reg[inst.dst] := LoadWord(ram.bytes, a, sz);
      return Accessed;
    }

    method ExecStore(ram: Ram, reg: array<u64>, inst: Inst, sz: Size, v: int, mem: u64, memLen: u64, stack: u64)
      returns (r: Access)
      requires insts.Some? && reg.Length == 16
      modifies ram
      ensures var a := Wrap64(reg[inst.dst] + inst.offset);
        var ok := InBounds(Model(), Ctx(mem, memLen, stack), a, SizeBytes(sz));
        && (r.Denied? <==> !ok) && (r.Fault? <==> ok && !Mapped(old(ram.bytes), a, SizeBytes(sz)))
        && ram.bytes == if r.Accessed? then Store(old(ram.bytes), a, SizeBytes(sz), v) else old(ram.bytes)
    {
      hide Store, InBounds;
      var a := Wrap64(reg[inst.dst] + inst.offset);
      var ok := BoundsCheck(a, SizeBytes(sz), mem, memLen, stack);
      if !ok {
        return Denied;
      }
      if !Mapped(ram.bytes, a, SizeBytes(sz)) {
        return Fault;
      }
      ram.bytes := Store(ram.bytes, a, SizeBytes(sz), v);
      return Accessed;
    }

    /** One round of the interpreter's loop is one step of the specification. */
    method ExecInst(ram: Ram, reg: array<u64>, pc: u16, h: Helpers, mem: u64, memLen: u64, stack: u64)
      returns (o: Option<Outcome>, next: u16)
      requires insts.Some? && reg.Length == 16 && reg != extFuncs
      modifies ram, reg
      ensures var s := Step(Model(), h, Ctx(mem, memLen, stack), State(old(reg[..]), pc, old(ram.bytes)));
        if s.Next? then o.None? && s.s == State(reg[..], next, ram.bytes)
        else o == Some(s) && (!s.Undefined? ==> ram.bytes == R.MemOf(s))
    {
      hide AluSem, EndSem, NegSem, Taken, InBounds, LddwValue, DecodeOp, Load, Store, Mapped;
      if pc >= |insts.value| {
        return Some(Undefined), pc;
      }
      var inst := insts.value[pc];
      next := Advance(pc, 1);
      o := None;
      var op := DecodeOp(inst.opcode);
      if op.None? {
        return;
      }
      match op.value {
        case Alu(w, a, operand) =>
          var r := ExecAlu(reg, inst, w, a, operand);
          o := if r.Done? then None else Some(if r.ByZero? then DivideByZero(pc, ram.bytes) else Undefined);
        case Neg(w) => reg[inst.dst] := NegSem(w, reg[inst.dst]);
        case End(big) => reg[inst.dst] := EndSem(big, reg[inst.dst], inst.imm);
        case Ldx(sz) =>
          var r := ExecLoad(ram, reg, inst, sz, mem, memLen, stack);
          o := if r.Accessed? then None else Some(if r.Denied? then OutOfBounds(pc, ram.bytes) else Undefined);
        case St(sz) =>
          var r := ExecStore(ram, reg, inst, sz, inst.imm, mem, memLen, stack);
          o := if r.Accessed? then None else Some(if r.Denied? then OutOfBounds(pc, ram.bytes) else Undefined);
        case Stx(sz) =>
          var r := ExecStore(ram, reg, inst, sz, reg[inst.src], mem, memLen, stack);
          o := if r.Accessed? then None else Some(if r.Denied? then OutOfBounds(pc, ram.bytes) else Undefined);
        case Lddw =>
          if next >= |insts.value| {
            return Some(Undefined), next;
          }
          reg[inst.dst] := LddwValue(inst.imm, insts.value[next].imm);
          next := Advance(next, 1);
        case Ja => next := Advance(next, inst.offset);
        case Jmp(c, operand) =>
          if Taken(c, operand, reg[inst.dst], reg[inst.src], inst.imm) {
            next := Advance(next, inst.offset);
          }
        case Exit => return Some(Returned(reg[0], ram.bytes)), next;
        case Call => o := ExecCall(ram, reg, inst, h);
      }
    }

    /** Five argument registers go to the helper, its result to register 0. */
    method ExecCall(ram: Ram, reg: array<u64>, inst: Inst, h: Helpers) returns (o: Option<Outcome>)
      requires insts.Some? && reg.Length == 16 && reg != extFuncs
      modifies ram, reg
      ensures forall pc: u16 :: var s := CallStep(Model(), h, State(old(reg[..]), pc, old(ram.bytes)), inst);
        if s.Next? then o.None? && s.s == State(reg[..], Advance(pc, 1), ram.bytes)
        else o == Some(s) && (!s.Undefined? ==> ram.bytes == R.MemOf(s))
    {
      if !(0 <= inst.imm < extFuncs.Length) || extFuncs[inst.imm] == 0 {
        return Some(Undefined);
      }
      ghost var before := extFuncs[..];
      var (v, m) := h(extFuncs[inst.imm], reg[1..6], ram.bytes);
      reg[0], ram.bytes := v, m;
      assert extFuncs[..] == before;
      if inst.imm == unwindStackExtensionIndex && v == 0 {
        return Some(Returned(0, m));
      }
      return None;
    }

    /**
     * Run the loaded code for at most `fuel` instructions. The registers the C code leaves uninitialised hold
     * `garbage`; nothing runs when no code is loaded.
     */
    method Exec(ram: Ram, mem: u64, memLen: u64, stack: u64, h: Helpers, garbage: Regs, fuel: nat)
      returns (o: Option<Outcome>)
      modifies ram
      ensures insts.None? ==> o.None? && ram.bytes == old(ram.bytes)
      ensures insts.Some? ==>
        var ctx := Ctx(mem, memLen, stack);
        var result := Run(Model(), h, ctx, Initial(ctx, garbage, old(ram.bytes)), fuel);
        o == Some(result) && (!result.Undefined? ==> ram.bytes == R.MemOf(result))
    {
      hide Step;
      if insts.None? {
        return None;
      }
      var reg := new u64[16](i requires 0 <= i < 16 => garbage[i]);
      reg[1] := mem;
      reg[2] := memLen;
      reg[10] := Wrap64(stack + STACK_SIZE);
      var pc: u16 := 0;
      ghost var vm, ctx := Model(), Ctx(mem, memLen, stack);
      ghost var s0 := Initial(ctx, garbage, ram.bytes);
      assert reg[..] == s0.regs;
      var left := fuel;
      while left > 0
        invariant reg != extFuncs && Model() == vm
        invariant Run(vm, h, ctx, s0, fuel) == Run(vm, h, ctx, State(reg[..], pc, ram.bytes), left)
      {
        o, pc := ExecInst(ram, reg, pc, h, mem, memLen, stack);
        if o.Some? {
          return;
        }
        left := left - 1;
      }
      return Some(Next(State(reg[..], pc, ram.bytes)));
    }
  }

  lemma MaskWord(x: int)
    ensures Low32(Wrap64(x)) == Low32(x)
  {
    assert x == TWO64 * (x / TWO64) + x % TWO64;
    DivModUnique(x, TWO32, TWO32 * (x / TWO64) + x % TWO64 / TWO32, x % TWO64 % TWO32);
  }

  /** A value below a word of the operand width is not changed by truncation. */
  lemma Small(w: Width, v: int, x: u64)
    requires 0 <= v <= x && (w.W32? ==> x < TWO32)
    ensures Truncated(w, v) == Value(v)
  {
  }

  /** A helper that exists does not stop existing. */
  lemma MoreFunctions(insts: seq<Inst>, ext: seq<u64>, idx: nat, fn: u64)
    requires |ext| == MAX_EXT_FUNCS && idx < MAX_EXT_FUNCS && fn != 0 && V.Accepted(insts, ext)
    ensures V.Accepted(insts, ext[idx := fn])
  {
    hide V.JumpError, DecodeOp;
    forall i | i in V.Starts(insts, 0) && i < |insts|
      ensures V.InstError(insts, ext[idx := fn], i).None?
    {
      assert V.InstError(insts, ext, i).None?;
    }
  }
}
