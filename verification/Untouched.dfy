/**
 * The nonvolatile register the x86-64 generator does not save: R12. No code it emits writes it, so that it need not be
 * saved, whatever the program computes.
 */
module Untouched {
  import opened Words
  import opened Ebpf
  import opened Memory
  import opened X86
  import opened X86Exec
  import opened Select
  import opened Blocks
  import opened Simulation
  import opened StackDiscipline
  import V = Validator

  /** Whether an instruction leaves register 12 alone; a call leaves it to the callee. */
  predicate Spares(a: Asm)
  {
    match a
    case Plain(x) => SparesX(x)
    case LeaString(dst, _) => dst != 12
    case _ => true
  }

  predicate SparesX(x: X)
  {
    match x
    case RR(_, _, _, dst) => dst != 12
    case RI(_, _, dst, _) => dst != 12
    case ShI(_, _, dst, _) => dst != 12
    case ShCl(_, _, dst) => dst != 12
    case Un(_, _, dst) => dst != 12
    case Rol16(dst, _) => dst != 12
    case Bswap(_, dst) => dst != 12
    case Pop(dst) => dst != 12
    case MovAbs(dst, _) => dst != 12
    case Ld(_, _, dst, _) => dst != 12
    case Lea(dst, _) => dst != 12
    case _ => true
  }

  predicate AllSpare(code: seq<Asm>)
  {
    forall i :: 0 <= i < |code| ==> Spares(code[i])
  }

  /** Callees keep it, as the calling convention has it. */
  ghost predicate CalleesKeep(ext: External)
  {
    forall addr, x :: CalleeKeeps(ext, addr, x)
  }

  ghost predicate CalleeKeeps(ext: External, addr: u64, x: XState) { ext(addr, x).regs[12] == x.regs[12] }

  lemma SparesKeeps(x: X, ext: External, st: XState)
    requires SparesX(x) && CalleesKeep(ext)
    ensures var e := Exec(x, ext, 0, st); !e.Fault? ==> e.st.regs[12] == st.regs[12]
  {
    hide Narrow, Shift, RotateWord, Swapped, LeBytes, Bitwise, Load, Store, Mapped, CmpFlags, TestFlags, Load64;
    if x.CallRax? {
      assert CalleeKeeps(ext, st.regs[RAX], st);
    }
  }

  lemma {:induction false} BlockKeeps(code: seq<Asm>, ext: External, str: u64, st: XState)
    requires AllSpare(code) && CalleesKeep(ext)
    ensures var e := ExecBlock(code, ext, str, st); !e.Crash? ==> e.st.regs[12] == st.regs[12]
    decreases |code|
  {
    hide Exec, CalleesKeep, SparesX, Holds;
    if code != [] {
      assert Spares(code[0]) && AllSpare(code[1..]);
      match code[0]
      case Plain(x) =>
        SparesKeeps(x, ext, st);
        var e := Exec(x, ext, 0, st);
        if e.Continue? {
          BlockKeeps(code[1..], ext, str, e.st);
        }
      case JmpTo(_) =>
      case JccTo(_, _) => BlockKeeps(code[1..], ext, str, st);
      case LeaString(dst, _) => BlockKeeps(code[1..], ext, str, XState(st.regs[dst := str], st.flags, st.mem));
    }
  }

  lemma SpareAppend(a: seq<Asm>, b: seq<Asm>)
    requires AllSpare(a) && AllSpare(b)
    ensures AllSpare(a + b)
  {
    hide Spares;
  }

  lemma NotTwelve(r: nat)
    ensures MapRegister(r) != 12
  {
    MapValues();
  }

  lemma MulDivModSpares(i: nat, w: Width, op: AluOp, src: reg, dst: reg, imm: i32)
    requires dst != 12 && src != 12
    ensures AllSpare(MulDivMod(i, w, op, src, dst, imm))
  {
    var a, b := DivGuard(i, w, op, src), SaveRegs(dst);
    var c, d, e := [SecondOperand(src, imm), MovReg(dst, RAX)], Compute(w, op), Deliver(op, dst);
    PiecesSpare(i, w, op, src, dst, imm);
    hide DivGuard, SaveRegs, SecondOperand, Compute, Deliver, AllSpare;
    SpareAppend(a, b);
    SpareAppend(a + b, c);
    SpareAppend(a + b + c, d);
    SpareAppend(a + b + c + d, e);
  }

  lemma PiecesSpare(i: nat, w: Width, op: AluOp, src: reg, dst: reg, imm: i32)
    requires dst != 12 && src != 12
    ensures AllSpare(DivGuard(i, w, op, src)) && AllSpare(SaveRegs(dst))
    ensures AllSpare([SecondOperand(src, imm), MovReg(dst, RAX)])
    ensures AllSpare(Compute(w, op)) && AllSpare(Deliver(op, dst))
  {
    var a: seq<Asm> := if dst != RAX then [Plain(Push(RAX))] else [];
    var b: seq<Asm> := if dst != RDX then [Plain(Push(RDX))] else [];
    SpareAppend(a, b);
    DeliverSpares(op, dst);
    hide Deliver, LoadImm;
    assert Spares(Plain(LoadImm(RCX, imm))) && Spares(Plain(LoadImm(RCX, i % TWO16))) by {
      ConstantSpares(RCX, imm);
      ConstantSpares(RCX, i % TWO16);
    }
  }

  lemma ConstantSpares(dst: reg, v: i64)
    requires dst != 12
    ensures Spares(Plain(LoadImm(dst, v)))
  {
  }

  lemma DeliverSpares(op: AluOp, dst: reg)
    requires dst != 12
    ensures AllSpare(Deliver(op, dst))
  {
    var a: seq<Asm> := if op.Mod? then [MovReg(RDX, dst)] else [];
    var b: seq<Asm> := if op.Mod? then [] else [MovReg(RAX, dst)];
    SpareAppend(a, [Plain(Pop(RDX))]);
    SpareAppend(b, [Plain(Pop(RAX))]);
    var c: seq<Asm> := if dst != RDX then a + [Plain(Pop(RDX))] else [];
    var d: seq<Asm> := if dst != RAX then b + [Plain(Pop(RAX))] else [];
    SpareAppend(c, d);
  }

  lemma OpSpares(p: Source, i: nat, inst: Inst, op: Op, dst: reg, src: reg)
    requires i < |p.insts| && dst != 12 && src != 12
    ensures AllSpare(OpCode(p, i, inst, op, dst, src))
  {
    hide StoreBits, LddwBits, SlotTarget, MulDivMod;
    match op
    case Alu(w, a, o) =>
      if a.Mul? || a.Div? || a.Mod? {
        MulDivModSpares(i, w, a, src, dst, inst.imm);
      }
    case Call =>
      NotTwelve(0);
    case _ =>
  }

  lemma CodeSpares(p: Source, i: nat)
    requires i < |p.insts|
    ensures AllSpare(Code(p, i))
  {
    hide DecodeOp, OpCode, MapRegister, AllSpare;
    var inst := p.insts[i];
    NotTwelve(inst.dst);
    NotTwelve(inst.src);
    if DecodeOp(inst.opcode).Some? {
      OpSpares(p, i, inst, DecodeOp(inst.opcode).value, MapRegister(inst.dst), MapRegister(inst.src));
    } else {
      assert AllSpare([]) by { NothingSpares(); }
    }
  }

  lemma NothingSpares()
    ensures AllSpare([])
  {
  }

  /** Prologue, epilogue and division handler write it neither. */
  lemma FrameSpares(p: Source)
    ensures AllSpare(Prologue()) && AllSpare(Epilogue()) && AllSpare(DivHandler(p))
  {
    NotTwelve(0);
    NotTwelve(10);
    PushesSpare(NONVOLATILE);
    PopsSpare(NONVOLATILE);
    hide Pushes, Pops;
  }

  lemma {:induction false} PushesSpare(rs: seq<reg>)
    ensures AllSpare(Pushes(rs))
  {
    if rs != [] {
      PushesSpare(rs[1..]);
    }
  }

  lemma {:induction false} PopsSpare(rs: seq<reg>)
    requires forall k :: 0 <= k < |rs| ==> rs[k] != 12
    ensures AllSpare(Pops(rs))
  {
    if rs != [] {
      PopsSpare(rs[1..]);
    }
  }

  /** In every execution of every generated program register 12 has the same value at each boundary. */
  lemma {:induction false} TwelveStays(p: Source, ext: External, str: u64, pc: nat, st: XState, fuel: nat)
    requires CalleesKeep(ext)
    ensures var b := RunBlocks(p, ext, str, pc, st, fuel); !b.Faulted? ==> b.st.regs[12] == st.regs[12]
    decreases fuel
  {
    hide ExecBlock, Code, CalleesKeep;
    if fuel > 0 && pc < |p.insts| {
      CodeSpares(p, pc);
      BlockKeeps(Code(p, pc), ext, str, st);
      var e := ExecBlock(Code(p, pc), ext, str, st);
      match e
      case Fall(y) => TwelveStays(p, ext, str, V.After(p.insts, pc), y, fuel - 1);
      case Goto(t, y) =>
        if t.ToSlot? {
          TwelveStays(p, ext, str, t.pc, y, fuel - 1);
        }
      case _ =>
    }
  }

  /** and the code around the program keeps it, from the entry and to the return. */
  lemma TwelveKept(p: Source, ext: External, str: u64, st: XState)
    requires CalleesKeep(ext)
    ensures var e := ExecBlock(Prologue(), ext, str, st); !e.Crash? ==> e.st.regs[12] == st.regs[12]
    ensures var e := ExecBlock(Epilogue(), ext, str, st); !e.Crash? ==> e.st.regs[12] == st.regs[12]
    ensures var e := ExecBlock(DivHandler(p), ext, str, st); !e.Crash? ==> e.st.regs[12] == st.regs[12]
  {
    FrameSpares(p);
    hide ExecBlock, Prologue, Epilogue, DivHandler, CalleesKeep, AllSpare;
    BlockKeeps(Prologue(), ext, str, st);
    BlockKeeps(Epilogue(), ext, str, st);
    BlockKeeps(DivHandler(p), ext, str, st);
  }
}
