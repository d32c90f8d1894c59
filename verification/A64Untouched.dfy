/**
 * The registers the AArch64 generator neither uses nor saves: the callee-saved x27 and x28 and the platform's x18. No
 * code it emits writes them, whatever the program computes.
 */
module A64Untouched {
  import opened Words
  import opened Ebpf
  import opened Memory
  import opened A64
  import opened A64Moves
  import opened A64Select
  import opened A64Exec
  import opened A64Simulation
  import S = Select

  predicate Free(r: areg) { r == 18 || r == 27 || r == 28 }

  /** Whether an item of code leaves those registers alone; a call leaves them to the callee. */
  predicate Spares(item: Item)
  {
    match item
    case Do(a) => SparesA(a)
    case Address(rd, _) => !Free(rd)
    case _ => true
  }

  predicate SparesA(a: A)
  {
    match a
    case MoveWide(_, _, _, _, rd) => !Free(rd)
    case SumImm(_, _, rd, _, _) => !Free(rd)
    case SumReg(_, _, rd, _, _) => !Free(rd)
    case LogicReg(_, _, rd, _, _) => !Free(rd)
    case MemImm(_, _, rt, _, _) => !Free(rt)
    case MemReg(_, _, rt, _, _) => !Free(rt)
    case Pair(_, rt, rt2, _, _) => !Free(rt) && !Free(rt2)
    case Udiv(_, rd, _, _) => !Free(rd)
    case ShiftReg(_, _, rd, _, _) => !Free(rd)
    case Madd(_, rd, _, _, _) => !Free(rd)
    case Msub(_, rd, _, _, _) => !Free(rd)
    case Rev(_, rd, _) => !Free(rd)
    case Uxth(rd, _) => !Free(rd)
    case _ => true
  }

  predicate AllSpare(code: seq<Item>)
  {
    forall i :: 0 <= i < |code| ==> Spares(code[i])
  }

  predicate SameFree(x: AState, y: AState)
  {
    x.regs[18] == y.regs[18] && x.regs[27] == y.regs[27] && x.regs[28] == y.regs[28]
  }

  /** Callees keep them, as the calling convention has it. */
  ghost predicate CalleesKeep(ext: External)
  {
    forall addr, x :: CalleeKeeps(ext, addr, x)
  }

  ghost predicate CalleeKeeps(ext: External, addr: u64, x: AState) { SameFree(x, ext(addr, x)) }

  lemma AccessKeeps(load: bool, sz: Size, rt: areg, a: u64, st: AState)
    requires !Free(rt)
    ensures var r := Access(load, sz, rt, a, st); r.Some? ==> SameFree(st, r.value)
  {
    hide Load, Store, Mapped;
  }

  lemma SparesKeeps(a: A, ext: External, st: AState)
    requires SparesA(a) && CalleesKeep(ext)
    ensures var r := Exec(a, ext, st); r.Some? ==> SameFree(st, r.value)
  {
    hide Narrow, Moved, Bitwise, Quotient, Shifted, Reverse, SubFlags, SignedField, Access, Wrap64, SignOf;
    match a
    case MemImm(load, sz, rt, rn, imm9) =>
      AccessKeeps(load, sz, rt, Wrap64(Base(st, rn) + SignedField(imm9, 0x100)), st);
    case MemReg(load, sz, rt, rn, rm) => AccessKeeps(load, sz, rt, Wrap64(Base(st, rn) + Read(st.regs, rm)), st);
    case Pair(load, rt, rt2, rn, imm7) =>
      var at := Base(st, rn) + 8 * SignedField(imm7, 0x40);
      AccessKeeps(load, S64, rt, Wrap64(at), st);
      var r := Access(load, S64, rt, Wrap64(at), st);
      if r.Some? {
        AccessKeeps(load, S64, rt2, Wrap64(at + 8), r.value);
      }
    case Blr(rn) => assert CalleeKeeps(ext, Read(st.regs, rn), st);
    case _ =>
  }

  lemma {:induction false} BlockKeeps(code: seq<Item>, ext: External, st: AState)
    requires AllSpare(code) && CalleesKeep(ext)
    ensures var e := ExecBlock(code, ext, st); !e.Crash? ==> SameFree(st, e.st)
    decreases |code|
  {
    hide Exec, CalleesKeep, SparesA, Holds, SignedField, Narrow;
    if code != [] {
      assert Spares(code[0]) && AllSpare(code[1..]);
      match code[0]
      case To(_) =>
      case Address(rd, v) => BlockKeeps(code[1..], ext, WithReg(st, rd, v));
      case If(_, _) => BlockKeeps(code[1..], ext, st);
      case Do(Cbnz(sf, imm19, rt)) =>
        BlockKeeps(code[1..], ext, st);
        var k := SignedField(imm19, 0x4_0000);
        if 1 <= k <= |code| {
          assert AllSpare(code[k..]);
          BlockKeeps(code[k..], ext, st);
        }
      case Do(a) =>
        SparesKeeps(a, ext, st);
        if Exec(a, ext, st).Some? {
          BlockKeeps(code[1..], ext, Exec(a, ext, st).value);
        }
    }
  }

  lemma SpareAppend(a: seq<Item>, b: seq<Item>)
    requires AllSpare(a) && AllSpare(b)
    ensures AllSpare(a + b)
  {
    hide Spares;
  }

  // ----- the code the generator selects -----

  lemma {:induction false} MovesSpare(sf: bool, rd: areg, imm: u64, invert: bool, i: nat, started: bool)
    requires !Free(rd)
    ensures forall k :: 0 <= k < |Moves(sf, rd, imm, invert, i, started)| ==>
      SparesA(Moves(sf, rd, imm, invert, i, started)[k])
    decreases Pieces(sf) - i
  {
    hide Half, Skip;
    if i < Pieces(sf) {
      MovesSpare(sf, rd, imm, invert, i + 1, started);
      MovesSpare(sf, rd, imm, invert, i + 1, true);
    }
  }

  lemma ConstantSpares(sf: bool, rd: areg, imm: u64)
    requires !Free(rd)
    ensures AllSpare(Lift(MoveCode(sf, rd, imm)))
  {
    MovesSpare(sf, rd, imm, Invert(sf, imm), 0, false);
    hide Moves, SparesA;
  }

  lemma MappedNotFree(r: nat)
    ensures !Free(MapRegister(r))
  {
    MapValues();
  }

  lemma DivmodSpares(pc: u16, mod: bool, sf: bool, rd: areg, rn: areg, rm: areg)
    requires !Free(rd)
    ensures AllSpare(DivmodCode(pc, mod, sf, rd, rn, rm))
  {
    ConstantSpares(true, PC_REGISTER, pc);
    hide MoveCode;
    var a, b, c := [Do(Cbnz(sf, 3, rm))], Lift(MoveCode(true, PC_REGISTER, pc)), [To(S.ToDivByZero)];
    var d := [Do(Udiv(sf, if mod then TEMP_DIV else rd, rn, rm))];
    var e: seq<Item> := if mod then [Do(Msub(sf, rd, rm, TEMP_DIV, rn))] else [];
    SpareAppend(a, b);
    SpareAppend(a + b, c);
    SpareAppend(a + b + c, d);
    SpareAppend(a + b + c + d, e);
  }

  lemma CallSpares(target: u64)
    ensures AllSpare(CallCode(target))
  {
    ConstantSpares(true, TEMP, target);
    MappedNotFree(0);
    hide MoveCode, MapRegister;
    SpareAppend(Lift(MoveCode(true, TEMP, target)), [Do(Blr(TEMP)), Do(LogicReg(true, ORR, MapRegister(0), RZ, 0))]);
  }

  lemma HelperSpares(target: u64, unwind: bool)
    ensures AllSpare(HelperCode(target, unwind))
  {
    CallSpares(target);
    hide CallCode, MapRegister;
    SpareAppend(CallCode(target),
      if unwind then [Do(SumImm(true, SUBS, RZ, MapRegister(0), 0)), If(EQ, S.ToExit)] else []);
  }

  lemma MemSpares(load: bool, sz: Size, rt: areg, rn: areg, offset: i16)
    requires !Free(rt)
    ensures AllSpare(MemCode(load, sz, rt, rn, offset))
  {
    ConstantSpares(true, OFFSET, Wrap64(offset));
    hide MoveCode, Wrap64;
    SpareAppend(Lift(MoveCode(true, OFFSET, Wrap64(offset))), [Do(MemReg(load, sz, rt, rn, OFFSET))]);
  }

  lemma AluSpares(p: S.Source, i: nat, inst: Inst, op: Op, dst: areg, src: areg)
    requires i < |p.insts| && !Free(dst) && op.Alu?
    ensures AllSpare(OpCode(p, i, inst, op, dst, src))
  {
    DivmodSpares(i % TWO16, op.alu.Mod?, op.width.W64?, dst, dst, src);
    ConstantSpares(op.width.W64?, dst, Wrap64(inst.imm));
    hide MoveCode, DivmodCode, Wrap64, LogicFor, ShiftFor;
  }

  lemma OpSpares(p: S.Source, i: nat, inst: Inst, op: Op, dst: areg, src: areg)
    requires i < |p.insts| && !Free(dst) && !Free(src)
    ensures AllSpare(OpCode(p, i, inst, op, dst, src))
  {
    if op.Alu? {
      AluSpares(p, i, inst, op, dst, src);
    } else {
      hide MoveCode, MemCode, HelperCode, S.LddwBits, S.SlotTarget;
      match op
      case Ldx(sz) => MemSpares(true, sz, dst, src, inst.offset);
      case St(sz) => MemSpares(false, sz, src, dst, inst.offset);
      case Stx(sz) => MemSpares(false, sz, src, dst, inst.offset);
      case Lddw =>
        if i + 1 < |p.insts| {
          ConstantSpares(true, dst, S.LddwBits(inst.imm, p.insts[i + 1].imm));
        }
      case Call =>
        if 0 <= inst.imm < |p.extFuncs| {
          HelperSpares(p.extFuncs[inst.imm], inst.imm == p.unwindIndex);
        }
      case _ =>
    }
  }

  lemma PrefixSpares(op: Op, imm: i32)
    ensures AllSpare(PrefixCode(op, imm))
  {
    ConstantSpares(IsAlu64(op), TEMP, Wrap64(imm));
    hide MoveCode, Wrap64;
  }

  /** No instruction's code writes them. */
  lemma CodeSpares(p: S.Source, i: nat)
    requires i < |p.insts|
    ensures AllSpare(Code(p, i))
  {
    hide DecodeOp, OpCode, PrefixCode, MapRegister, AllSpare, ThroughTemp;
    var inst := p.insts[i];
    MappedNotFree(inst.dst);
    MappedNotFree(inst.src);
    if DecodeOp(inst.opcode).Some? {
      var op := DecodeOp(inst.opcode).value;
      PrefixSpares(op, inst.imm);
      OpSpares(p, i, inst, op, MapRegister(inst.dst), SourceRegister(inst, op));
      SpareAppend(PrefixCode(op, inst.imm), OpCode(p, i, inst, op, MapRegister(inst.dst), SourceRegister(inst, op)));
    } else {
      assert AllSpare([]) by { NothingSpares(); }
    }
  }

  lemma NothingSpares()
    ensures AllSpare([])
  {
  }

  lemma {:induction false} PairsSpare(load: bool, i: nat)
    requires i <= 5
    ensures AllSpare(SavedPairs(load, i))
    decreases 5 - i
  {
    if i < 5 {
      PairsSpare(load, i + 1);
      SavedNotFree(i);
    }
  }

  lemma SavedNotFree(i: nat)
    requires i < 5
    ensures !Free(SAVED[2 * i]) && !Free(SAVED[2 * i + 1])
  {
  }

  lemma PrologueSpares()
    ensures AllSpare(Prologue())
  {
    PairsSpare(false, 1);
    SavedNotFree(0);
    MappedNotFree(10);
    hide SavedPairs, MapRegister;
    var a := [Do(SumImm(true, SUB, SP, SP, FRAME_SIZE)), SavedPair(false, 0), Do(SumImm(true, ADD, FP, SP, 0))];
    var b := [Do(SumImm(true, ADD, MapRegister(10), SP, FRAME_SIZE))];
    assert AllSpare(a) && AllSpare(b);
    hide AllSpare, SavedPair;
    SpareAppend(a, SavedPairs(false, 1));
    SpareAppend(a + SavedPairs(false, 1), b);
  }

  lemma EpilogueSpares()
    ensures AllSpare(Epilogue())
  {
    PairsSpare(true, 1);
    SavedNotFree(0);
    hide SavedPairs, MapRegister;
    var a := [Do(LogicReg(true, ORR, 0, RZ, MapRegister(0)))];
    var b := [SavedPair(true, 0), Do(SumImm(true, ADD, SP, SP, FRAME_SIZE))];
    assert AllSpare(a) && AllSpare(b);
    hide AllSpare, SavedPair;
    SpareAppend(a, SavedPairs(true, 1));
    SpareAppend(a + SavedPairs(true, 1), b);
  }

  lemma HandlerSpares(p: S.Source, str: u64)
    ensures AllSpare(DivHandler(p, str))
  {
    MappedNotFree(0);
    CallSpares(p.errorPrintf);
    ConstantSpares(true, 0, p.stderr);
    ConstantSpares(true, MapRegister(0), TWO64 - 1);
    hide MoveCode, CallCode, MapRegister;
    var a, b, c, d := [Address(1, str)], Lift(MoveCode(true, 0, p.stderr)), CallCode(p.errorPrintf),
      Lift(MoveCode(true, MapRegister(0), TWO64 - 1));
    assert AllSpare(a) && AllSpare([To(S.ToExit)]);
    hide AllSpare, Lift;
    SpareAppend(a, b);
    SpareAppend(a + b, c);
    SpareAppend(a + b + c, d);
    SpareAppend(a + b + c + d, [To(S.ToExit)]);
  }

  /** Nor does the code around the program. */
  lemma FrameSpares(p: S.Source, str: u64)
    ensures AllSpare(Prologue()) && AllSpare(Epilogue()) && AllSpare(DivHandler(p, str))
  {
    PrologueSpares();
    EpilogueSpares();
    HandlerSpares(p, str);
  }

  /** So the code of every instruction, and the code around the program, keeps them wherever it ends. */
  lemma FreeKept(p: S.Source, i: nat, str: u64, ext: External, st: AState)
    requires CalleesKeep(ext)
    ensures i < |p.insts| ==> var e := ExecBlock(Code(p, i), ext, st); !e.Crash? ==> SameFree(st, e.st)
    ensures var e := ExecBlock(Prologue(), ext, st); !e.Crash? ==> SameFree(st, e.st)
    ensures var e := ExecBlock(Epilogue(), ext, st); !e.Crash? ==> SameFree(st, e.st)
    ensures var e := ExecBlock(DivHandler(p, str), ext, st); !e.Crash? ==> SameFree(st, e.st)
  {
    FrameSpares(p, str);
    hide ExecBlock, Prologue, Epilogue, DivHandler, CalleesKeep, AllSpare, Code, SameFree;
    if i < |p.insts| {
      CodeSpares(p, i);
      BlockKeeps(Code(p, i), ext, st);
    }
    BlockKeeps(Prologue(), ext, st);
    BlockKeeps(Epilogue(), ext, st);
    BlockKeeps(DivHandler(p, str), ext, st);
  }
}
