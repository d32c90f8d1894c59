/** The remaining instructions, and the theorem for every instruction of an accepted program. */
module A64Steps {
  import opened Words
  import opened Ebpf
  import opened Memory
  import opened A64
  import opened A64Moves
  import opened A64Select
  import opened A64Exec
  import opened A64Simulation
  import S = Select
  import X = Simulation
  import T = StepSimulation
  import E = X86Exec
  import P = A64Patch
  import I = Interp
  import V = Validator

  // ----- division -----

  lemma DivisionResult(w: Width, a: AluOp, o: Operand, dst: u64, src: u64, imm: i32)
    requires a.Div? || a.Mod?
    ensures var r, x, b := I.AluSem(w, a, o, dst, src, imm), Narrow(w.W64?, dst),
      Narrow(w.W64?, if o.Imm? then Wrap64(imm) else src);
      && (r.Value? ==> b != 0 && r.v == if a.Mod? then x % b else Quotient(x, b))
      && (r.DivZero? ==> o.Reg? && b == 0)
  {
    var b := if o.Imm? then Wrap64(imm) else src;
    T.MulDivValue(w, a, o, dst, src, imm);
    assert Narrow(w.W64?, 0) == 0;
    if Narrow(w.W64?, b) != 0 {
      X.DivValue(w, dst, b);
    }
    hide I.AluSem, Narrow, Wrap64;
  }

  lemma SimDivision(f: Frame, insts: seq<Inst>, s: I.State, x: AState, inst: Inst, w: Width, a: AluOp, o: Operand,
                    ext: External)
    requires Start(f, insts, s, x, inst, Alu(w, a, o)) && (a.Div? || a.Mod?)
    requires x.regs[SourceRegister(inst, Alu(w, a, o))] == SecondOperand(inst, Alu(w, a, o), s.regs)
    requires SourceRegister(inst, Alu(w, a, o)) <= TEMP
    ensures Matches(f, insts, s.pc, I.AluStep(s, inst, w, a, o),
                    ExecBlock(RegisterForm(s.pc, w.W64?, a, MapRegister(inst.dst),
                      SourceRegister(inst, Alu(w, a, o))), ext, x))
  {
    var op := Alu(w, a, o);
    Operands(f, insts, s, x, inst, op);
    var dst, src, sf := MapRegister(inst.dst), SourceRegister(inst, op), w.W64?;
    var second := if o.Imm? then Wrap64(inst.imm) else s.regs[inst.src];
    assert Narrow(sf, x.regs[src]) == Narrow(sf, second) by { X.NarrowTwice(sf, second); }
    hide I.AluSem, Start, Matches, ExecBlock, Narrow, Quotient, DivmodCode, SourceRegister;
    DivisionResult(w, a, o, s.regs[inst.dst], s.regs[inst.src], inst.imm);
    DivmodRuns(s.pc, a.Mod?, sf, dst, src, ext, x);
    var r := I.AluSem(w, a, o, s.regs[inst.dst], s.regs[inst.src], inst.imm);
    var b := ExecBlock(RegisterForm(s.pc, sf, a, dst, src), ext, x);
    match r
    case Value(v) => MatchesSet(f, insts, s, x, inst, op, v, v, b);
    case DivZero => MatchesDivZero(f, insts, s, x, inst, op, b);
    case Ub => MatchesUndefined(f, insts, s.pc, b);
  }

  lemma MatchesDivZero(f: Frame, insts: seq<Inst>, s: I.State, x: AState, inst: Inst, op: Op, b: BlockEnd)
    requires Start(f, insts, s, x, inst, op) && b.Goto? && b.target == S.ToDivByZero && b.st.sp == x.sp
    requires b.st.mem == x.mem
    ensures Matches(f, insts, s.pc, I.DivideByZero(s.pc, s.mem), b)
  {
  }

  // ----- negation -----

  lemma Opposite(wide: bool, a: u64, b: u64)
    ensures Narrow(wide, 0 - a) == Narrow(wide, 0 - b) <==> Narrow(wide, a) == Narrow(wide, b)
  {
    X.AddSubNarrow(wide, 0, a);
    X.AddSubNarrow(wide, 0, b);
    var m := if wide then TWO64 else TWO32;
    OppositeIn(m, Narrow(wide, a));
    OppositeIn(m, Narrow(wide, b));
  }

  lemma OppositeIn(m: int, x: int)
    requires 0 <= x < m
    ensures (0 - x) % m == if x == 0 then 0 else m - x
  {
    DivModUnique(0 - x, m, if x == 0 then 0 else -1, if x == 0 then 0 else m - x);
  }

  lemma SimNeg(f: Frame, insts: seq<Inst>, s: I.State, x: AState, inst: Inst, w: Width, ext: External)
    requires Start(f, insts, s, x, inst, Neg(w))
    ensures Matches(f, insts, s.pc, I.SetDst(s, inst, I.NegSem(w, s.regs[inst.dst])),
                    ExecBlock([Do(SumReg(w.W64?, SUB, MapRegister(inst.dst), RZ, MapRegister(inst.src)))], ext, x))
      <==> Agrees(inst, Neg(w), s.regs)
  {
    Operands(f, insts, s, x, inst, Neg(w));
    var sf, dst, src := w.W64?, MapRegister(inst.dst), MapRegister(inst.src);
    var ins := SumReg(sf, SUB, dst, RZ, src);
    var a: int, b: int := s.regs[inst.dst], s.regs[inst.src];
    X.AddSubNarrow(sf, 0, b);
    Opposite(sf, a, b);
    assert I.NegSem(w, a) == Narrow(sf, 0 - a);
    hide Start, Matches, Narrow, I.NegSem;
    assert Exec(ins, ext, x) == Some(WithReg(x, dst, Narrow(sf, 0 - b)));
    hide Exec;
    ExecOne(ins, ext, x);
    MatchesSet(f, insts, s, x, inst, Neg(w), I.NegSem(w, a), Narrow(sf, 0 - b), ExecBlock([Do(ins)], ext, x));
  }

  // ----- byte order -----

  /** The value the conversion code leaves. */
  function EndResult(big: bool, v: u64, imm: i32): u64
  {
    var r := if !big then v
      else if imm == 16 then Reverse(S16, Low32(v))
      else if imm == 32 then Reverse(S32, Low32(v))
      else if imm == 64 then Reverse(S64, v)
      else v;
    if imm == 16 then r % TWO16 else r
  }

  lemma SameLowBytes(u: int, v: int, n: nat)
    requires u % Pow2(8 * n) == v % Pow2(8 * n)
    ensures LeBytes(u, n) == LeBytes(v, n)
  {
    LeBytesMod(u, n);
    LeBytesMod(v, n);
    hide LeBytes;
  }

  lemma LowBytes(v: u64)
    ensures I.ByteSwap(Low32(v), 2) == I.ByteSwap(v, 2) && I.ByteSwap(Low32(v), 4) == I.ByteSwap(v, 4)
    ensures I.ByteSwap(v, 2) < TWO16
  {
    hide LeBytes, FromLe, Pow2;
    assert Pow2(16) == TWO16 && Pow2(32) == TWO32 by { Pow2Values(); }
    FromLeBound(I.Reversed(LeBytes(v, 2)));
    T.ModMod(v);
    SameLowBytes(Low32(v), v, 2);
    SameLowBytes(Low32(v), v, 4);
  }

  /** The processor's reversal and the interpreter's. */
  lemma ReverseIsReversal(v: u64, n: nat)
    ensures ReverseBytes(v, n) == I.ByteSwap(v, n)
  {
    hide Pow2, FromLe, LeBytes, I.Reversed;
    var bs := LeBytes(v, n);
    var rs := seq(n, k requires 0 <= k < n => v / Pow2(8 * (n - 1 - k)) % 0x100);
    forall k | 0 <= k < n ensures I.Reversed(bs)[k] == rs[k] {
      I.ReversedAt(bs, k);
      LeBytesAt(v, n, n - 1 - k);
    }
    assert I.Reversed(bs) == rs;
  }

  /** Of the half-words whose bytes were exchanged only the low one is kept. */
  lemma SwappedHalf(v: u64)
    ensures Reverse(S16, Low32(v)) % TWO16 == I.ByteSwap(v, 2)
    ensures Reverse(S32, Low32(v)) == I.ByteSwap(v, 4) && Reverse(S64, v) == I.ByteSwap(v, 8)
  {
    hide I.ByteSwap, ReverseBytes, Pow2;
    LowBytes(v);
    ReverseIsReversal(Low32(v), 2);
    ReverseIsReversal(Low32(v), 4);
    ReverseIsReversal(v, 8);
    var hi := ReverseBytes(Low32(v) / TWO16, 2);
    DivModUnique(I.ByteSwap(v, 2) + TWO16 * hi, TWO16, hi, I.ByteSwap(v, 2));
  }

  /** Exchanging the bytes of half-words: each byte of the low word and its neighbour. */
  lemma HalvesReversed(v: u32)
    ensures Reverse(S16, v) == v / 0x100 % 0x100 + 0x100 * (v % 0x100)
      + 0x1_0000 * (v / 0x100_0000 % 0x100 + 0x100 * (v / 0x1_0000 % 0x100))
  {
    hide ReverseBytes, I.ByteSwap, Pow2;
    ReverseIsReversal(v, 2);
    ReverseIsReversal(v / TWO16, 2);
    T.ByteSwapTwo(v);
    T.ByteSwapTwo(v / TWO16);
    DivDiv(v, TWO16, 0x100);
  }

  lemma EndAgrees(big: bool, v: u64, imm: i32)
    ensures I.EndSem(big, v, imm) == EndResult(big, v, imm) <==> (!big && imm == 32 ==> v < TWO32)
  {
    hide I.ByteSwap, ReverseBytes, Pow2;
    LowBytes(v);
    SwappedHalf(v);
    hide Reverse;
    assert v == Low32(v) <==> v < TWO32;
  }

  lemma EndRuns(big: bool, dst: areg, imm: i32, ext: External, x: AState)
    requires dst < TEMP && (imm == 16 || imm == 32 || imm == 64)
    ensures ExecBlock(EndCode(big, dst, imm), ext, x) == Fall(WithReg(x, dst, EndResult(big, x.regs[dst], imm)))
  {
    hide Reverse;
    var v := x.regs[dst];
    var sz := if imm == 16 then S16 else if imm == 32 then S32 else S64;
    var rev, uxth := Rev(sz, dst, dst), Uxth(dst, dst);
    assert x == WithReg(x, dst, v);
    var y := if big then WithReg(x, dst, Reverse(sz, if sz.S64? then v else Low32(v))) else x;
    assert big ==> Exec(rev, ext, x) == Some(y);
    assert Exec(uxth, ext, y) == Some(WithReg(y, dst, y.regs[dst] % TWO16));
    assert WithReg(y, dst, y.regs[dst] % TWO16) == WithReg(x, dst, y.regs[dst] % TWO16);
    hide Exec;
    if imm == 16 {
      ExecOne(uxth, ext, y);
      if big {
        ExecStep(rev, [Do(uxth)], ext, x);
        assert EndCode(big, dst, imm) == [Do(rev)] + [Do(uxth)];
      } else {
        assert EndCode(big, dst, imm) == [Do(uxth)];
      }
    } else if big {
      ExecOne(rev, ext, x);
      assert EndCode(big, dst, imm) == [Do(rev)];
    } else {
      assert EndCode(big, dst, imm) == [];
    }
  }

  lemma SimEnd(f: Frame, insts: seq<Inst>, s: I.State, x: AState, inst: Inst, big: bool, ext: External)
    requires Start(f, insts, s, x, inst, End(big)) && (inst.imm == 16 || inst.imm == 32 || inst.imm == 64)
    ensures Matches(f, insts, s.pc, I.SetDst(s, inst, I.EndSem(big, s.regs[inst.dst], inst.imm)),
                    ExecBlock(EndCode(big, MapRegister(inst.dst), inst.imm), ext, x))
      <==> Agrees(inst, End(big), s.regs)
  {
    Operands(f, insts, s, x, inst, End(big));
    hide Start, Matches, I.EndSem, ExecBlock, EndCode, EndResult;
    EndRuns(big, MapRegister(inst.dst), inst.imm, ext, x);
    EndAgrees(big, s.regs[inst.dst], inst.imm);
    MatchesSet(f, insts, s, x, inst, End(big), I.EndSem(big, s.regs[inst.dst], inst.imm),
      EndResult(big, s.regs[inst.dst], inst.imm),
      ExecBlock(EndCode(big, MapRegister(inst.dst), inst.imm), ext, x));
  }

  // ----- loads and stores -----

  lemma OffsetField(offset: i16)
    requires -256 <= offset < 256
    ensures SignedField(offset % 0x200, 0x100) == offset
  {
    P.FieldRange(offset, 0x100);
  }

  lemma WrapSum(a: u64, d: int)
    ensures Wrap64(a + Wrap64(d)) == Wrap64(a + d)
  {
    var k := d / TWO64;
    assert d == TWO64 * k + Wrap64(d);
    DivModUnique(a + d, TWO64, (a + Wrap64(d)) / TWO64 + k, Wrap64(a + Wrap64(d)));
  }

  /** The state in which the access happens. */
  function AtAccess(x: AState, offset: i16): AState
  {
    if -256 <= offset < 256 then x else WithReg(x, OFFSET, Wrap64(offset))
  }

  /** How a block ends that makes one access. */
  predicate Accesses(b: BlockEnd, a: Option<AState>)
  {
    if a.None? then b.Crash? else b == Fall(a.value)
  }

  /** A load or store reaches its address, whichever way the offset is given. */
  /** The access with its displacement in the instruction. */
  lemma NearStep(load: bool, sz: Size, rt: areg, rn: areg, offset: i16, ext: External, x: AState)
    requires rn < TEMP && -256 <= offset < 256
    ensures Exec(MemImm(load, sz, rt, rn, offset % 0x200), ext, x) ==
      Access(load, sz, rt, Wrap64(x.regs[rn] + offset), x)
  {
    hide Access, SignedField;
    OffsetField(offset);
  }

  /** The access with its displacement in a register. */
  lemma FarStep(load: bool, sz: Size, rt: areg, rn: areg, offset: i16, ext: External, x: AState)
    requires rn < TEMP
    ensures var y := WithReg(x, OFFSET, Wrap64(offset));
      Exec(MemReg(load, sz, rt, rn, OFFSET), ext, y) == Access(load, sz, rt, Wrap64(x.regs[rn] + offset), y)
  {
    hide Access;
    WrapSum(x.regs[rn], offset);
  }

  lemma MemRuns(load: bool, sz: Size, rt: areg, rn: areg, offset: i16, ext: External, x: AState)
    requires rt <= TEMP && rn < TEMP
    ensures var at := Wrap64(x.regs[rn] + offset);
      Accesses(ExecBlock(MemCode(load, sz, rt, rn, offset), ext, x), Access(load, sz, rt, at, AtAccess(x, offset)))
  {
    hide Access, Exec, MoveCode, Wrap64, SignedField;
    if -256 <= offset < 256 {
      var ins := MemImm(load, sz, rt, rn, offset % 0x200);
      NearStep(load, sz, rt, rn, offset, ext, x);
      if Exec(ins, ext, x).Some? {
        ExecOne(ins, ext, x);
      }
    } else {
      var ins, y := MemReg(load, sz, rt, rn, OFFSET), WithReg(x, OFFSET, Wrap64(offset));
      assert Narrow(true, Wrap64(offset)) == Wrap64(offset) by { WideStays(Wrap64(offset)); }
      FarStep(load, sz, rt, rn, offset, ext, x);
      ExecConstant(true, OFFSET, Wrap64(offset), [Do(ins)], ext, x);
      if Exec(ins, ext, y).Some? {
        ExecOne(ins, ext, y);
      }
    }
  }

  lemma WideStays(v: u64)
    ensures Narrow(true, v) == v
  {
  }

  /** A load from the program's memory gives what the program's memory holds. */
  lemma LoadedValue(f: Frame, m: Mem, x: AState, y: AState, sz: Size, rt: areg, a: u64)
    requires MemRel(f, m, x) && y.mem == x.mem && Mapped(m, a, SizeBytes(sz))
    ensures Load(m, a, SizeBytes(sz)) < TWO64
    ensures Access(true, sz, rt, a, y) == Some(WithReg(y, rt, Load(m, a, SizeBytes(sz))))
  {
    hide Load;
    LoadIsWord(m, a, sz);
    assert Mapped(x.mem, a, SizeBytes(sz));
    LoadCong(x.mem, m, a, SizeBytes(sz));
  }

  lemma LoadMatches(f: Frame, insts: seq<Inst>, s: I.State, x: AState, inst: Inst, sz: Size, vm: I.Vm, ctx: I.Ctx,
                    b: BlockEnd)
    requires Start(f, insts, s, x, inst, Ldx(sz))
    requires Accesses(b, Access(true, sz, MapRegister(inst.dst), Wrap64(s.regs[inst.src] + inst.offset),
      AtAccess(x, inst.offset)))
    ensures Matches(f, insts, s.pc, I.LoadStep(vm, ctx, s, inst, sz), b) <==> X.Allowed(vm, ctx, inst, Ldx(sz), s.regs)
    ensures I.LoadStep(vm, ctx, s, inst, sz).OutOfBounds? <==> !X.Allowed(vm, ctx, inst, Ldx(sz), s.regs)
  {
    var a, n := Wrap64(s.regs[inst.src] + inst.offset), SizeBytes(sz);
    Operands(f, insts, s, x, inst, Ldx(sz));
    assert MemRel(f, s.mem, x);
    hide Start, Load, I.InBounds, Matches, Access, MemRel, Mapped, Wrap64;
    var o := I.LoadStep(vm, ctx, s, inst, sz);
    if o.Next? {
      LoadedValue(f, s.mem, x, AtAccess(x, inst.offset), sz, MapRegister(inst.dst), a);
      var v := Load(s.mem, a, n);
      assert o == I.SetDst(s, inst, v);
      hide I.LoadStep;
      MatchesSet(f, insts, s, x, inst, Ldx(sz), v, v, b);
    } else {
      MatchesError(f, insts, s.pc, o, b);
    }
  }

  lemma SimLoad(f: Frame, insts: seq<Inst>, s: I.State, x: AState, inst: Inst, sz: Size, vm: I.Vm, ctx: I.Ctx,
                ext: External)
    requires Start(f, insts, s, x, inst, Ldx(sz))
    ensures Matches(f, insts, s.pc, I.LoadStep(vm, ctx, s, inst, sz),
                    ExecBlock(MemCode(true, sz, MapRegister(inst.dst), MapRegister(inst.src), inst.offset), ext, x))
      <==> X.Allowed(vm, ctx, inst, Ldx(sz), s.regs)
    ensures I.LoadStep(vm, ctx, s, inst, sz).OutOfBounds? <==> !X.Allowed(vm, ctx, inst, Ldx(sz), s.regs)
  {
    hide ExecBlock, I.LoadStep, X.Allowed, Matches, Access, MemCode, Wrap64;
    Operands(f, insts, s, x, inst, Ldx(sz));
    hide Start;
    MemRuns(true, sz, MapRegister(inst.dst), MapRegister(inst.src), inst.offset, ext, x);
    LoadMatches(f, insts, s, x, inst, sz, vm, ctx,
      ExecBlock(MemCode(true, sz, MapRegister(inst.dst), MapRegister(inst.src), inst.offset), ext, x));
  }

  /** A block that jumps nowhere answers undefined behaviour, but no refused access. */
  lemma MatchesError(f: Frame, insts: seq<Inst>, pc: nat, o: I.Outcome, b: BlockEnd)
    requires pc < |insts| && (o.Undefined? || o.OutOfBounds?) && !b.Goto?
    ensures Matches(f, insts, pc, o, b) <==> o.Undefined?
  {
  }

  lemma SameStore(m: Mem, a: int, n: nat, u: int, v: int)
    requires Mapped(m, a, n)
    ensures Store(m, a, n, u) == Store(m, a, n, v) <==> LeBytes(u, n) == LeBytes(v, n)
  {
    StoreAt(m, a, n, u);
    StoreAt(m, a, n, v);
    if Store(m, a, n, u) == Store(m, a, n, v) {
      forall k | 0 <= k < n ensures LeBytes(u, n)[k] == LeBytes(v, n)[k] {
        assert a <= a + k < a + n && Store(m, a, n, u)[a + k] == Store(m, a, n, v)[a + k];
      }
    }
  }

  lemma SameInside(big: Mem, m1: Mem, m2: Mem)
    requires m1.Keys == m2.Keys && Contains(big, m1)
    ensures Contains(big, m2) <==> m1 == m2
  {
    if Contains(big, m2) {
      assert forall k :: k in m1 ==> m1[k] == m2[k];
      assert m1 == m2;
    }
  }

  /** A store to the program's memory leaves the saved registers alone. */
  lemma SavedKept(f: Frame, m: Mem, x: AState, a: int, n: nat, u: int)
    requires MemRel(f, m, x) && Mapped(m, a, n)
    ensures Mapped(x.mem, a, n) && Contains(Store(x.mem, a, n, u), f.saved)
  {
    hide Store;
    assert Mapped(x.mem, a, n);
    StoreAt(x.mem, a, n, u);
    assert forall k :: a <= k < a + n ==> k in m && k in f.dom;
  }

  /** A store of `u` answers a store of `v` exactly when their stored bytes are the same. */
  lemma MatchesStore(f: Frame, insts: seq<Inst>, s: I.State, x: AState, inst: Inst, op: Op, a: int, n: nat, u: int,
                     v: int, b: BlockEnd)
    requires (op.St? || op.Stx?) && Start(f, insts, s, x, inst, op) && Mapped(s.mem, a, n)
    requires b.Fall? && SameButTemps(x.regs, b.st.regs) && b.st.sp == x.sp && b.st.mem == Store(x.mem, a, n, u)
    ensures Matches(f, insts, s.pc, I.Next(I.State(s.regs, I.Advance(s.pc, 1), Store(s.mem, a, n, v))), b)
      <==> LeBytes(u, n) == LeBytes(v, n)
  {
    Operands(f, insts, s, x, inst, op);
    var mu, mv := Store(s.mem, a, n, u), Store(s.mem, a, n, v);
    StoreAt(s.mem, a, n, u);
    StoreAt(s.mem, a, n, v);
    SavedKept(f, s.mem, x, a, n, u);
    StoreBoth(x.mem, s.mem, a, n, u);
    SameStore(s.mem, a, n, u, v);
    SameInside(b.st.mem, mu, mv);
    MapFacts();
    assert RegsRel(s.regs, b.st.regs);
    hide LeBytes, Store, WriteBytes, RegsRel;
  }

  /**
   * The immediate in its temporary has the right low bytes, all of them up to 4, and 8 exactly if it is not negative.
   */
  lemma StoredImmediate(sz: Size, imm: i32)
    ensures LeBytes(Narrow(false, Wrap64(imm)), SizeBytes(sz)) == LeBytes(imm, SizeBytes(sz)) <==>
      (sz.S64? ==> imm >= 0)
  {
    var n := SizeBytes(sz);
    assert if sz.S64? then n == 8 else n == 1 || n == 2 || n == 4;
    hide SizeBytes, Wrap64, Low32, LeBytes, Pow2;
    X.NarrowTwice(false, imm);
    if n == 8 {
      WholeImmediate(imm);
    } else {
      LowPart(imm, n);
      SameLowBytes(Low32(imm), imm, n);
    }
  }

  lemma WholeImmediate(imm: i32)
    ensures LeBytes(Low32(imm), 8) == LeBytes(imm, 8) <==> imm >= 0
  {
    hide Pow2, LeBytes, FromLe;
    var n := 8;
    assert Pow2(8 * n) == TWO64 by { Pow2Values(); }
    FromLeBytes(Low32(imm), n);
    FromLeBytes(imm, n);
  }

  lemma LowPart(imm: i32, n: nat)
    requires n == 1 || n == 2 || n == 4
    ensures Low32(imm) % Pow2(8 * n) == imm % Pow2(8 * n)
  {
    Pow2Values();
    hide Pow2;
    var q, r := imm / TWO32, imm % TWO32;
    if n == 1 {
      DivModUnique(imm, 0x100, 0x100_0000 * q + r / 0x100, r % 0x100);
    } else if n == 2 {
      DivModUnique(imm, TWO16, TWO16 * q + r / TWO16, r % TWO16);
    }
  }

  /** A store to the program's memory goes through. */
  lemma StoredValue(f: Frame, m: Mem, x: AState, y: AState, sz: Size, rt: areg, a: u64)
    requires MemRel(f, m, x) && y.mem == x.mem && Mapped(m, a, SizeBytes(sz))
    ensures Access(false, sz, rt, a, y) == Some(y.(mem := Store(x.mem, a, SizeBytes(sz), Read(y.regs, rt))))
  {
    hide Store;
    assert Mapped(x.mem, a, SizeBytes(sz));
  }

  lemma StoreMatches(f: Frame, insts: seq<Inst>, s: I.State, x: AState, inst: Inst, op: Op, vm: I.Vm, ctx: I.Ctx,
                     rt: areg, b: BlockEnd)
    requires (op.St? || op.Stx?) && Start(f, insts, s, x, inst, op) && rt <= TEMP
    requires x.regs[rt] == if op.St? then Narrow(false, Wrap64(inst.imm)) else s.regs[inst.src]
    requires Accesses(b, Access(false, op.size, rt, Wrap64(s.regs[inst.dst] + inst.offset), AtAccess(x, inst.offset)))
    ensures var o := I.StoreStep(vm, ctx, s, inst, op.size, if op.St? then inst.imm else s.regs[inst.src]);
      && (Matches(f, insts, s.pc, o, b) <==>
        (Agrees(inst, op, s.regs) && X.Allowed(vm, ctx, inst, op, s.regs)) || o.Undefined?)
      && (o.OutOfBounds? <==> !X.Allowed(vm, ctx, inst, op, s.regs))
  {
    var sz, y := op.size, AtAccess(x, inst.offset);
    var n, a, v := SizeBytes(sz), Wrap64(s.regs[inst.dst] + inst.offset), if op.St? then inst.imm else s.regs[inst.src];
    assert MemRel(f, s.mem, x);
    hide Start, Store, I.InBounds, Matches, Access, MemRel, Mapped, Narrow, LeBytes, Wrap64;
    StoredImmediate(sz, inst.imm);
    var o := I.StoreStep(vm, ctx, s, inst, sz, v);
    if o.Next? {
      StoredValue(f, s.mem, x, y, sz, rt, a);
      assert Read(y.regs, rt) == x.regs[rt];
      MatchesStore(f, insts, s, x, inst, op, a, n, x.regs[rt], v, b);
    } else {
      MatchesError(f, insts, s.pc, o, b);
    }
  }

  lemma SimStore(f: Frame, insts: seq<Inst>, s: I.State, x: AState, inst: Inst, op: Op, vm: I.Vm, ctx: I.Ctx,
                 ext: External)
    requires (op.St? || op.Stx?) && Start(f, insts, s, x, inst, op)
    requires x.regs[SourceRegister(inst, op)] == SecondOperand(inst, op, s.regs) && SourceRegister(inst, op) <= TEMP
    ensures var o := I.StoreStep(vm, ctx, s, inst, op.size, if op.St? then inst.imm else s.regs[inst.src]);
      && (Matches(f, insts, s.pc, o,
        ExecBlock(MemCode(false, op.size, SourceRegister(inst, op), MapRegister(inst.dst), inst.offset), ext, x))
          <==> (Agrees(inst, op, s.regs) && X.Allowed(vm, ctx, inst, op, s.regs)) || o.Undefined?)
      && (o.OutOfBounds? <==> !X.Allowed(vm, ctx, inst, op, s.regs))
  {
    hide ExecBlock, I.StoreStep, Matches, Access, MemCode, Wrap64, Narrow, Agrees, X.Allowed;
    Operands(f, insts, s, x, inst, op);
    hide Start;
    var rt, rn := SourceRegister(inst, op), MapRegister(inst.dst);
    MemRuns(false, op.size, rt, rn, inst.offset, ext, x);
    StoreMatches(f, insts, s, x, inst, op, vm, ctx, rt,
      ExecBlock(MemCode(false, op.size, rt, rn, inst.offset), ext, x));
  }

  // ----- two-slot loads, jumps and exits -----

  /** The constant is loaded, and nothing else happens. */
  lemma ConstantRuns(dst: areg, v: u64, ext: External, x: AState)
    requires dst < TEMP
    ensures ExecBlock(Lift(MoveCode(true, dst, v)), ext, x) == Fall(WithReg(x, dst, v))
  {
    assert Narrow(true, v) == v;
    NothingRuns(ext, WithReg(x, dst, v));
    hide MoveCode, ExecBlock, Narrow;
    ExecConstant(true, dst, v, [], ext, x);
    assert Lift(MoveCode(true, dst, v)) + [] == Lift(MoveCode(true, dst, v));
  }

  lemma LddwHolds(f: Frame, insts: seq<Inst>, s: I.State, x: AState, inst: Inst, v: u64)
    requires Start(f, insts, s, x, inst, Lddw) && s.pc + 1 < |insts|
    ensures Matches(f, insts, s.pc, I.Next(I.State(s.regs[inst.dst := v], s.pc + 2, s.mem)),
      Fall(WithReg(x, MapRegister(inst.dst), v)))
  {
    Operands(f, insts, s, x, inst, Lddw);
    RegsAfterSet(s.regs, x.regs, x.regs[MapRegister(inst.dst) := v], inst.dst, v);
  }

  lemma SimLddw(f: Frame, insts: seq<Inst>, s: I.State, x: AState, inst: Inst, ext: External)
    requires Start(f, insts, s, x, inst, Lddw) && s.pc + 1 < |insts|
    ensures Matches(f, insts, s.pc,
                    I.Next(I.State(s.regs[inst.dst := I.LddwValue(inst.imm, insts[s.pc + 1].imm)], s.pc + 2, s.mem)),
                    ExecBlock(Lift(MoveCode(true, MapRegister(inst.dst), S.LddwBits(inst.imm, insts[s.pc + 1].imm))),
                      ext, x))
  {
    Operands(f, insts, s, x, inst, Lddw);
    hide S.LddwBits, I.LddwValue, MoveCode, ExecBlock, Matches, Start;
    T.LddwSame(inst.imm, insts[s.pc + 1].imm);
    ConstantRuns(MapRegister(inst.dst), S.LddwBits(inst.imm, insts[s.pc + 1].imm), ext, x);
    LddwHolds(f, insts, s, x, inst, I.LddwValue(inst.imm, insts[s.pc + 1].imm));
  }

  /** The flags after the comparison of a jump. */
  function JumpFlags(c: Cond, a: u64, b: u64): Nzcv
  {
    if c.Set? then
      var v := Wrap64(Bitwise(BitAnd, a, b));
      Nzcv(SignOf(true, v) < 0, v == 0, false, false)
    else SubFlags(true, a, b)
  }

  /** The condition after a comparison is the one x86 code tests. */
  lemma SameCondition(c: Cond, a: u64, b: u64)
    ensures Holds(CondFor(c), JumpFlags(c, a, b)) <==>
      E.Holds(S.CondCc(c), if c.Set? then E.TestFlags(true, Wrap64(Bitwise(BitAnd, a, b))) else E.CmpFlags(true, a, b))
  {
    hide Bitwise, SignOf, Narrow;
  }

  /**
   * Decisions: as the interpreter's, except for unsigned comparisons with a negative immediate between its extensions.
   */
  lemma JumpDecides(c: Cond, o: Operand, dst: u64, src: u64, imm: i32)
    ensures var b := if o.Imm? then Wrap64(imm) else src;
      (Holds(CondFor(c), JumpFlags(c, dst, b)) <==> I.Taken(c, o, dst, src, imm))
      <==> (o.Imm? && imm < 0 ==> !X.BetweenExtensions(c, dst, imm))
  {
    hide JumpFlags, Holds, E.Holds, I.Taken, X.BetweenExtensions, Bitwise, E.CmpFlags, E.TestFlags, CondFor, S.CondCc;
    SameCondition(c, dst, if o.Imm? then Wrap64(imm) else src);
    T.JumpDecides(c, o, dst, src, imm);
  }

  /** The comparison sets these flags and nothing else. */
  lemma CompareRuns(c: Cond, o: Operand, dst: areg, src: areg, imm: i32, ext: External, x: AState)
    requires dst < TEMP && src <= TEMP
    ensures var simple := o.Imm? && IsSimpleImm(Jmp(c, o), imm);
      var b := if simple then Wrap64(imm) else x.regs[src];
      var ins := CompareFor(c, simple, dst, src, imm);
      !ins.Cbnz? && Exec(ins, ext, x) == Some(x.(flags := Some(JumpFlags(c, x.regs[dst], b))))
  {
    assert Narrow(true, x.regs[dst]) == x.regs[dst] && Narrow(true, x.regs[src]) == x.regs[src];
    assert 0 <= imm < 0x1000 ==> Wrap64(imm) == imm && Narrow(true, imm) == imm;
    assert forall v: int :: Narrow(true, v) == Wrap64(v);
    hide Narrow, Wrap64, Bitwise, SignOf;
    if c.Set? {
      hide SubFlags;
    }
  }

  lemma CompareAndJump(ins: A, cond: nibble, t: S.Target, flags: Nzcv, ext: External, x: AState)
    requires !ins.Cbnz? && Exec(ins, ext, x) == Some(x.(flags := Some(flags)))
    ensures var y := x.(flags := Some(flags));
      ExecBlock([Do(ins), If(cond, t)], ext, x) == if Holds(cond, flags) then Goto(t, y) else Fall(y)
  {
    hide Exec, Holds;
    assert [Do(ins), If(cond, t)] == [Do(ins)] + [If(cond, t)] && [If(cond, t)][1..] == [];
    ExecStep(ins, [If(cond, t)], ext, x);
  }

  /** The jump is taken, or not, in a state that differs only in its flags. */
  lemma JumpMatches(f: Frame, insts: seq<Inst>, s: I.State, x: AState, inst: Inst, c: Cond, o: Operand, taken: bool,
                    flags: Nzcv)
    requires Start(f, insts, s, x, inst, Jmp(c, o))
    requires (taken <==> I.Taken(c, o, s.regs[inst.dst], s.regs[inst.src], inst.imm))
      <==> (o.Imm? && inst.imm < 0 ==> !X.BetweenExtensions(c, s.regs[inst.dst], inst.imm))
    ensures var y := x.(flags := Some(flags));
      Matches(f, insts, s.pc, I.JumpStep(s, inst, c, o), if taken then Goto(S.SlotTarget(s.pc, inst.offset), y)
        else Fall(y))
      <==> Agrees(inst, Jmp(c, o), s.regs)
  {
    Operands(f, insts, s, x, inst, Jmp(c, o));
    var y := x.(flags := Some(flags));
    HoldingSame(f, s.regs, s.mem, x, y);
    hide Holding, I.Taken, X.BetweenExtensions;
    assert I.Advance(I.Advance(s.pc, 1), inst.offset) == s.pc + 1 + inst.offset;
    assert S.SlotTarget(s.pc, inst.offset) == S.ToSlot(s.pc + 1 + inst.offset);
  }

  lemma SimJump(f: Frame, insts: seq<Inst>, s: I.State, x: AState, inst: Inst, c: Cond, o: Operand, ext: External)
    requires Start(f, insts, s, x, inst, Jmp(c, o))
    requires x.regs[SourceRegister(inst, Jmp(c, o))] == SecondOperand(inst, Jmp(c, o), s.regs)
    requires SourceRegister(inst, Jmp(c, o)) <= TEMP
    ensures var simple := o.Imm? && IsSimpleImm(Jmp(c, o), inst.imm);
      var code := [Do(CompareFor(c, simple, MapRegister(inst.dst), SourceRegister(inst, Jmp(c, o)), inst.imm)),
        If(CondFor(c), S.SlotTarget(s.pc, inst.offset))];
      Matches(f, insts, s.pc, I.JumpStep(s, inst, c, o), ExecBlock(code, ext, x)) <==> Agrees(inst, Jmp(c, o), s.regs)
  {
    var op := Jmp(c, o);
    Operands(f, insts, s, x, inst, op);
    var simple := o.Imm? && IsSimpleImm(op, inst.imm);
    var dst, src, t := MapRegister(inst.dst), SourceRegister(inst, op), S.SlotTarget(s.pc, inst.offset);
    var b := if o.Imm? then Wrap64(inst.imm) else s.regs[inst.src];
    assert simple || x.regs[src] == b by { assert Narrow(true, Wrap64(inst.imm)) == Wrap64(inst.imm); }
    hide SecondOperand, SourceRegister, IsSimpleImm, Wrap64, Holds, JumpFlags, CompareFor, Exec, I.JumpStep, Agrees,
      Start, ExecBlock, Matches;
    CompareRuns(c, o, dst, src, inst.imm, ext, x);
    JumpDecides(c, o, s.regs[inst.dst], s.regs[inst.src], inst.imm);
    var flags := JumpFlags(c, s.regs[inst.dst], b);
    CompareAndJump(CompareFor(c, simple, dst, src, inst.imm), CondFor(c), t, flags, ext, x);
    JumpMatches(f, insts, s, x, inst, c, o, Holds(CondFor(c), flags), flags);
  }

  lemma SimJa(f: Frame, insts: seq<Inst>, s: I.State, x: AState, inst: Inst, ext: External)
    requires Start(f, insts, s, x, inst, Ja)
    ensures Matches(f, insts, s.pc, I.Next(s.(pc := I.Advance(I.Advance(s.pc, 1), inst.offset))),
                    ExecBlock([To(S.SlotTarget(s.pc, inst.offset))], ext, x))
  {
    Operands(f, insts, s, x, inst, Ja);
    assert S.SlotTarget(s.pc, inst.offset) == S.ToSlot(I.Advance(I.Advance(s.pc, 1), inst.offset));
  }

  lemma SimExit(f: Frame, insts: seq<Inst>, s: I.State, x: AState, inst: Inst, ext: External)
    requires Start(f, insts, s, x, inst, Exit)
    ensures Matches(f, insts, s.pc, I.Returned(s.regs[0], s.mem),
                    ExecBlock(if s.pc == |insts| - 1 then [] else [To(S.ToExit)], ext, x))
  {
    MapValues();
  }

  // ----- calls -----

  /**
   * External code at `addr` does what the helper does, and keeps the frame and the registers of r2 to r10 but
   * `scratch`.
   */
  ghost predicate HelperCallOk(f: Frame, ext: External, h: I.Helpers, scratch: set<nat>, addr: u64, x: AState, m: Mem)
  {
    MemRel(f, m, x) ==>
      var y, r := ext(addr, x), h(addr, x.regs[0..5], m);
      && y.regs[0] == r.0 && MemRel(f, r.1, y)
      && forall i :: 2 <= i <= 10 && i !in scratch ==> y.regs[REGISTER_MAP[i]] == x.regs[REGISTER_MAP[i]]
  }

  /** All functions of a table are such helpers; of any other external code nothing is asked here. */
  ghost predicate HelpersOk(f: Frame, ext: External, h: I.Helpers, scratch: set<nat>, fns: seq<u64>)
  {
    forall addr, x, m :: addr in fns && addr != 0 ==> HelperCallOk(f, ext, h, scratch, addr, x, m)
  }

  /** The call, and the move of its result. */
  lemma CallRuns(target: u64, rest: seq<Item>, ext: External, x: AState)
    ensures var y := ext(target, WithReg(x, TEMP, target));
      ExecBlock(CallCode(target) + rest, ext, x) == ExecBlock(rest, ext, WithReg(y, 5, y.regs[0]))
  {
    hide MoveCode, Bitwise;
    MapValues();
    var y := ext(target, WithReg(x, TEMP, target));
    var blr, mov := Blr(TEMP), LogicReg(true, ORR, MapRegister(0), RZ, 0);
    assert Narrow(true, target) == target && Narrow(true, y.regs[0]) == y.regs[0] && Narrow(true, 0) == 0;
    OrZero(y.regs[0]);
    assert Exec(blr, ext, WithReg(x, TEMP, target)) == Some(y);
    assert Exec(mov, ext, y) == Some(WithReg(y, 5, y.regs[0]));
    hide Exec, Narrow;
    assert CallCode(target) + rest == Lift(MoveCode(true, TEMP, target)) + ([Do(blr)] + ([Do(mov)] + rest));
    ExecConstant(true, TEMP, target, [Do(blr)] + ([Do(mov)] + rest), ext, x);
    ExecStep(blr, [Do(mov)] + rest, ext, WithReg(x, TEMP, target));
    ExecStep(mov, rest, ext, y);
  }

  /** Registers r2 to r10 but `scratch` are as in `r`, and the result is in the registers of r0 and r1. */
  predicate Returns(scratch: set<nat>, r: I.Regs, v: u64, x: ARegs)
  {
    x[5] == v && x[0] == v && forall i :: 2 <= i <= 10 && i !in scratch ==> x[REGISTER_MAP[i]] == r[i]
  }

  lemma AfterCall(f: Frame, s: I.State, x: AState, target: u64, ext: External, h: I.Helpers, scratch: set<nat>,
                  fns: seq<u64>)
    requires Holding(f, s.regs, s.mem, x) && HelpersOk(f, ext, h, scratch, fns)
    requires target in fns && target != 0
    ensures var y := ext(target, WithReg(x, TEMP, target));
      var z, r := WithReg(y, 5, y.regs[0]), h(target, s.regs[1..6], s.mem);
      Returns(scratch, s.regs, r.0, z.regs) && MemRel(f, r.1, z)
  {
    MapValues();
    MapFacts();
    var w := WithReg(x, TEMP, target);
    assert w.regs[0..5] == s.regs[1..6] by {
      forall i | 0 <= i < 5 ensures w.regs[0..5][i] == s.regs[1..6][i] {
        assert w.regs[i] == x.regs[REGISTER_MAP[i + 1]];
      }
    }
    assert MemRel(f, s.mem, w);
    assert HelperCallOk(f, ext, h, scratch, target, w, s.mem);
    hide HelpersOk, MemRel;
    var y, r := ext(target, w), h(target, s.regs[1..6], s.mem);
    var z := WithReg(y, 5, y.regs[0]);
    assert MemRel(f, r.1, z) by { SameMem(f, r.1, y, z); }
    forall i | 2 <= i <= 10 && i !in scratch ensures z.regs[REGISTER_MAP[i]] == s.regs[i] {
      assert REGISTER_MAP[i] != REGISTER_MAP[0] && w.regs[REGISTER_MAP[i]] == x.regs[REGISTER_MAP[i]];
    }
  }

  lemma SameMem(f: Frame, m: Mem, y: AState, z: AState)
    requires MemRel(f, m, y) && z.sp == y.sp && z.mem == y.mem
    ensures MemRel(f, m, z)
  {
  }

  /** With r2 to r10 kept, every register of the program is right but perhaps that of r1. */
  lemma ReturnsHolding(f: Frame, r: I.Regs, v: u64, m: Mem, z: AState)
    requires Returns({}, r, v, z.regs) && MemRel(f, m, z)
    ensures Holding(f, r[0 := v], m, z) <==> v == r[1]
  {
    MapValues();
    if v == r[1] {
      forall i | 0 <= i <= 10 ensures z.regs[REGISTER_MAP[i]] == r[0 := v][i] {
      }
    } else {
      assert z.regs[REGISTER_MAP[1]] == v;
    }
    hide MemRel;
  }

  /** After the helper that may unwind: a zero result leaves, any other goes on. */
  lemma UnwindRuns(ext: External, z: AState)
    ensures var e := ExecBlock([Do(SumImm(true, SUBS, RZ, MapRegister(0), 0)), If(EQ, S.ToExit)], ext, z);
      var y := z.(flags := Some(SubFlags(true, z.regs[5], 0)));
      e == if z.regs[5] == 0 then Goto(S.ToExit, y) else Fall(y)
  {
    MapValues();
    var ins, jump := SumImm(true, SUBS, RZ, MapRegister(0), 0), If(EQ, S.ToExit);
    assert Narrow(true, z.regs[5]) == z.regs[5];
    hide Narrow, SignOf;
    ExecStep(ins, [jump], ext, z);
    assert [Do(ins), jump] == [Do(ins)] + [jump] && [jump][1..] == [];
  }

  /** How the block of a call ends: with a zero result of the helper that unwinds it leaves, else it falls through. */
  lemma CallEnds(f: Frame, insts: seq<Inst>, s: I.State, x: AState, inst: Inst, p: S.Source, vm: I.Vm, h: I.Helpers,
                 scratch: set<nat>, ext: External)
    requires Start(f, insts, s, x, inst, Call) && HelpersOk(f, ext, h, scratch, vm.extFuncs)
    requires p.insts == insts && p.extFuncs == vm.extFuncs && p.unwindIndex == vm.unwindIndex
    requires 0 <= inst.imm < |vm.extFuncs| && vm.extFuncs[inst.imm] != 0
    ensures var r := h(vm.extFuncs[inst.imm], s.regs[1..6], s.mem);
      var b := ExecBlock(HelperCode(p.extFuncs[inst.imm], inst.imm == p.unwindIndex), ext, x);
      && !b.Crash? && Returns(scratch, s.regs, r.0, b.st.regs) && MemRel(f, r.1, b.st)
      && if inst.imm == vm.unwindIndex && r.0 == 0 then b.Goto? && b.target == S.ToExit else b.Fall?
  {
    hide ExecBlock, Holding, MemRel, CallCode, HelpersOk, Returns;
    var target := vm.extFuncs[inst.imm];
    AfterCall(f, s, x, target, ext, h, scratch, vm.extFuncs);
    var y := ext(target, WithReg(x, TEMP, target));
    var z, r := WithReg(y, 5, y.regs[0]), h(target, s.regs[1..6], s.mem);
    assert z.regs[5] == r.0 by { ResultReturned(scratch, s.regs, r.0, z.regs); }
    if inst.imm == p.unwindIndex {
      var check := [Do(SumImm(true, SUBS, RZ, MapRegister(0), 0)), If(EQ, S.ToExit)];
      CallRuns(target, check, ext, x);
      UnwindRuns(ext, z);
      SameMem(f, r.1, z, z.(flags := Some(SubFlags(true, z.regs[5], 0))));
    } else {
      CallRuns(target, [], ext, x);
      assert ExecBlock([], ext, z) == Fall(z) by { NothingRuns(ext, z); }
    }
  }

  lemma ResultReturned(scratch: set<nat>, r: I.Regs, v: u64, x: ARegs)
    requires Returns(scratch, r, v, x)
    ensures x[5] == v && x[0] == v
  {
  }

  /** With helpers that keep r2 to r10, code and interpreter agree on a call exactly if its result may stay in r1. */
  lemma SimCall(f: Frame, insts: seq<Inst>, s: I.State, x: AState, inst: Inst, p: S.Source, vm: I.Vm, h: I.Helpers,
                ext: External)
    requires Start(f, insts, s, x, inst, Call) && HelpersOk(f, ext, h, {}, vm.extFuncs)
    requires p.insts == insts && p.extFuncs == vm.extFuncs && p.unwindIndex == vm.unwindIndex
    requires 0 <= inst.imm < |vm.extFuncs| && vm.extFuncs[inst.imm] != 0
    ensures Matches(f, insts, s.pc, I.CallStep(vm, h, s, inst),
      ExecBlock(HelperCode(p.extFuncs[inst.imm], inst.imm == p.unwindIndex), ext, x))
      <==> CallAgrees(vm, h, s, inst)
  {
    Operands(f, insts, s, x, inst, Call);
    MapValues();
    hide ExecBlock, Holding, MemRel, HelperCode, HelpersOk, Returns;
    CallEnds(f, insts, s, x, inst, p, vm, h, {}, ext);
    var b := ExecBlock(HelperCode(p.extFuncs[inst.imm], inst.imm == p.unwindIndex), ext, x);
    var r := h(vm.extFuncs[inst.imm], s.regs[1..6], s.mem);
    ResultReturned({}, s.regs, r.0, b.st.regs);
    ReturnsHolding(f, s.regs, r.0, r.1, b.st);
  }

  lemma NothingRuns(ext: External, z: AState)
    ensures ExecBlock([], ext, z) == Fall(z)
  {
  }

  // ----- every instruction -----

  /**
   * Exactly where code and interpreter agree on the instruction in front of which the program is. A call may leave
   * anything in registers that helpers may change.
   */
  predicate AgreesAt(vm: I.Vm, h: I.Helpers, ctx: I.Ctx, scratch: set<nat>, s: I.State)
  {
    s.pc < |vm.insts| ==>
      var inst := vm.insts[s.pc];
      match DecodeOp(inst.opcode)
      case None => true
      case Some(Call) => 1 in scratch || CallAgrees(vm, h, s, inst)
      case Some(op) => Agrees(inst, op, s.regs) && X.Allowed(vm, ctx, inst, op, s.regs)
  }

  predicate Compiles(p: S.Source, vm: I.Vm)
  {
    p.insts == vm.insts && p.extFuncs == vm.extFuncs && p.unwindIndex == vm.unwindIndex
  }

  lemma StartHolds(vm: I.Vm, f: Frame, s: I.State, x: AState, inst: Inst, op: Op)
    requires V.Runnable(vm) && V.IsStart(vm.insts, s.pc) && s.pc < |vm.insts| && inst == vm.insts[s.pc]
    requires DecodeOp(inst.opcode) == Some(op) && Holding(f, s.regs, s.mem, x)
    ensures Start(f, vm.insts, s, x, inst, op)
    ensures op.Lddw? ==> s.pc + 1 < |vm.insts|
    ensures op.End? ==> inst.imm == 16 || inst.imm == 32 || inst.imm == 64
    ensures op.Call? ==> 0 <= inst.imm < |vm.extFuncs| && vm.extFuncs[inst.imm] != 0
  {
    hide DecodeOp, Holding;
    V.StartFacts(vm, s.pc);
    if op.Ja? || op.Jmp? {
      V.JumpFacts(vm, s.pc);
    }
  }

  lemma AluMatches(f: Frame, insts: seq<Inst>, s: I.State, x: AState, inst: Inst, w: Width, a: AluOp, o: Operand,
                   p: S.Source, ext: External)
    requires Start(f, insts, s, x, inst, Alu(w, a, o)) && p.insts == insts
    requires x.regs[SourceRegister(inst, Alu(w, a, o))] == SecondOperand(inst, Alu(w, a, o), s.regs)
    requires SourceRegister(inst, Alu(w, a, o)) <= TEMP
    ensures var r := I.AluStep(s, inst, w, a, o);
      Matches(f, insts, s.pc, r,
        ExecBlock(OpCode(p, s.pc, inst, Alu(w, a, o), MapRegister(inst.dst), SourceRegister(inst, Alu(w, a, o))), ext,
          x))
      <==> (Agrees(inst, Alu(w, a, o), s.regs) || r.Undefined?)
  {
    hide Start, Matches, ExecBlock, I.AluStep, RegisterForm, SimpleForm, SourceRegister, SecondOperand, Pow2;
    var op := Alu(w, a, o);
    if o.Imm? && IsSimpleImm(op, inst.imm) {
      SimSimple(f, insts, s, x, inst, w, a, ext);
    } else if a.Div? || a.Mod? {
      SimDivision(f, insts, s, x, inst, w, a, o, ext);
    } else {
      SimAlu(f, insts, s, x, inst, w, a, o, ext);
    }
  }

  lemma ExecuteMatches(p: S.Source, vm: I.Vm, h: I.Helpers, ctx: I.Ctx, f: Frame, s: I.State, x: AState, ext: External,
                       inst: Inst, op: Op)
    requires Compiles(p, vm) && s.pc < |vm.insts| && Start(f, vm.insts, s, x, inst, op)
    requires op.Call? ==> HelpersOk(f, ext, h, {}, vm.extFuncs)
    requires x.regs[SourceRegister(inst, op)] == SecondOperand(inst, op, s.regs) && SourceRegister(inst, op) <= TEMP
    requires op.Lddw? ==> s.pc + 1 < |vm.insts|
    requires op.End? ==> inst.imm == 16 || inst.imm == 32 || inst.imm == 64
    requires op.Call? ==> 0 <= inst.imm < |vm.extFuncs| && vm.extFuncs[inst.imm] != 0
    ensures var r := I.Execute(vm, h, ctx, s, inst, op);
      Matches(f, vm.insts, s.pc, r,
        ExecBlock(OpCode(p, s.pc, inst, op, MapRegister(inst.dst), SourceRegister(inst, op)), ext, x))
      <==> ((if op.Call? then CallAgrees(vm, h, s, inst)
        else Agrees(inst, op, s.regs) && X.Allowed(vm, ctx, inst, op, s.regs))
            || r.Undefined?)
  {
    hide Start, Matches, ExecBlock, HelpersOk, I.AluStep, I.LoadStep, I.StoreStep, I.JumpStep, I.CallStep, MoveCode,
      EndCode, MemCode, HelperCode, CompareFor, I.EndSem, I.NegSem, SecondOperand, RegisterForm, SimpleForm, CallAgrees,
      I.LddwValue, S.LddwBits, Pow2;
    match op
    case Alu(w, a, o) => AluMatches(f, vm.insts, s, x, inst, w, a, o, p, ext);
    case Neg(w) => SimNeg(f, vm.insts, s, x, inst, w, ext);
    case End(big) => SimEnd(f, vm.insts, s, x, inst, big, ext);
    case Ldx(sz) => SimLoad(f, vm.insts, s, x, inst, sz, vm, ctx, ext);
    case St(sz) => SimStore(f, vm.insts, s, x, inst, op, vm, ctx, ext);
    case Stx(sz) => SimStore(f, vm.insts, s, x, inst, op, vm, ctx, ext);
    case Lddw => SimLddw(f, vm.insts, s, x, inst, ext); LddwSlots(f, vm.insts, s, x, inst);
    case Ja => SimJa(f, vm.insts, s, x, inst, ext);
    case Jmp(c, o) => SimJump(f, vm.insts, s, x, inst, c, o, ext); JumpOutcome(s, inst, c, o);
    case Exit => SimExit(f, vm.insts, s, x, inst, ext);
    case Call => SimCall(f, vm.insts, s, x, inst, p, vm, h, ext); CallOutcome(vm, h, s, inst);
  }

  lemma JumpOutcome(s: I.State, inst: Inst, c: Cond, o: Operand)
    ensures I.JumpStep(s, inst, c, o).Next?
  {
    hide I.Taken;
  }

  lemma CallOutcome(vm: I.Vm, h: I.Helpers, s: I.State, inst: Inst)
    requires 0 <= inst.imm < |vm.extFuncs| && vm.extFuncs[inst.imm] != 0
    ensures !I.CallStep(vm, h, s, inst).Undefined?
  {
  }

  lemma LddwSlots(f: Frame, insts: seq<Inst>, s: I.State, x: AState, inst: Inst)
    requires Start(f, insts, s, x, inst, Lddw) && s.pc + 1 < |insts|
    ensures I.Advance(s.pc, 1) == s.pc + 1 && I.Advance(s.pc + 1, 1) == s.pc + 2
  {
    hide Holding;
  }

  /** Every instruction: where the step is defined, the selected code answers it exactly if `AgreesAt` holds. */
  lemma StepMatches(p: S.Source, vm: I.Vm, h: I.Helpers, ctx: I.Ctx, f: Frame, s: I.State, x: AState, ext: External)
    requires V.Runnable(vm) && Compiles(p, vm) && V.Good(vm, ctx, s) && s.pc < |vm.insts|
    requires Holding(f, s.regs, s.mem, x) && HelpersOk(f, ext, h, {}, vm.extFuncs)
    ensures Matches(f, vm.insts, s.pc, I.Step(vm, h, ctx, s), ExecBlock(Code(p, s.pc), ext, x))
      <==> (AgreesAt(vm, h, ctx, {}, s) || I.Step(vm, h, ctx, s).Undefined?)
  {
    hide DecodeOp, Agrees, X.Allowed, CallAgrees, Holding, HelpersOk, Matches, ExecBlock, I.Execute, OpCode, PrefixCode,
      SourceRegister, V.Starts, V.InstError, V.Accepted;
    V.StartFacts(vm, s.pc);
    var inst := vm.insts[s.pc];
    var op := DecodeOp(inst.opcode).value;
    StartHolds(vm, f, s, x, inst, op);
    hide Start, V.Good, V.Runnable;
    var code := OpCode(p, s.pc, inst, op, MapRegister(inst.dst), SourceRegister(inst, op));
    assert Code(p, s.pc) == PrefixCode(op, inst.imm) + code;
    var y := PrefixRuns(f, vm.insts, s, x, inst, op, code, ext);
    ExecuteMatches(p, vm, h, ctx, f, s, y, ext, inst, op);
  }

  /** One input for each difference: the code for it does something else than the interpreter. */
  lemma Disagreements(vm: I.Vm, ctx: I.Ctx, s: I.State)
    ensures s.regs[0] == 0 && s.regs[1] == 1 ==> !Agrees(Inst(Opcode(Neg(W64)), 1, 0, 0, 0), Neg(W64), s.regs)
    ensures !Agrees(Inst(Opcode(St(S64)), 1, 0, 0, -1), St(S64), s.regs)
    ensures s.regs[1] == 1 ==> !Agrees(Inst(Opcode(Alu(W32, Lsh, Imm)), 1, 0, 0, 32), Alu(W32, Lsh, Imm), s.regs)
    ensures s.regs[1] == TWO32 ==> !Agrees(Inst(Opcode(End(false)), 1, 0, 0, 32), End(false), s.regs)
    ensures s.regs[1] == TWO32 ==> !Agrees(Inst(Opcode(Jmp(Gt, Imm)), 1, 0, 1, -1), Jmp(Gt, Imm), s.regs)
    ensures s.regs[1] == 1 && |vm.extFuncs| > 0 && vm.unwindIndex == -1 ==>
      !CallAgrees(vm, (_, _, m) => (0, m), s, Inst(Opcode(Call), 0, 0, 0, 0))
    ensures vm.boundsCheck && s.regs[1] == 0 && ctx.mem == 0 && ctx.stack > 0 ==>
      !X.Allowed(vm, ctx, Inst(Opcode(Ldx(S8)), 0, 1, 0, 0), Ldx(S8), s.regs)
  {
    hide Opcode, Pow2;
    assert Pow2(32) == TWO32 by { Pow2Values(); }
  }
}
