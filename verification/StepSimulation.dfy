/**
 * One interpreter step against one block of selected code, for every kind of instruction that is not plain arithmetic:
 * shifts, moves, multiplication and division, byte order, memory, jumps and calls.
 */
module StepSimulation {
  import opened Words
  import opened Ebpf
  import opened Memory
  import opened X86
  import opened X86Exec
  import opened Select
  import opened Blocks
  import opened Simulation
  import I = Interp
  import V = Validator

  /** The block of a shift leaves the hardware's result, whatever the amount. */
  lemma ShiftRuns(w: Width, a: AluOp, o: Operand, dst: reg, src: reg, imm: i32, ext: External, str: u64, x: XState)
    requires IsShift(a) && dst != RCX && src != RCX
    ensures var e := ExecBlock(ShiftCode(w, a, o, dst, src, imm), ext, str, x);
      var n := if o.Imm? then imm % 0x100 else x.regs[src] % 0x100;
      && e.Fall? && e.st.mem == x.mem
      && e.st.regs == x.regs[RCX := e.st.regs[RCX]][dst := Shift(w.W64?, AluSh(a), Narrow(w.W64?, x.regs[dst]), n)]
  {
    hide Shift, Narrow;
    if o.Imm? {
      var ins := ShI(w.W64?, AluSh(a), dst, imm % 0x100);
      ExecOne(ins, ext, str, x);
    } else {
      var mov, ins := RR(true, RROp.MovRR, src, RCX), ShCl(w.W64?, AluSh(a), dst);
      MovMoves(src, RCX, ext, x);
      var y := Exec(mov, ext, 0, x).st;
      ExecStep(mov, [Plain(ins)], ext, str, x);
      ExecOne(ins, ext, str, y);
      assert ShiftCode(w, a, o, dst, src, imm) == [Plain(mov)] + [Plain(ins)];
    }
  }

  lemma MulMod(x: nat, p: nat, m: nat)
    requires p > 0 && m > 0
    ensures p * m > 0 && (x * p) % (p * m) == p * (x % m)
  {
    var q, r := x / m, x % m;
    assert x == q * m + r;
    assert x * p == q * (p * m) + p * r by {
      assert x * p == q * m * p + r * p;
      assert q * m * p == q * (p * m) by { assert m * p == p * m; }
    }
    MulLe(r + 1, m, p);
    assert p * r < p * m;
    DivModUnique(x * p, p * m, q, p * r);
  }

  /** A 32-bit left shift by 32 to 63: the interpreter gives 0, the hardware shifts by 32 less. */
  lemma WideShift(dst: u64, n: nat)
    requires 32 <= n < 64
    ensures I.ShlSem(W32, dst, n) == I.Value(0)
    ensures n % 32 == n - 32 && (Low32(Low32(dst) * Pow2(n - 32)) == 0 <==> dst % Pow2(64 - n) == 0)
  {
    hide Pow2;
    var k, m := n - 32, 64 - n;
    assert Pow2(32) == TWO32 by { Pow2Values(); }
    assert Pow2(n) == TWO32 * Pow2(k) by { Pow2Add(32, k); }
    assert Pow2(k) * Pow2(m) == TWO32 by { Pow2Add(k, m); }
    ShiftedOut(dst, Pow2(k));
    assert Low32(Low32(dst) * Pow2(k)) == Low32(dst * Pow2(k)) by { MulLow32Left(dst, Pow2(k)); }
    LostBits(dst, Pow2(k), Pow2(m));
  }

  lemma ShiftedOut(dst: nat, p: nat)
    ensures Low32(dst * (TWO32 * p)) == 0
  {
    assert dst * (TWO32 * p) == (dst * p) * TWO32;
    DivModUnique(dst * (TWO32 * p), TWO32, dst * p, 0);
  }

  lemma LostBits(dst: nat, p: nat, m: nat)
    requires p >= 1 && m >= 1 && p * m == TWO32
    ensures Low32(dst * p) == 0 <==> dst % m == 0
  {
    MulMod(dst, p, m);
    if dst % m != 0 {
      MulLe(1, dst % m, p);
    }
  }

  /** The interpreter's shift and the hardware's: equal unless a 32-bit left shift by 32 or more loses bits. */
  lemma ShiftAgrees(w: Width, a: AluOp, o: Operand, dst: u64, src: u64, imm: i32)
    requires IsShift(a) && I.AluSem(w, a, o, dst, src, imm).Value?
    ensures var n, c := I.ShiftAmount(o, src, imm), if o.Imm? then imm % 0x100 else src % 0x100;
      I.AluSem(w, a, o, dst, src, imm) == I.Value(Shift(w.W64?, AluSh(a), Narrow(w.W64?, dst), c)) <==>
        (w.W32? && a.Lsh? && 32 <= n < 64 ==> dst % Pow2(64 - n) == 0)
  {
    hide Pow2;
    var n := I.ShiftAmount(o, src, imm);
    if w.W32? && a.Lsh? && n >= 32 {
      assert 32 <= n < 64;
      WideShift(dst, n);
      assert n % 0x100 == n;
    } else {
      ShiftValue(w, a, o, dst, src, imm);
    }
  }

  lemma SimShift(f: Frame, insts: seq<Inst>, s: I.State, x: XState, inst: Inst, w: Width, a: AluOp, o: Operand,
                 ext: External, str: u64)
    requires Start(f, insts, s, x, inst, Alu(w, a, o)) && IsShift(a)
    ensures var r := I.AluStep(s, inst, w, a, o);
      Matches(f, insts, s.pc, r,
              ExecBlock(Select.AluCode(s.pc, w, a, o, MapRegister(inst.dst), MapRegister(inst.src), inst.imm), ext,
                str, x))
      <==> (Agrees(inst, Alu(w, a, o), s.regs) || r.Undefined?)
  {
    hide I.AluSem, Matches, Shift, Narrow, ExecBlock, ShiftCode, Pow2;
    var dst, src := MapRegister(inst.dst), MapRegister(inst.src);
    Operands(f, insts, s, x, inst, Alu(w, a, o));
    var v := I.AluSem(w, a, o, s.regs[inst.dst], s.regs[inst.src], inst.imm);
    ShiftNeverDivides(w, a, o, s.regs[inst.dst], s.regs[inst.src], inst.imm);
    ShiftRuns(w, a, o, dst, src, inst.imm, ext, str, x);
    var b := ExecBlock(ShiftCode(w, a, o, dst, src, inst.imm), ext, str, x);
    if v.Value? {
      ShiftAgrees(w, a, o, s.regs[inst.dst], s.regs[inst.src], inst.imm);
      MatchesSetIff(f, insts, s, x, inst, Alu(w, a, o), v.v, b.st.regs[dst], b);
    } else {
      MatchesUndefined(f, insts, s.pc, b);
    }
  }

  lemma ShiftNeverDivides(w: Width, a: AluOp, o: Operand, dst: u64, src: u64, imm: i32)
    requires IsShift(a)
    ensures !I.AluSem(w, a, o, dst, src, imm).DivZero?
  {
    hide Pow2;
  }

  lemma MatchesUndefined(f: Frame, insts: seq<Inst>, pc: nat, b: BlockEnd)
    requires pc < |insts|
    ensures Matches(f, insts, pc, I.Undefined, b)
  {
  }

  /** The instruction a move selects, and the value it leaves in its destination. */
  function MovIns(w: Width, o: Operand, dst: reg, src: reg, imm: i32): X
  {
    if o.Reg? then RR(true, RROp.MovRR, src, dst)
    else if w.W32? then RI(false, MovRI, dst, imm)
    else LoadImm(dst, imm)
  }

  lemma MovRuns(w: Width, o: Operand, dst: reg, src: reg, imm: i32, ext: External, x: XState)
    ensures var v := if o.Reg? then x.regs[src] else Narrow(w.W64?, imm);
      Exec(MovIns(w, o, dst, src, imm), ext, 0, x) == Continue(XState(x.regs[dst := v], x.flags, x.mem))
  {
    LoadImmLoads(dst, imm, ext, x);
    MovMoves(src, dst, ext, x);
  }

  lemma MovValue(w: Width, o: Operand, dst: u64, src: u64, imm: i32)
    ensures var v := if o.Reg? then src else Narrow(w.W64?, imm);
      I.AluSem(w, Mov, o, dst, src, imm) == I.Value(v) <==> (w.W32? && o.Reg? ==> src < TWO32)
    ensures I.AluSem(w, Mov, o, dst, src, imm).Value?
  {
    NarrowTwice(w.W64?, imm);
  }

  lemma SimMov(f: Frame, insts: seq<Inst>, s: I.State, x: XState, inst: Inst, w: Width, o: Operand, ext: External,
               str: u64)
    requires Start(f, insts, s, x, inst, Alu(w, Mov, o))
    ensures Matches(f, insts, s.pc, I.AluStep(s, inst, w, Mov, o),
                    ExecBlock(Select.AluCode(s.pc, w, Mov, o, MapRegister(inst.dst), MapRegister(inst.src), inst.imm),
                      ext, str, x))
      <==> Agrees(inst, Alu(w, Mov, o), s.regs)
    ensures I.AluStep(s, inst, w, Mov, o).Next?
  {
    hide Matches, Exec, LoadImm, I.AluSem, Narrow;
    var dst, src := MapRegister(inst.dst), MapRegister(inst.src);
    Operands(f, insts, s, x, inst, Alu(w, Mov, o));
    var ins := MovIns(w, o, dst, src, inst.imm);
    MovRuns(w, o, dst, src, inst.imm, ext, x);
    MovValue(w, o, s.regs[inst.dst], s.regs[inst.src], inst.imm);
    ExecOne(ins, ext, str, x);
    assert Select.AluCode(s.pc, w, Mov, o, dst, src, inst.imm) == [Plain(ins)];
    var u := if o.Reg? then s.regs[inst.src] else Narrow(w.W64?, inst.imm);
    var v := I.AluSem(w, Mov, o, s.regs[inst.dst], s.regs[inst.src], inst.imm).v;
    MatchesSetIff(f, insts, s, x, inst, Alu(w, Mov, o), v, u, ExecBlock([Plain(ins)], ext, str, x));
  }

  predicate IsMulDiv(a: AluOp) { a.Mul? || a.Div? || a.Mod? }

  /** The interpreter's result of a multiplication, division or remainder, on the operand its form names. */
  lemma MulDivValue(w: Width, a: AluOp, o: Operand, dst: u64, src: u64, imm: i32)
    requires IsMulDiv(a)
    ensures var r, b := I.AluSem(w, a, o, dst, src, imm), Narrow(w.W64?, if o.Imm? then Wrap64(imm) else src);
      && (r.Value? ==> (a.Mul? || b != 0) && r.v == MulDivResult(w, a, Narrow(w.W64?, dst), b))
      && (r.DivZero? ==> !a.Mul? && o.Reg? && src == 0)
      && (r.Value? && !a.Mul? && o.Imm? ==> imm != 0)
  {
    var b := if o.Imm? then Wrap64(imm) else src;
    if a.Mul? {
      MulValue(w, dst, b);
      assert I.Truncated(w, dst * b) == I.Value(Narrow(w.W64?, dst * b));
    } else if Narrow(w.W64?, b) != 0 {
      DivValue(w, dst, b);
      DivSemValue(w, a.Mod?, dst, b);
    }
    hide I.DivSem;
  }

  lemma DivSemValue(w: Width, mod: bool, dst: u64, b: u64)
    requires Narrow(w.W64?, b) != 0
    ensures var x, y := Narrow(w.W64?, dst), Narrow(w.W64?, b);
      I.DivSem(w, mod, dst, b) == I.Value(if mod then x % y else x / y)
  {
    assert Narrow(true, dst) == dst && Narrow(true, b) == b;
  }

  /** A nonzero 32-bit immediate is nonzero at either width. */
  lemma ImmediateNonzero(w: Width, imm: i32)
    requires imm != 0
    ensures Narrow(w.W64?, Wrap64(imm)) != 0
  {
  }

  /** For multiplication, the operand of the form and the operand of the code agree as `Agrees` says. */
  lemma MulAgrees(w: Width, o: Operand, dst: u64, src: u64, imm: i32)
    ensures var x, b, c := Narrow(w.W64?, dst), Narrow(w.W64?, if o.Imm? then Wrap64(imm) else src),
        Narrow(w.W64?, SecondValue(imm, src));
      MulDivResult(w, Mul, x, b) == MulDivResult(w, Mul, x, c) <==>
        ((o.Imm? <==> imm != 0) || Narrow(w.W64?, dst * src) == Narrow(w.W64?, dst * Wrap64(imm)))
  {
    MulValue(w, dst, src);
    MulValue(w, dst, Wrap64(imm));
    hide Narrow;
  }

  lemma SimMulDiv(f: Frame, insts: seq<Inst>, s: I.State, x: XState, inst: Inst, w: Width, a: AluOp, o: Operand,
                  ext: External, str: u64)
    requires Start(f, insts, s, x, inst, Alu(w, a, o)) && IsMulDiv(a)
    ensures var r := I.AluStep(s, inst, w, a, o);
      Matches(f, insts, s.pc, r,
              ExecBlock(Select.AluCode(s.pc, w, a, o, MapRegister(inst.dst), MapRegister(inst.src), inst.imm), ext,
                str, x))
      <==> (Agrees(inst, Alu(w, a, o), s.regs) || r.Undefined?)
  {
    hide Matches, ExecBlock, I.AluSem, Narrow, MulDivResult, MulDivMod, Wrap64;
    var dst, src := MapRegister(inst.dst), MapRegister(inst.src);
    Operands(f, insts, s, x, inst, Alu(w, a, o));
    MulDivValue(w, a, o, s.regs[inst.dst], s.regs[inst.src], inst.imm);
    MulDivModRuns(s.pc, w, a, src, dst, inst.imm, ext, str, x);
    var v := I.AluSem(w, a, o, s.regs[inst.dst], s.regs[inst.src], inst.imm);
    var b := ExecBlock(MulDivMod(s.pc, w, a, src, dst, inst.imm), ext, str, x);
    assert Select.AluCode(s.pc, w, a, o, dst, src, inst.imm) == MulDivMod(s.pc, w, a, src, dst, inst.imm);
    assert Narrow(w.W64?, 0) == 0 by { NarrowSmall(w, 0); }
    if inst.imm != 0 {
      ImmediateNonzero(w, inst.imm);
    }
    match v
    case Value(v) =>
      if a.Mul? {
        MulAgrees(w, o, s.regs[inst.dst], s.regs[inst.src], inst.imm);
      }
      if a.Mul? || Narrow(w.W64?, s.regs[inst.src]) != 0 {
        MatchesSetIff(f, insts, s, x, inst, Alu(w, a, o), v, b.st.regs[dst], b);
      } else {
        GoesToHandler(f, insts, s, inst, v, b);
      }
    case DivZero => MatchesDivZero(f, insts, s, x, inst, Alu(w, a, o), b);
    case Ub => MatchesUndefined(f, insts, s.pc, b);
  }

  /** A block that leaves for the division handler does not answer a step that goes on. */
  lemma GoesToHandler(f: Frame, insts: seq<Inst>, s: I.State, inst: Inst, v: u64, b: BlockEnd)
    requires s.pc < |insts| && b.Goto? && b.target == ToDivByZero
    ensures !Matches(f, insts, s.pc, I.SetDst(s, inst, v), b)
  {
  }

  lemma MatchesDivZero(f: Frame, insts: seq<Inst>, s: I.State, x: XState, inst: Inst, op: Op, b: BlockEnd)
    requires Start(f, insts, s, x, inst, op)
    requires b.Goto? && b.target == ToDivByZero && b.st.mem == x.mem && b.st.regs == x.regs[RCX := s.pc % TWO16]
    ensures Matches(f, insts, s.pc, I.DivideByZero(s.pc, s.mem), b)
  {
    MemAfterScratch(f, s.mem, x, b.st);
  }

  lemma SimNeg(f: Frame, insts: seq<Inst>, s: I.State, x: XState, inst: Inst, w: Width, ext: External, str: u64)
    requires Start(f, insts, s, x, inst, Neg(w))
    ensures Matches(f, insts, s.pc, I.SetDst(s, inst, I.NegSem(w, s.regs[inst.dst])),
                    ExecBlock([Plain(Un(w.W64?, NegR, MapRegister(inst.dst)))], ext, str, x))
  {
    hide Matches;
    var dst := MapRegister(inst.dst);
    Operands(f, insts, s, x, inst, Neg(w));
    var ins := Un(w.W64?, NegR, dst);
    AddSubNarrow(w.W64?, 0, s.regs[inst.dst]);
    ExecOne(ins, ext, str, x);
    MatchesSet(f, insts, s, x, inst, Neg(w), I.NegSem(w, s.regs[inst.dst]), ExecBlock([Plain(ins)], ext, str, x));
  }

  // ----- byte order -----

  lemma {:induction false} FromLeSnoc(bs: seq<byte>, b: byte)
    ensures FromLe(bs + [b]) == FromLe(bs) + b * Pow2(8 * |bs|)
  {
    if bs == [] {
      assert [] + [b] == [b];
    } else {
      assert (bs + [b])[1..] == bs[1..] + [b];
      FromLeSnoc(bs[1..], b);
      Pow2Values();
      Pow2Add(8, 8 * (|bs| - 1));
      hide Pow2, FromLe;
      SnocProduct(b, Pow2(8 * (|bs| - 1)));
    }
  }

  lemma SnocProduct(b: int, p: int)
    ensures 0x100 * (b * p) == b * (0x100 * p)
  {
  }

  /** The processor's reversal and the interpreter's. */
  lemma {:induction false} SwapIsReversal(v: u64, n: nat)
    ensures SwapBytes(v, n) == I.ByteSwap(v, n)
    decreases n
  {
    if n > 0 {
      var rest := LeBytes(v / 0x100, n - 1);
      SwapIsReversal(v / 0x100, n - 1);
      assert LeBytes(v, n)[1..] == rest;
      assert I.Reversed(LeBytes(v, n)) == I.Reversed(rest) + [v % 0x100];
      FromLeSnoc(I.Reversed(rest), v % 0x100);
    }
  }

  lemma ByteSwapTwo(v: u64)
    ensures I.ByteSwap(v, 2) == v / 0x100 % 0x100 + 0x100 * (v % 0x100)
  {
    var lo, hi := v % 0x100, v / 0x100 % 0x100;
    assert LeBytes(v, 2) == [lo, hi];
    assert [lo, hi][1..] == [hi] && [hi][1..] == [];
    assert I.Reversed([lo, hi]) == [hi, lo];
    assert [hi, lo][1..] == [lo] && [lo][1..] == [];
    assert FromLe([hi, lo]) == hi + 0x100 * FromLe([lo]);
  }

  /** Rotating the low half-word by 8 and masking it exchanges its two bytes. */
  lemma RotateMask(v: u64)
    ensures Narrow(false, Bitwise(BitAnd, Narrow(false, RotateWord(v, 8)), Narrow(false, 0xffff))) == I.ByteSwap(v, 2)
  {
    var lo := v % TWO16;
    var r := RotateWord(v, 8);
    var swapped := (lo * Pow2(8) + lo / Pow2(8)) % TWO16;
    Pow2Values();
    assert r == TWO16 * (v / TWO16) + swapped;
    hide Pow2, Bitwise, RotateWord;
    ByteSwapTwo(v);
    assert swapped == lo / 0x100 + 0x100 * (lo % 0x100) by {
      SwapArith(lo);
    }
    assert lo % 0x100 == v % 0x100 && lo / 0x100 == v / 0x100 % 0x100 by {
      LowWord(v);
    }
    MaskWord(r);
    TruncateTwice(v / TWO16, swapped);
  }

  lemma SwapArith(lo: u16)
    ensures (lo * 0x100 + lo / 0x100) % TWO16 == lo / 0x100 + 0x100 * (lo % 0x100)
  {
    var h, l := lo / 0x100, lo % 0x100;
    DivModUnique(lo * 0x100 + h, TWO16, h, h + 0x100 * l);
  }

  lemma LowWord(v: u64)
    ensures v % TWO16 % 0x100 == v % 0x100 && v % TWO16 / 0x100 == v / 0x100 % 0x100
  {
    var q, lo := v / TWO16, v % TWO16;
    DivModUnique(v, 0x100, 0x100 * q + lo / 0x100, lo % 0x100);
    DivModUnique(v / 0x100, 0x100, q, lo / 0x100);
  }

  lemma MaskWord(r: u64)
    ensures Narrow(false, Bitwise(BitAnd, Narrow(false, r), Narrow(false, 0xffff))) == r % TWO16
  {
    hide Bitwise, Pow2;
    assert Pow2(16) == TWO16 by { Pow2Values(); }
    MaskIsMod(Low32(r), 16);
    ModMod(r);
    assert Narrow(false, 0xffff) == TWO16 - 1;
    NarrowSmall(W32, Low32(r) % TWO16);
  }

  lemma ModMod(r: u64)
    ensures r % TWO32 % TWO16 == r % TWO16
  {
    var q := r / TWO32;
    DivModUnique(r, TWO16, q * 0x1_0000 + r % TWO32 / TWO16, r % TWO32 % TWO16);
  }

  lemma TruncateTwice(q: nat, v: u16)
    ensures (TWO16 * q + v) % TWO16 == v
  {
  }

  lemma SwapLow(v: u64)
    ensures I.ByteSwap(Low32(v), 4) == I.ByteSwap(v, 4)
  {
    LeBytesMod(v, 4);
    Pow2Values();
  }

  lemma EndValue(big: bool, v: u64, imm: i32)
    ensures !big ==> (I.EndSem(big, v, imm) == v <==> (imm == 32 ==> v < TWO32) && (imm == 16 ==> v < TWO16))
    ensures big && imm == 16 ==> I.EndSem(big, v, imm) == I.ByteSwap(v, 2)
    ensures big && imm == 32 ==> I.EndSem(big, v, imm) == Swapped(false, Low32(v))
    ensures big && imm == 64 ==> I.EndSem(big, v, imm) == Swapped(true, v)
    ensures big && imm != 16 && imm != 32 && imm != 64 ==> I.EndSem(big, v, imm) == v
  {
    hide I.ByteSwap, LeBytes, FromLe, Pow2, SwapBytes;
    SwapLow(v);
    SwapIsReversal(Low32(v), 4);
    SwapIsReversal(v, 8);
  }

  /** The code of a conversion leaves `v` converted, or not converted to little endian, and touches nothing else. */
  lemma EndRuns(big: bool, dst: reg, v: u64, imm: i32, ext: External, str: u64, x: XState)
    requires x.regs[dst] == v
    ensures var e := ExecBlock(EndCode(big, dst, imm), ext, str, x);
      e.Fall? && e.st.mem == x.mem && e.st.regs == x.regs[dst := if big then I.EndSem(big, v, imm) else v]
  {
    hide I.EndSem, Swapped, RotateWord, Bitwise, I.ByteSwap;
    EndValue(big, v, imm);
    if big && imm == 16 {
      var rol, mask := Rol16(dst, 8), RI(false, AndRI, dst, 0xffff);
      var y := Exec(rol, ext, 0, x).st;
      assert y == SetReg(x, dst, RotateWord(v, 8));
      RotateMask(v);
      assert Exec(mask, ext, 0, y) == X86Exec.Continue(SetReg(y, dst, I.ByteSwap(v, 2)));
      hide Exec;
      ExecStep(rol, [Plain(mask)], ext, str, x);
      ExecOne(mask, ext, str, y);
      assert EndCode(big, dst, imm) == [Plain(rol)] + [Plain(mask)];
    } else if big && (imm == 32 || imm == 64) {
      ExecOne(Bswap(imm == 64, dst), ext, str, x);
    } else {
      assert EndCode(big, dst, imm) == [];
    }
  }

  lemma SimEnd(f: Frame, insts: seq<Inst>, s: I.State, x: XState, inst: Inst, big: bool, ext: External, str: u64)
    requires Start(f, insts, s, x, inst, End(big))
    ensures Matches(f, insts, s.pc, I.SetDst(s, inst, I.EndSem(big, s.regs[inst.dst], inst.imm)),
                    ExecBlock(EndCode(big, MapRegister(inst.dst), inst.imm), ext, str, x))
      <==> Agrees(inst, End(big), s.regs)
  {
    hide Matches, I.EndSem, ExecBlock, EndCode;
    Operands(f, insts, s, x, inst, End(big));
    EndRuns(big, MapRegister(inst.dst), s.regs[inst.dst], inst.imm, ext, str, x);
    EndValue(big, s.regs[inst.dst], inst.imm);
    var b := ExecBlock(EndCode(big, MapRegister(inst.dst), inst.imm), ext, str, x);
    MatchesSetIff(f, insts, s, x, inst, End(big), I.EndSem(big, s.regs[inst.dst], inst.imm),
      b.st.regs[MapRegister(inst.dst)], b);
  }

  // ----- loads and stores -----

  lemma LoadRuns(sz: Size, base: reg, dst: reg, d: i32, m: Mem, ext: External, x: XState)
    requires Contains(x.mem, m) && Mapped(m, Wrap64(x.regs[base] + d), SizeBytes(sz))
    ensures var v := Load(m, Wrap64(x.regs[base] + d), SizeBytes(sz));
      v < TWO64 && Exec(Ld(sz, base, dst, d), ext, 0, x) == X86Exec.Continue(XState(x.regs[dst := v], x.flags, x.mem))
  {
    hide Load;
    var a, n := Wrap64(x.regs[base] + d), SizeBytes(sz);
    assert Mapped(x.mem, a, n);
    LoadCong(x.mem, m, a, n);
    LoadIsWord(m, a, sz);
  }

  lemma SimLoad(f: Frame, insts: seq<Inst>, s: I.State, x: XState, inst: Inst, sz: Size, vm: I.Vm, ctx: I.Ctx,
                ext: External, str: u64)
    requires Start(f, insts, s, x, inst, Ldx(sz))
    ensures Matches(f, insts, s.pc, I.LoadStep(vm, ctx, s, inst, sz),
                    ExecBlock([Plain(Ld(sz, MapRegister(inst.src), MapRegister(inst.dst), inst.offset))], ext, str, x))
      <==> Allowed(vm, ctx, inst, Ldx(sz), s.regs)
    ensures I.LoadStep(vm, ctx, s, inst, sz).OutOfBounds? <==> !Allowed(vm, ctx, inst, Ldx(sz), s.regs)
  {
    hide Matches, Load, I.InBounds, Exec;
    var dst, src := MapRegister(inst.dst), MapRegister(inst.src);
    var ins := Ld(sz, src, dst, inst.offset);
    Operands(f, insts, s, x, inst, Ldx(sz));
    var b := ExecBlock([Plain(ins)], ext, str, x);
    var o := I.LoadStep(vm, ctx, s, inst, sz);
    if o.Next? {
      LoadRuns(sz, src, dst, inst.offset, s.mem, ext, x);
      ExecOne(ins, ext, str, x);
      MatchesSet(f, insts, s, x, inst, Ldx(sz), Load(s.mem, Wrap64(s.regs[inst.src] + inst.offset), SizeBytes(sz)), b);
    } else {
      OneNeverLeaves(ins, ext, str, x);
      MatchesError(f, insts, s.pc, o, b);
    }
  }

  /** A block that jumps nowhere answers undefined behaviour, but no refused access. */
  lemma MatchesError(f: Frame, insts: seq<Inst>, pc: nat, o: I.Outcome, b: BlockEnd)
    requires pc < |insts| && (o.Undefined? || o.OutOfBounds?) && !b.Goto?
    ensures Matches(f, insts, pc, o, b) <==> o.Undefined?
  {
  }

  lemma OneNeverLeaves(ins: X, ext: External, str: u64, x: XState)
    ensures !ExecBlock([Plain(ins)], ext, str, x).Goto?
  {
    hide Exec;
    assert [Plain(ins)][1..] == [];
  }

  /** Storing the same value into the program's memory on both sides. */
  lemma MemAfterStore(f: Frame, m: Mem, x: XState, a: int, n: nat, v: int)
    requires FrameOk(f) && MemRel(f, m, x) && Mapped(m, a, n)
    ensures Mapped(x.mem, a, n) && MemRel(f, Store(m, a, n, v), x.(mem := Store(x.mem, a, n, v)))
  {
    hide Store;
    assert Mapped(x.mem, a, n);
    StoreAt(m, a, n, v);
    StoreAt(x.mem, a, n, v);
    StoreBoth(x.mem, m, a, n, v);
    var y := Store(x.mem, a, n, v);
    forall k | f.sp + STACK_SIZE <= k < f.sp + STACK_SIZE + 40
      ensures k in y && y[k] == f.saved[k - (f.sp + STACK_SIZE)]
    {
      assert k in x.mem && k !in m;
      assert !(a <= k < a + n);
    }
  }

  /** The immediate of a store, cut to the bytes that are emitted, stores the same bytes. */
  lemma StoreBitsStore(sz: Size, imm: i32)
    ensures LeBytes(Signed32(StoreBits(sz, imm)), SizeBytes(sz)) == LeBytes(imm, SizeBytes(sz))
  {
    Pow2Values();
    LeBytesMod(imm, SizeBytes(sz));
    hide LeBytes, Pow2;
  }

  lemma SimStore(f: Frame, insts: seq<Inst>, s: I.State, x: XState, inst: Inst, op: Op, vm: I.Vm, ctx: I.Ctx,
                 ext: External, str: u64)
    requires (op.St? || op.Stx?) && Start(f, insts, s, x, inst, op)
    ensures var o := I.StoreStep(vm, ctx, s, inst, op.size, if op.St? then inst.imm else s.regs[inst.src]);
      && (Matches(f, insts, s.pc, o, ExecBlock([Plain(StoreIns(inst, op))], ext, str, x))
          <==> Allowed(vm, ctx, inst, op, s.regs))
      && (o.OutOfBounds? <==> !Allowed(vm, ctx, inst, op, s.regs))
  {
    hide I.InBounds, LeBytes, StoreIns, Store, Exec, ExecBlock, Mapped, Wrap64;
    var sz, n := op.size, SizeBytes(op.size);
    var ins, v := StoreIns(inst, op), if op.St? then inst.imm else s.regs[inst.src];
    Operands(f, insts, s, x, inst, op);
    var a := Wrap64(s.regs[inst.dst] + inst.offset);
    var o := I.StoreStep(vm, ctx, s, inst, sz, v);
    OneNeverLeaves(ins, ext, str, x);
    if o.Next? {
      MemAfterStore(f, s.mem, x, a, n, v);
      StoreRuns(inst, op, a, v, ext, x);
      ExecOne(ins, ext, str, x);
    } else {
      MatchesError(f, insts, s.pc, o, ExecBlock([Plain(ins)], ext, str, x));
    }
  }

  /** The instruction selected for a store. */
  function StoreIns(inst: Inst, op: Op): X
    requires op.St? || op.Stx?
  {
    if op.St? then StrI(op.size, MapRegister(inst.dst), inst.offset, StoreBits(op.size, inst.imm))
    else Str(op.size, MapRegister(inst.src), MapRegister(inst.dst), inst.offset)
  }

  lemma StoreRuns(inst: Inst, op: Op, a: u64, v: int, ext: External, x: XState)
    requires (op.St? || op.Stx?) && a == Wrap64(x.regs[MapRegister(inst.dst)] + inst.offset)
    requires v == (if op.St? then inst.imm else x.regs[MapRegister(inst.src)]) && Mapped(x.mem, a, SizeBytes(op.size))
    ensures Exec(StoreIns(inst, op), ext, 0, x) == X86Exec.Continue(x.(mem := Store(x.mem, a, SizeBytes(op.size), v)))
  {
    hide LeBytes, Signed32, StoreBits, WriteBytes, Wrap64;
    StoreBitsStore(op.size, inst.imm);
  }

  lemma SimLddw(f: Frame, insts: seq<Inst>, s: I.State, x: XState, inst: Inst, ext: External, str: u64)
    requires Start(f, insts, s, x, inst, Lddw) && s.pc + 1 < |insts|
    ensures Matches(f, insts, s.pc,
                    I.Next(I.State(s.regs[inst.dst := I.LddwValue(inst.imm, insts[s.pc + 1].imm)], s.pc + 2, s.mem)),
                    ExecBlock([Plain(LoadImm(MapRegister(inst.dst),
                      Signed64(LddwBits(inst.imm, insts[s.pc + 1].imm))))], ext, str, x))
  {
    hide LddwBits;
    var v := LddwBits(inst.imm, insts[s.pc + 1].imm);
    var dst := MapRegister(inst.dst);
    Operands(f, insts, s, x, inst, Lddw);
    assert V.After(insts, s.pc) == s.pc + 2 && FrameOk(f) && Holding(f, s.regs, s.mem, x);
    hide Exec, LoadImm, Start, Holding, FrameOk, V.After;
    LoadImmLoads(dst, Signed64(v), ext, x);
    assert Wrap64(Signed64(v)) == v;
    ExecOne(LoadImm(dst, Signed64(v)), ext, str, x);
    LddwSame(inst.imm, insts[s.pc + 1].imm);
    var y := XState(x.regs[dst := v], x.flags, x.mem);
    assert y.regs == x.regs[RCX := y.regs[RCX]][dst := v];
    HoldingAfterSet(f, s.regs, s.mem, x, y, inst.dst, v);
  }

  lemma LddwSame(lo: i32, hi: i32)
    ensures LddwBits(lo, hi) == I.LddwValue(lo, hi)
  {
  }

  // ----- jumps -----

  /**
   * The comparison and the condition code of a jump decide as the interpreter does, except that an unsigned
   * comparison with a negative immediate decides differently between its two extensions.
   */
  lemma JumpDecides(c: Cond, o: Operand, dst: u64, src: u64, imm: i32)
    ensures var b := if o.Imm? then Wrap64(imm) else src;
      var flags := if c.Set? then TestFlags(true, Wrap64(Bitwise(BitAnd, dst, b))) else CmpFlags(true, dst, b);
      (Holds(CondCc(c), flags) <==> I.Taken(c, o, dst, src, imm)) <==>
        (o.Imm? && imm < 0 ==> !BetweenExtensions(c, dst, imm))
  {
    hide Bitwise, CmpFlags;
    var b := if o.Imm? then Wrap64(imm) else src;
    if c.Set? {
      Bitwise64(BitAnd, dst, b);
    } else {
      CmpOrders(true, dst, b);
      SignExtended(imm);
      hide Holds, Signed64, Wrap64, Low32;
    }
  }

  lemma SignExtended(imm: i32)
    ensures Signed64(Wrap64(imm)) == imm && SignOf(true, Wrap64(imm)) == imm
    ensures imm >= 0 ==> Wrap64(imm) == imm && Low32(imm) == imm
    ensures Low32(imm) <= Wrap64(imm)
  {
  }

  lemma CompareRuns(c: Cond, o: Operand, dst: reg, src: reg, imm: i32, ext: External, x: XState)
    ensures var ins := JumpCode(c, o, dst, src, imm, ToExit)[0].x;
      var b := if o.Imm? then Wrap64(imm) else x.regs[src];
      var flags := if c.Set? then TestFlags(true, Wrap64(Bitwise(BitAnd, x.regs[dst], b)))
        else CmpFlags(true, x.regs[dst], b);
      flags.Flags? && Exec(ins, ext, 0, x) == X86Exec.Continue(x.(flags := flags))
  {
    hide Bitwise, SignOf;
    var b := if o.Imm? then Wrap64(imm) else x.regs[src];
    assert Narrow(true, x.regs[dst]) == x.regs[dst] && Narrow(true, x.regs[src]) == x.regs[src];
    hide Wrap64;
    if c.Set? {
      CompareEffect(true, x, dst, b);
    } else {
      CompareEffect(false, x, dst, b);
    }
    hide Binary;
  }

  lemma CompareEffect(test: bool, x: XState, dst: reg, b: u64)
    ensures var a := x.regs[dst];
      Binary(true, if test then TestRR else CmpRR, x, dst, a, b) ==
        x.(flags := if test then TestFlags(true, Wrap64(Bitwise(BitAnd, a, b))) else CmpFlags(true, a, b))
  {
    hide Bitwise, TestFlags, CmpFlags;
  }

  lemma SimJump(f: Frame, insts: seq<Inst>, s: I.State, x: XState, inst: Inst, c: Cond, o: Operand, ext: External,
                str: u64)
    requires Start(f, insts, s, x, inst, Jmp(c, o))
    ensures Matches(f, insts, s.pc, I.JumpStep(s, inst, c, o),
                    ExecBlock(JumpCode(c, o, MapRegister(inst.dst), MapRegister(inst.src), inst.imm,
                      SlotTarget(s.pc, inst.offset)), ext, str, x))
      <==> Agrees(inst, Jmp(c, o), s.regs)
    ensures I.JumpStep(s, inst, c, o).Next?
  {
    hide Exec, Holds, I.Taken, TestFlags, CmpFlags, Bitwise, BetweenExtensions;
    var dst, src, t := MapRegister(inst.dst), MapRegister(inst.src), SlotTarget(s.pc, inst.offset);
    Operands(f, insts, s, x, inst, Jmp(c, o));
    var code := JumpCode(c, o, dst, src, inst.imm, t);
    CompareRuns(c, o, dst, src, inst.imm, ext, x);
    JumpDecides(c, o, s.regs[inst.dst], s.regs[inst.src], inst.imm);
    var ins, jump := code[0].x, code[1];
    assert code == [Plain(ins)] + [jump];
    ExecStep(ins, [jump], ext, str, x);
    assert [jump][1..] == [];
    var y := Exec(ins, ext, 0, x).st;
    assert MemRel(f, s.mem, y);
    assert I.Advance(I.Advance(s.pc, 1), inst.offset) == s.pc + 1 + inst.offset;
    assert t == ToSlot(s.pc + 1 + inst.offset);
  }

  lemma SimJa(f: Frame, insts: seq<Inst>, s: I.State, x: XState, inst: Inst, ext: External, str: u64)
    requires Start(f, insts, s, x, inst, Ja)
    ensures Matches(f, insts, s.pc, I.Next(s.(pc := I.Advance(I.Advance(s.pc, 1), inst.offset))),
                    ExecBlock([JmpTo(SlotTarget(s.pc, inst.offset))], ext, str, x))
  {
    Operands(f, insts, s, x, inst, Ja);
    assert SlotTarget(s.pc, inst.offset) == ToSlot(I.Advance(I.Advance(s.pc, 1), inst.offset));
  }

  lemma SimExit(f: Frame, insts: seq<Inst>, s: I.State, x: XState, inst: Inst, ext: External, str: u64)
    requires Start(f, insts, s, x, inst, Exit)
    ensures Matches(f, insts, s.pc, I.Returned(s.regs[0], s.mem),
                    ExecBlock(if s.pc == |insts| - 1 then [] else [JmpTo(ToExit)], ext, str, x))
  {
    MapValues();
  }

  // ----- calls -----

  /** As `Holding`, but for the registers in `dead`. */
  ghost predicate HoldingBut(f: Frame, dead: set<nat>, r: I.Regs, m: Mem, x: XState)
  {
    (forall i :: 0 <= i <= 10 && i !in dead ==> x.regs[REGISTER_MAP[i]] == r[i]) && MemRel(f, m, x)
  }

  /**
   * External code at `addr` behaves as the helper does, keeps the registers of r1 to r10 but for those in `scratch`,
   * and leaves the frame alone.
   */
  ghost predicate HelperCallOk(f: Frame, ext: External, h: I.Helpers, scratch: set<nat>, addr: u64, x: XState, m: Mem)
  {
    MemRel(f, m, x) ==>
      var y, r := ext(addr, x), h(addr, [x.regs[RDI], x.regs[RSI], x.regs[RDX], x.regs[RCX], x.regs[R8]], m);
      && y.regs[RAX] == r.0 && MemRel(f, r.1, y)
      && forall i :: 1 <= i <= 10 && i !in scratch ==> y.regs[REGISTER_MAP[i]] == x.regs[REGISTER_MAP[i]]
  }

  /** All functions of a table are such helpers; of any other external code nothing is asked here. */
  ghost predicate HelpersOk(f: Frame, ext: External, h: I.Helpers, scratch: set<nat>, fns: seq<u64>)
  {
    forall addr, x, m :: addr in fns && addr != 0 ==> HelperCallOk(f, ext, h, scratch, addr, x, m)
  }

  lemma CallRuns(target: u64, ext: External, str: u64, x: XState)
    ensures ExecBlock([MovReg(R9, RCX)] + CallCode(target), ext, str, x) ==
      Fall(ext(target, XState(x.regs[RCX := x.regs[R9]][RAX := target], x.flags, x.mem)))
  {
    hide LoadImm;
    var mov, load := RR(true, RROp.MovRR, R9, RCX), LoadImm(RAX, Signed64(target));
    MovMoves(R9, RCX, ext, x);
    var y := Exec(mov, ext, 0, x).st;
    LoadImmLoads(RAX, Signed64(target), ext, y);
    assert Wrap64(Signed64(target)) == target;
    var z := Exec(load, ext, 0, y).st;
    assert CallCode(target) == [Plain(load)] + [Plain(CallRax)];
    ExecStep(mov, CallCode(target), ext, str, x);
    ExecStep(load, [Plain(CallRax)], ext, str, y);
    ExecOne(CallRax, ext, str, z);
  }

  /** After the call: r0 is the helper's result, the other registers but `scratch` and the frame are kept. */
  lemma AfterCall(f: Frame, s: I.State, x: XState, target: u64, ext: External, h: I.Helpers, scratch: set<nat>,
                  fns: seq<u64>)
    requires FrameOk(f) && Holding(f, s.regs, s.mem, x) && HelpersOk(f, ext, h, scratch, fns)
    requires target in fns && target != 0
    ensures var y := ext(target, XState(x.regs[RCX := x.regs[R9]][RAX := target], x.flags, x.mem));
      var (v, m) := h(target, s.regs[1..6], s.mem);
      HoldingBut(f, scratch - {0}, s.regs[0 := v], m, y) && y.regs[RAX] == v
  {
    MapValues();
    var r := s.regs;
    var z := XState(x.regs[RCX := x.regs[R9]][RAX := target], x.flags, x.mem);
    assert [z.regs[RDI], z.regs[RSI], z.regs[RDX], z.regs[RCX], z.regs[R8]] == r[1..6];
    assert MemRel(f, s.mem, z);
    assert HelperCallOk(f, ext, h, scratch, target, z, s.mem);
    var y := ext(target, z);
    var (v, m) := h(target, r[1..6], s.mem);
    MapFacts();
    forall i | 0 <= i <= 10 && i !in scratch - {0} ensures y.regs[REGISTER_MAP[i]] == r[0 := v][i] {
      if i > 0 {
        assert REGISTER_MAP[i] != REGISTER_MAP[0];
        assert z.regs[REGISTER_MAP[i]] == x.regs[REGISTER_MAP[i]];
      }
    }
  }

  /** How the block of a call ends: with a zero result of the helper that unwinds it leaves, else it falls through. */
  lemma CallEnds(f: Frame, insts: seq<Inst>, s: I.State, x: XState, inst: Inst, p: Source, vm: I.Vm, h: I.Helpers,
                 scratch: set<nat>, ext: External, str: u64)
    requires Start(f, insts, s, x, inst, Call) && HelpersOk(f, ext, h, scratch, vm.extFuncs)
    requires p.insts == insts && p.extFuncs == vm.extFuncs && p.unwindIndex == vm.unwindIndex
    requires 0 <= inst.imm < |vm.extFuncs| && vm.extFuncs[inst.imm] != 0
    ensures var r := h(vm.extFuncs[inst.imm], s.regs[1..6], s.mem);
      var b := ExecBlock(OpCode(p, s.pc, inst, Call, MapRegister(inst.dst), MapRegister(inst.src)), ext, str, x);
      if inst.imm == vm.unwindIndex && r.0 == 0 then
        b.Goto? && b.target == ToExit && b.st.regs[RAX] == 0 && MemRel(f, r.1, b.st)
      else
        b.Fall? && HoldingBut(f, scratch - {0}, s.regs[0 := r.0], r.1, b.st)
  {
    hide ExecBlock, Holding, MemRel, FrameOk, HelpersOk;
    var target := vm.extFuncs[inst.imm];
    Operands(f, insts, s, x, inst, Call);
    CallRuns(target, ext, str, x);
    AfterCall(f, s, x, target, ext, h, scratch, vm.extFuncs);
    var call := [MovReg(R9, RCX)] + CallCode(target);
    if inst.imm == p.unwindIndex {
      var check := [Plain(RI(true, CmpRI, MapRegister(0), 0)), JccTo(CcE, ToExit)];
      ExecAppend(call, check, ext, str, x);
      UnwindCheck(f, ext, str, ExecBlock(call, ext, str, x).st, h(target, s.regs[1..6], s.mem).1);
      assert OpCode(p, s.pc, inst, Call, MapRegister(inst.dst), MapRegister(inst.src)) == call + check;
    } else {
      assert OpCode(p, s.pc, inst, Call, MapRegister(inst.dst), MapRegister(inst.src)) == call;
    }
  }

  lemma UnwindCheck(f: Frame, ext: External, str: u64, y: XState, m: Mem)
    requires MemRel(f, m, y)
    ensures var e := ExecBlock([Plain(RI(true, CmpRI, MapRegister(0), 0)), JccTo(CcE, ToExit)], ext, str, y);
      && (if y.regs[RAX] == 0 then e.Goto? && e.target == ToExit else e.Fall?)
      && e.st.regs == y.regs && MemRel(f, m, e.st)
  {
    MapValues();
    var cmp, jump := RI(true, CmpRI, MapRegister(0), 0), JccTo(CcE, ToExit);
    var z := Exec(cmp, ext, 0, y).st;
    assert z.regs == y.regs && z.mem == y.mem && z.flags.Flags? && z.flags.zf == (y.regs[RAX] == 0);
    ExecStep(cmp, [jump], ext, str, y);
    assert [Plain(cmp), jump] == [Plain(cmp)] + [jump];
    assert [jump][1..] == [];
    assert MemRel(f, m, z);
  }

  /** With helpers that keep the registers of r1 to r10 the code of a call does what the interpreter does. */
  lemma SimCall(f: Frame, insts: seq<Inst>, s: I.State, x: XState, inst: Inst, p: Source, vm: I.Vm, h: I.Helpers,
                ext: External, str: u64)
    requires Start(f, insts, s, x, inst, Call) && HelpersOk(f, ext, h, {}, vm.extFuncs)
    requires p.insts == insts && p.extFuncs == vm.extFuncs && p.unwindIndex == vm.unwindIndex
    ensures Matches(f, insts, s.pc, I.CallStep(vm, h, s, inst),
                    ExecBlock(OpCode(p, s.pc, inst, Call, MapRegister(inst.dst), MapRegister(inst.src)), ext, str, x))
  {
    hide ExecBlock, MemRel, FrameOk, OpCode, HelpersOk;
    if 0 <= inst.imm < |vm.extFuncs| && vm.extFuncs[inst.imm] != 0 {
      Operands(f, insts, s, x, inst, Call);
      CallEnds(f, insts, s, x, inst, p, vm, h, {}, ext, str);
    }
  }

  /** One input for each difference: the code for it does something else than the interpreter. */
  lemma Disagreements(vm: I.Vm, ctx: I.Ctx, r: I.Regs)
    ensures r[1] == 1 && r[2] == 2 ==> !Agrees(Inst(Opcode(Alu(W64, Mul, Reg)), 1, 2, 0, 1), Alu(W64, Mul, Reg), r)
    ensures r[0] == 0 ==> !Agrees(Inst(Opcode(Alu(W64, Div, Imm)), 1, 0, 0, 2), Alu(W64, Div, Imm), r)
    ensures r[2] == TWO32 ==> !Agrees(Inst(Opcode(Alu(W32, Mov, Reg)), 1, 2, 0, 0), Alu(W32, Mov, Reg), r)
    ensures r[1] == 1 ==> !Agrees(Inst(Opcode(Alu(W32, Lsh, Imm)), 1, 0, 0, 32), Alu(W32, Lsh, Imm), r)
    ensures r[1] == TWO16 ==> !Agrees(Inst(Opcode(End(false)), 1, 0, 0, 16), End(false), r)
    ensures r[1] == TWO32 ==> !Agrees(Inst(Opcode(Jmp(Gt, Imm)), 1, 0, 1, -1), Jmp(Gt, Imm), r)
    ensures vm.boundsCheck && r[1] == 0 && ctx.mem == 0 && ctx.stack > 0 ==>
      !Allowed(vm, ctx, Inst(Opcode(Ldx(S8)), 0, 1, 0, 0), Ldx(S8), r)
  {
    hide Opcode, Pow2;
    assert Pow2(32) == TWO32 by { Pow2Values(); }
  }
}
