/** Execution of selected code with symbolic jumps, and multiplication, division and remainder. */
module Blocks {
  import opened Words
  import opened Ebpf
  import opened Memory
  import opened X86
  import opened X86Exec
  import opened Select
  import Interp

  /** How a block ends: past its last instruction, at a jump target, at the return, or not at all. */
  datatype BlockEnd = Fall(st: XState) | Goto(target: Target, st: XState) | Return(st: XState) | Crash

  /** Run a block; `str` is the address of the string table. */
  function ExecBlock(code: seq<Asm>, ext: External, str: u64, st: XState): BlockEnd
  {
    if code == [] then Fall(st)
    else match code[0]
      case Plain(x) =>
        (match Exec(x, ext, 0, st)
         case Continue(st') => ExecBlock(code[1..], ext, str, st')
         case Finish(st') => Return(st')
         case _ => Crash)
      case JmpTo(t) => Goto(t, st)
      case JccTo(c, t) =>
        if st.flags.Unknown? then Crash
        else if Holds(c, st.flags) then Goto(t, st)
        else ExecBlock(code[1..], ext, str, st)
      case LeaString(dst, _) => ExecBlock(code[1..], ext, str, XState(st.regs[dst := str], st.flags, st.mem))
  }

  function Then(b: BlockEnd, code: seq<Asm>, ext: External, str: u64): BlockEnd
  {
    if b.Fall? then ExecBlock(code, ext, str, b.st) else b
  }

  lemma {:induction false} ExecAppend(a: seq<Asm>, b: seq<Asm>, ext: External, str: u64, st: XState)
    ensures ExecBlock(a + b, ext, str, st) == Then(ExecBlock(a, ext, str, st), b, ext, str)
    decreases |a|
  {
    hide Exec, Holds;
    if a == [] {
      assert a + b == b;
    } else {
      assert (a + b)[1..] == a[1..] + b;
      match a[0]
      case Plain(x) =>
        var e := Exec(x, ext, 0, st);
        if e.Continue? {
          ExecAppend(a[1..], b, ext, str, e.st);
        }
      case JmpTo(_) =>
      case JccTo(c, _) => ExecAppend(a[1..], b, ext, str, st);
      case LeaString(dst, _) => ExecAppend(a[1..], b, ext, str, XState(st.regs[dst := str], st.flags, st.mem));
    }
  }

  /** One plain instruction in front. */
  lemma ExecStep(x: X, rest: seq<Asm>, ext: External, str: u64, st: XState)
    requires Exec(x, ext, 0, st).Continue?
    ensures ExecBlock([Plain(x)] + rest, ext, str, st) == ExecBlock(rest, ext, str, Exec(x, ext, 0, st).st)
  {
    hide Exec;
    assert ([Plain(x)] + rest)[1..] == rest;
  }

  lemma ExecOne(x: X, ext: External, str: u64, st: XState)
    requires Exec(x, ext, 0, st).Continue?
    ensures ExecBlock([Plain(x)], ext, str, st) == Fall(Exec(x, ext, 0, st).st)
  {
    hide Exec;
    ExecStep(x, [], ext, str, st);
    assert [Plain(x)] + [] == [Plain(x)];
  }

  lemma LoadImmLoads(dst: reg, v: i64, ext: External, st: XState)
    ensures Exec(LoadImm(dst, v), ext, 0, st) == Continue(XState(st.regs[dst := Wrap64(v)], st.flags, st.mem))
  {
  }

  lemma MovMoves(src: reg, dst: reg, ext: External, st: XState)
    ensures Exec(RR(true, MovRR, src, dst), ext, 0, st) ==
      Continue(XState(st.regs[dst := st.regs[src]], st.flags, st.mem))
  {
  }

  // ----- the scratch area below the stack pointer -----

  /** Two 8-byte slots are free below the stack pointer. */
  ghost predicate HasScratch(st: XState)
  {
    st.regs[RSP] >= 16 && Mapped(st.mem, st.regs[RSP] - 16, 16)
  }

  ghost predicate SameButScratch(m1: Mem, m2: Mem, sp: int)
  {
    m2.Keys == m1.Keys && forall a :: a in m1 && !(sp - 16 <= a < sp) ==> m2[a] == m1[a]
  }

  lemma Load64Store(m: Mem, a: int, v: u64)
    requires Mapped(m, a, 8)
    ensures Store(m, a, 8, v).Keys == m.Keys && Mapped(Store(m, a, 8, v), a, 8)
    ensures Load64(Store(m, a, 8, v), a) == v
  {
    hide Load, Store;
    StoreAt(m, a, 8, v);
    LoadStore(m, a, 8, v);
    Pow2Values();
  }

  lemma Load64Other(m: Mem, a: int, b: int, v: u64)
    requires Mapped(m, a, 8) && Mapped(m, b, 8) && (a + 8 <= b || b + 8 <= a)
    ensures Mapped(Store(m, b, 8, v), a, 8) && Load64(Store(m, b, 8, v), a) == Load64(m, a)
  {
    hide Load, Store;
    StoreAt(m, b, 8, v);
    LoadCong(Store(m, b, 8, v), m, a, 8);
  }

  /** After pushing `r`: the value is on top, memory elsewhere is unchanged. */
  lemma PushPushes(r: reg, ext: External, st: XState, sp: int)
    requires st.regs[RSP] == sp && sp >= 8 && Mapped(st.mem, sp - 8, 8)
    ensures var e := Exec(Push(r), ext, 0, st);
      && e.Continue? && e.st.regs == st.regs[RSP := sp - 8] && e.st.flags == st.flags
      && e.st.mem == Store(st.mem, sp - 8, 8, st.regs[r])
  {
    hide Store, Mapped;
    assert Wrap64(sp - 8) == sp - 8;
  }

  lemma PopPops(r: reg, ext: External, st: XState, sp: int)
    requires st.regs[RSP] == sp && sp + 8 < TWO64 && Mapped(st.mem, sp, 8)
    ensures var e := Exec(Pop(r), ext, 0, st);
      e == Continue(XState(st.regs[RSP := sp + 8][r := Load64(st.mem, sp)], st.flags, st.mem))
  {
    hide Load, Mapped;
  }

  // ----- multiplication, division, remainder -----

  function MulDivResult(w: Width, op: AluOp, a: u64, b: u64): u64
    requires op.Mul? || b != 0
  {
    match op
    case Mul => Narrow(w.W64?, a * b)
    case Div => Narrow(w.W64?, a / b)
    case _ => Narrow(w.W64?, a % b)
  }

  /** The value the second operand is read from: the immediate, or the source register when the immediate is 0. */
  function SecondValue(imm: i32, src: u64): u64 { if imm != 0 then Wrap64(imm) else src }

  lemma ComputeRuns(w: Width, op: AluOp, ext: External, str: u64, st: XState)
    requires op.Mul? || ((op.Div? || op.Mod?) && Narrow(w.W64?, st.regs[RCX]) != 0)
    ensures var e := ExecBlock(Compute(w, op), ext, str, st);
      var a, b := Narrow(w.W64?, st.regs[RAX]), Narrow(w.W64?, st.regs[RCX]);
      && e.Fall? && e.st.mem == st.mem
      && (forall r: reg :: r != RAX && r != RDX ==> e.st.regs[r] == st.regs[r])
      && (op.Mod? ==> e.st.regs[RDX] == MulDivResult(w, op, a, b))
      && (!op.Mod? ==> e.st.regs[RAX] == MulDivResult(w, op, a, b))
  {
    if op.Mul? {
      ExecOne(Un(w.W64?, MulR, RCX), ext, str, st);
    } else {
      var zero, div := RR(false, XorRR, RDX, RDX), Un(w.W64?, DivR, RCX);
      XorSelf(Low32(st.regs[RDX]));
      var st1 := Exec(zero, ext, 0, st).st;
      assert st1.regs == st.regs[RDX := 0] && st1.mem == st.mem;
      ExecStep(zero, [Plain(div)], ext, str, st);
      assert [Plain(zero)] + [Plain(div)] == Compute(w, op);
      DivideNoFault(w, st1);
      ExecOne(div, ext, str, st1);
    }
  }

  lemma {:induction false} XorSelf(x: nat)
    ensures Bitwise(BitXor, x, x) == 0
  {
    if x != 0 {
      XorSelf(x / 2);
    }
  }

  /** With a zero high half and a nonzero divisor no divide fault can occur. */
  lemma DivideNoFault(w: Width, st: XState)
    requires st.regs[RDX] == 0 && Narrow(w.W64?, st.regs[RCX]) != 0
    ensures var a, b := Narrow(w.W64?, st.regs[RAX]), Narrow(w.W64?, st.regs[RCX]);
      Divide(w.W64?, st, b) == Continue(XState(st.regs[RAX := Narrow(w.W64?, a / b)][RDX := Narrow(w.W64?, a % b)],
        Unknown, st.mem))
  {
    var a, b := Narrow(w.W64?, st.regs[RAX]), Narrow(w.W64?, st.regs[RCX]);
    DivSmall(a, b);
  }

  lemma DivSmall(a: nat, b: nat)
    requires b != 0
    ensures 0 <= a / b <= a && 0 <= a % b < b
  {
    Interp.DivSmaller(a, b);
  }

  lemma TestSelf(w: bool, src: reg, ext: External, st: XState)
    ensures var e := Exec(RR(w, TestRR, src, src), ext, 0, st);
      && e.Continue? && e.st.regs == st.regs && e.st.mem == st.mem
      && e.st.flags.Flags? && e.st.flags.zf == (Narrow(w, st.regs[src]) == 0)
  {
    hide Bitwise, SignOf;
    var v := Narrow(w, st.regs[src]);
    AndSelf(v);
    assert Exec(RR(w, TestRR, src, src), ext, 0, st) == Continue(Binary(w, TestRR, st, src, v, v));
  }

  lemma {:induction false} AndSelf(x: nat)
    ensures Bitwise(BitAnd, x, x) == x
  {
    if x != 0 {
      AndSelf(x / 2);
    }
  }

  /** The guard jumps to the division handler exactly when the source register is zero at the operand width. */
  lemma GuardRuns(i: nat, w: Width, op: AluOp, src: reg, ext: External, str: u64, st: XState)
    requires !op.Mul? && src != RCX
    ensures var e := ExecBlock(DivGuard(i, w, op, src), ext, str, st);
      && (if Narrow(w.W64?, st.regs[src]) == 0 then e.Goto? && e.target == ToDivByZero else e.Fall?)
      && e.st.regs == st.regs[RCX := i % TWO16] && e.st.mem == st.mem
  {
    hide Exec, LoadImm, Narrow;
    var load, test, jump := LoadImm(RCX, i % TWO16), RR(w.W64?, TestRR, src, src), JccTo(CcE, ToDivByZero);
    LoadImmLoads(RCX, i % TWO16, ext, st);
    var st1 := Exec(load, ext, 0, st).st;
    TestSelf(w.W64?, src, ext, st1);
    ExecStep(load, [Plain(test), jump], ext, str, st);
    ExecStep(test, [jump], ext, str, st1);
    assert DivGuard(i, w, op, src) == [Plain(load)] + [Plain(test), jump];
    assert [Plain(test)] + [jump] == [Plain(test), jump];
    assert [jump][1..] == [];
  }

  /** What SaveRegs leaves on the stack. */
  ghost predicate Saved(dst: reg, m: Mem, sp: int, ax: u64, dx: u64)
  {
    && Mapped(m, sp - 16, 16)
    && Load64(m, sp - 8) == (if dst == RAX then dx else ax)
    && (dst != RAX && dst != RDX ==> Load64(m, sp - 16) == dx)
  }

  function Depth(dst: reg): int { if dst == RAX || dst == RDX then 8 else 16 }

  lemma SaveRuns(dst: reg, ext: External, str: u64, st: XState)
    requires HasScratch(st)
    ensures var e, sp := ExecBlock(SaveRegs(dst), ext, str, st), st.regs[RSP];
      && e.Fall? && e.st.regs == st.regs[RSP := sp - Depth(dst)] && SameButScratch(st.mem, e.st.mem, sp)
      && Saved(dst, e.st.mem, sp, st.regs[RAX], st.regs[RDX])
  {
    hide Exec, Store, Load64, ExecBlock;
    var sp: int := st.regs[RSP];
    if dst == RAX || dst == RDX {
      var r := if dst == RAX then RDX else RAX;
      PushPushes(r, ext, st, sp);
      StoreAt(st.mem, sp - 8, 8, st.regs[r]);
      Load64Store(st.mem, sp - 8, st.regs[r]);
      ExecOne(Push(r), ext, str, st);
      assert SaveRegs(dst) == [Plain(Push(r))];
    } else {
      PushPushes(RAX, ext, st, sp);
      var st1 := Exec(Push(RAX), ext, 0, st).st;
      StoreAt(st.mem, sp - 8, 8, st.regs[RAX]);
      Load64Store(st.mem, sp - 8, st.regs[RAX]);
      PushPushes(RDX, ext, st1, sp - 8);
      StoreAt(st1.mem, sp - 16, 8, st1.regs[RDX]);
      Load64Store(st1.mem, sp - 16, st1.regs[RDX]);
      Load64Other(st1.mem, sp - 8, sp - 16, st1.regs[RDX]);
      ExecStep(Push(RAX), [Plain(Push(RDX))], ext, str, st);
      ExecOne(Push(RDX), ext, str, st1);
      assert SaveRegs(dst) == [Plain(Push(RAX))] + [Plain(Push(RDX))];
    }
  }

  /** A register move followed by a pop. */
  lemma MovPop(src: reg, dst: reg, r: reg, ext: External, str: u64, st: XState, sp: int)
    requires st.regs[RSP] == sp && sp + 8 < TWO64 && Mapped(st.mem, sp, 8) && dst != RSP
    ensures ExecBlock([MovReg(src, dst), Plain(Pop(r))], ext, str, st) ==
      Fall(XState(st.regs[dst := st.regs[src]][RSP := sp + 8][r := Load64(st.mem, sp)], st.flags, st.mem))
  {
    hide Exec, Load64, Mapped;
    MovMoves(src, dst, ext, st);
    var st1 := Exec(RR(true, MovRR, src, dst), ext, 0, st).st;
    ExecStep(RR(true, MovRR, src, dst), [Plain(Pop(r))], ext, str, st);
    PopPops(r, ext, st1, sp);
    ExecOne(Pop(r), ext, str, st1);
    assert [MovReg(src, dst), Plain(Pop(r))] == [Plain(RR(true, MovRR, src, dst))] + [Plain(Pop(r))];
  }

  lemma PopOne(r: reg, ext: External, str: u64, st: XState, sp: int)
    requires st.regs[RSP] == sp && sp + 8 < TWO64 && Mapped(st.mem, sp, 8)
    ensures ExecBlock([Plain(Pop(r))], ext, str, st) ==
      Fall(XState(st.regs[RSP := sp + 8][r := Load64(st.mem, sp)], st.flags, st.mem))
  {
    hide Exec, Load64, Mapped;
    PopPops(r, ext, st, sp);
    ExecOne(Pop(r), ext, str, st);
  }

  /** Restores RAX and RDX except where the result goes. */
  lemma DeliverRuns(op: AluOp, dst: reg, ext: External, str: u64, st: XState, sp: u64, ax: u64, dx: u64)
    requires dst != RSP && sp >= 16 && st.regs[RSP] == sp - Depth(dst) && Saved(dst, st.mem, sp, ax, dx)
    ensures var result := st.regs[if op.Mod? then RDX else RAX];
      var e := ExecBlock(Deliver(op, dst), ext, str, st);
      e.Fall? && e.st.mem == st.mem && e.st.regs == st.regs[RAX := ax][RDX := dx][RSP := sp][dst := result]
  {
    hide ExecBlock, Load64;
    var p := sp - Depth(dst);
    assert Mapped(st.mem, p, 8) && Mapped(st.mem, sp - 8, 8);
    hide Mapped;
    if dst == RAX {
      if op.Mod? {
        MovPop(RDX, RAX, RDX, ext, str, st, p);
        assert Deliver(op, dst) == [MovReg(RDX, RAX), Plain(Pop(RDX))];
      } else {
        PopOne(RDX, ext, str, st, p);
        assert Deliver(op, dst) == [Plain(Pop(RDX))];
      }
    } else if dst == RDX {
      if op.Mod? {
        PopOne(RAX, ext, str, st, p);
        assert Deliver(op, dst) == [Plain(Pop(RAX))];
      } else {
        MovPop(RAX, RDX, RAX, ext, str, st, p);
        assert Deliver(op, dst) == [MovReg(RAX, RDX), Plain(Pop(RAX))];
      }
    } else if op.Mod? {
      var a, b := [MovReg(RDX, dst), Plain(Pop(RDX))], [Plain(Pop(RAX))];
      MovPop(RDX, dst, RDX, ext, str, st, p);
      ExecAppend(a, b, ext, str, st);
      PopOne(RAX, ext, str, ExecBlock(a, ext, str, st).st, sp - 8);
      assert Deliver(op, dst) == a + b;
    } else {
      var a, b := [Plain(Pop(RDX))], [MovReg(RAX, dst), Plain(Pop(RAX))];
      PopOne(RDX, ext, str, st, p);
      ExecAppend(a, b, ext, str, st);
      MovPop(RAX, dst, RAX, ext, str, ExecBlock(a, ext, str, st).st, sp - 8);
      assert Deliver(op, dst) == a + b;
    }
  }

  lemma OperandsRun(src: reg, dst: reg, imm: i32, ext: External, str: u64, st: XState)
    requires dst != RCX
    ensures ExecBlock([SecondOperand(src, imm), MovReg(dst, RAX)], ext, str, st) ==
      Fall(XState(st.regs[RCX := SecondValue(imm, st.regs[src])][RAX := st.regs[dst]], st.flags, st.mem))
  {
    hide Exec, LoadImm;
    var x := SecondOperand(src, imm).x;
    LoadImmLoads(RCX, imm, ext, st);
    MovMoves(src, RCX, ext, st);
    var st1 := Exec(x, ext, 0, st).st;
    MovMoves(dst, RAX, ext, st1);
    ExecStep(x, [MovReg(dst, RAX)], ext, str, st);
    ExecOne(RR(true, MovRR, dst, RAX), ext, str, st1);
    assert [SecondOperand(src, imm), MovReg(dst, RAX)] == [Plain(x)] + [MovReg(dst, RAX)];
  }

  /** Everything after the guard. */
  lemma UnguardedRuns(w: Width, op: AluOp, src: reg, dst: reg, imm: i32, ext: External, str: u64, st: XState)
    requires dst != RCX && dst != RSP && src != RCX && src != RSP && HasScratch(st)
    requires op.Mul? || ((op.Div? || op.Mod?) && Narrow(w.W64?, SecondValue(imm, st.regs[src])) != 0)
    ensures var b := Narrow(w.W64?, SecondValue(imm, st.regs[src]));
      var code := SaveRegs(dst) + [SecondOperand(src, imm), MovReg(dst, RAX)] + Compute(w, op) + Deliver(op, dst);
      var e := ExecBlock(code, ext, str, st);
      && e.Fall? && SameButScratch(st.mem, e.st.mem, st.regs[RSP])
      && e.st.regs == st.regs[RCX := e.st.regs[RCX]][dst := MulDivResult(w, op, Narrow(w.W64?, st.regs[dst]), b)]
  {
    hide ExecBlock, SaveRegs, Compute, Deliver, SecondOperand, MulDivResult, Saved, SameButScratch;
    var sp, ax, dx := st.regs[RSP], st.regs[RAX], st.regs[RDX];
    var two := [SecondOperand(src, imm), MovReg(dst, RAX)];
    SaveRuns(dst, ext, str, st);
    var st1 := ExecBlock(SaveRegs(dst), ext, str, st).st;
    OperandsRun(src, dst, imm, ext, str, st1);
    var st2 := ExecBlock(two, ext, str, st1).st;
    ComputeRuns(w, op, ext, str, st2);
    var st3 := ExecBlock(Compute(w, op), ext, str, st2).st;
    DeliverRuns(op, dst, ext, str, st3, sp, ax, dx);
    ExecAppend(SaveRegs(dst), two, ext, str, st);
    ExecAppend(SaveRegs(dst) + two, Compute(w, op), ext, str, st);
    ExecAppend(SaveRegs(dst) + two + Compute(w, op), Deliver(op, dst), ext, str, st);
    var st4 := ExecBlock(Deliver(op, dst), ext, str, st3).st;
    assert st4.regs == st.regs[RCX := st4.regs[RCX]][dst := MulDivResult(w, op, Narrow(w.W64?, st.regs[dst]),
      Narrow(w.W64?, SecondValue(imm, st.regs[src])))];
  }

  /**
   * For any destination and source other than RCX and RSP, however they coincide with RAX, RDX or each other:
   * the destination gets the product, quotient or remainder, every other register but RCX is restored, memory
   * changes below the stack pointer only, and division does not fault. A zero source register goes to the handler.
   */
  lemma MulDivModRuns(i: nat, w: Width, op: AluOp, src: reg, dst: reg, imm: i32, ext: External, str: u64, st: XState)
    requires dst != RCX && dst != RSP && src != RCX && src != RSP && HasScratch(st)
    requires op.Mul? || op.Div? || op.Mod?
    ensures var a, b := Narrow(w.W64?, st.regs[dst]), Narrow(w.W64?, SecondValue(imm, st.regs[src]));
      var e := ExecBlock(MulDivMod(i, w, op, src, dst, imm), ext, str, st);
      if !op.Mul? && Narrow(w.W64?, st.regs[src]) == 0 then
        e.Goto? && e.target == ToDivByZero && e.st.regs == st.regs[RCX := i % TWO16] && e.st.mem == st.mem
      else if op.Mul? || b != 0 then
        && e.Fall? && SameButScratch(st.mem, e.st.mem, st.regs[RSP])
        && e.st.regs == st.regs[RCX := e.st.regs[RCX]][dst := MulDivResult(w, op, a, b)]
      else true
  {
    hide ExecBlock, SaveRegs, Compute, Deliver, SecondOperand, MulDivResult, SameButScratch, Narrow, DivGuard;
    var guard := DivGuard(i, w, op, src);
    var rest := SaveRegs(dst) + [SecondOperand(src, imm), MovReg(dst, RAX)] + Compute(w, op) + Deliver(op, dst);
    assert MulDivMod(i, w, op, src, dst, imm) == guard + rest;
    ExecAppend(guard, rest, ext, str, st);
    if op.Mul? {
      GuardOfMul(i, w, src, ext, str, st);
      UnguardedRuns(w, op, src, dst, imm, ext, str, st);
    } else {
      GuardRuns(i, w, op, src, ext, str, st);
      var st1 := ExecBlock(guard, ext, str, st).st;
      if Narrow(w.W64?, st.regs[src]) != 0 && Narrow(w.W64?, SecondValue(imm, st.regs[src])) != 0 {
        UnguardedRuns(w, op, src, dst, imm, ext, str, st1);
      }
    }
  }

  lemma GuardOfMul(i: nat, w: Width, src: reg, ext: External, str: u64, st: XState)
    ensures ExecBlock(DivGuard(i, w, Mul, src), ext, str, st) == Fall(st)
  {
  }
}
