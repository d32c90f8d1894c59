/** Execution of A64 instructions and of selected code with symbolic jumps. */
module A64Exec {
  import opened Words
  import opened Ebpf
  import opened Memory
  import opened A64
  import opened A64Moves
  import opened A64Select
  import S = Select
  import I = Interp

  datatype Nzcv = Nzcv(n: bool, z: bool, c: bool, v: bool)

  datatype AState = AState(regs: ARegs, sp: u64, flags: Option<Nzcv>, mem: Mem)

  /** External code reached by a call: what the callee at an address does to the state. */
  type External = (u64, AState) -> AState

  /** Number 31 is the stack pointer where an address or an immediate sum is computed. */
  function Base(st: AState, rn: areg): u64 { if rn == SP then st.sp else st.regs[rn] }

  function WithReg(st: AState, rd: areg, v: u64): AState { st.(regs := Write(st.regs, rd, v)) }

  function WithBase(st: AState, rd: areg, v: u64): AState { if rd == SP then st.(sp := v) else WithReg(st, rd, v) }

  /** The flags of a - b on operands cut to the width; carry means no borrow. */
  function SubFlags(sf: bool, a: u64, b: u64): Nzcv
  {
    var d := Narrow(sf, a - b);
    Nzcv(SignOf(sf, d) < 0, a == b, a >= b, SignOf(sf, a) - SignOf(sf, b) != SignOf(sf, d))
  }

  predicate Holds(cond: nibble, f: Nzcv)
  {
    if cond == EQ then f.z
    else if cond == NE then !f.z
    else if cond == HS then f.c
    else if cond == LO then !f.c
    else if cond == HI then f.c && !f.z
    else if cond == LS then !f.c || f.z
    else if cond == GE then f.n == f.v
    else if cond == LT then f.n != f.v
    else if cond == GT then !f.z && f.n == f.v
    else f.z || f.n != f.v
  }

  /** The condition codes of the architecture, by number: equality, unsigned orders, signed orders. */
  lemma ConditionCodes(f: Nzcv)
    ensures EQ == 0 && NE == 1 && HS == 2 && LO == 3 && HI == 8 && LS == 9
    ensures GE == 10 && LT == 11 && GT == 12 && LE == 13
    ensures (Holds(0, f) <==> f.z) && (Holds(1, f) <==> !f.z) && (Holds(2, f) <==> f.c) && (Holds(3, f) <==> !f.c)
    ensures (Holds(8, f) <==> f.c && !f.z) && (Holds(9, f) <==> !f.c || f.z)
    ensures (Holds(10, f) <==> f.n == f.v) && (Holds(11, f) <==> f.n != f.v)
    ensures (Holds(12, f) <==> !f.z && f.n == f.v) && (Holds(13, f) <==> f.z || f.n != f.v)
  {
  }

  function LogicBit(op: LogicOp): BitOp
  {
    match op
    case ORR => BitOr
    case EOR => BitXor
    case _ => BitAnd
  }

  function Shifted(sf: bool, op: ShiftOp, a: u64, count: nat): u64
  {
    var n := count % (if sf then 64 else 32);
    match op
    case LSLV => Narrow(sf, a * Pow2(n))
    case LSRV =>
      I.DivSmaller(a, Pow2(n));
      a / Pow2(n)
    case ASRV => Narrow(sf, SignOf(sf, a) / Pow2(n))
  }

  function Quotient(a: u64, b: u64): u64
  {
    if b == 0 then 0
    else
      I.DivSmaller(a, b);
      a / b
  }

  /** Byte `k` of the result is byte `n - 1 - k` of `v`. */
  function ReverseBytes(v: nat, n: nat): (r: nat)
    ensures r < Pow2(8 * n)
  {
    var bs := seq(n, k requires 0 <= k < n => v / Pow2(8 * (n - 1 - k)) % 0x100);
    FromLeBound(bs);
    FromLe(bs)
  }

  /** The bytes of each half-word exchanged, or all bytes of a word. */
  function Reverse(sz: Size, v: u64): u64
  {
    Pow2Values();
    if sz.S64? then ReverseBytes(v, 8)
    else if sz.S32? then ReverseBytes(v, 4)
    else ReverseBytes(v, 2) + TWO16 * ReverseBytes(v / TWO16, 2)
  }

  function Access(load: bool, sz: Size, rt: areg, a: u64, st: AState): Option<AState>
  {
    if !Mapped(st.mem, a, SizeBytes(sz)) then None
    else if load then
      LoadIsWord(st.mem, a, sz);
      Some(WithReg(st, rt, Load(st.mem, a, SizeBytes(sz))))
    else Some(st.(mem := Store(st.mem, a, SizeBytes(sz), Read(st.regs, rt))))
  }

  /** One instruction other than a branch. */
  function Exec(a: A, ext: External, st: AState): Option<AState>
  {
    match a
    case MoveWide(sf, op, hw, imm16, rd) =>
      if 0 <= hw < Pieces(sf) then Some(WithReg(st, rd, Moved(sf, op, hw, imm16, Read(st.regs, rd)))) else None
    case SumImm(sf, op, rd, rn, imm12) =>
      var x := Narrow(sf, Base(st, rn));
      (match op
       case ADD => Some(WithBase(st, rd, Narrow(sf, x + imm12)))
       case SUB => Some(WithBase(st, rd, Narrow(sf, x - imm12)))
       case SUBS => Some(WithReg(st, rd, Narrow(sf, x - imm12)).(flags := Some(SubFlags(sf, x, imm12))))
       case ADDS => None)
    case SumReg(sf, op, rd, rn, rm) =>
      var x, y := Narrow(sf, Read(st.regs, rn)), Narrow(sf, Read(st.regs, rm));
      (match op
       case ADD => Some(WithReg(st, rd, Narrow(sf, x + y)))
       case SUB => Some(WithReg(st, rd, Narrow(sf, x - y)))
       case SUBS => Some(WithReg(st, rd, Narrow(sf, x - y)).(flags := Some(SubFlags(sf, x, y))))
       case ADDS => None)
    case LogicReg(sf, op, rd, rn, rm) =>
      var v := Narrow(sf, Bitwise(LogicBit(op), Narrow(sf, Read(st.regs, rn)), Narrow(sf, Read(st.regs, rm))));
      if op.ANDS? then Some(WithReg(st, rd, v).(flags := Some(Nzcv(SignOf(sf, v) < 0, v == 0, false, false))))
      else Some(WithReg(st, rd, v))
    case MemImm(load, sz, rt, rn, imm9) => Access(load, sz, rt, Wrap64(Base(st, rn) + SignedField(imm9, 0x100)), st)
    case MemReg(load, sz, rt, rn, rm) => Access(load, sz, rt, Wrap64(Base(st, rn) + Read(st.regs, rm)), st)
    case Pair(load, rt, rt2, rn, imm7) =>
      var at := Base(st, rn) + 8 * SignedField(imm7, 0x40);
      (match Access(load, S64, rt, Wrap64(at), st)
       case None => None
       case Some(st') => Access(load, S64, rt2, Wrap64(at + 8), st'))
    case Udiv(sf, rd, rn, rm) =>
      Some(WithReg(st, rd, Quotient(Narrow(sf, Read(st.regs, rn)), Narrow(sf, Read(st.regs, rm)))))
    case ShiftReg(sf, op, rd, rn, rm) =>
      Some(WithReg(st, rd, Shifted(sf, op, Narrow(sf, Read(st.regs, rn)), Read(st.regs, rm))))
    case Madd(sf, rd, rn, rm, ra) =>
      Some(WithReg(st, rd, Narrow(sf, Read(st.regs, ra) + Read(st.regs, rn) * Read(st.regs, rm))))
    case Msub(sf, rd, rn, rm, ra) =>
      Some(WithReg(st, rd, Narrow(sf, Read(st.regs, ra) - Read(st.regs, rn) * Read(st.regs, rm))))
    case Rev(sz, rd, rn) => Some(WithReg(st, rd,
      Reverse(sz, if sz.S64? then Read(st.regs, rn) else Low32(Read(st.regs, rn)))))
    case Uxth(rd, rn) => Some(WithReg(st, rd, Read(st.regs, rn) % TWO16))
    case Blr(rn) => Some(ext(Read(st.regs, rn), st))
    case _ => None
  }

  /** How a block ends: past its last instruction, at a jump target, or not at all. */
  datatype BlockEnd = Fall(st: AState) | Goto(target: S.Target, st: AState) | Crash

  function ExecBlock(code: seq<Item>, ext: External, st: AState): BlockEnd
  {
    if code == [] then Fall(st)
    else match code[0]
      case To(t) => Goto(t, st)
      case Address(rd, value) => ExecBlock(code[1..], ext, WithReg(st, rd, value))
      case If(c, t) =>
        if st.flags.None? then Crash
        else if Holds(c, st.flags.value) then Goto(t, st)
        else ExecBlock(code[1..], ext, st)
      case Do(Cbnz(sf, imm19, rt)) =>
        if Narrow(sf, Read(st.regs, rt)) == 0 then ExecBlock(code[1..], ext, st)
        else if 1 <= SignedField(imm19, 0x4_0000) <= |code| then ExecBlock(code[SignedField(imm19, 0x4_0000)..], ext,
          st)
        else Crash
      case Do(a) =>
        match Exec(a, ext, st)
        case None => Crash
        case Some(st') => ExecBlock(code[1..], ext, st')
  }

  // ----- composing blocks -----

  lemma ExecStep(a: A, rest: seq<Item>, ext: External, st: AState)
    requires !a.Cbnz? && Exec(a, ext, st).Some?
    ensures ExecBlock([Do(a)] + rest, ext, st) == ExecBlock(rest, ext, Exec(a, ext, st).value)
  {
    hide Exec;
    assert ([Do(a)] + rest)[1..] == rest;
  }

  lemma ExecOne(a: A, ext: External, st: AState)
    requires !a.Cbnz? && Exec(a, ext, st).Some?
    ensures ExecBlock([Do(a)], ext, st) == Fall(Exec(a, ext, st).value)
  {
    hide Exec;
    ExecStep(a, [], ext, st);
    assert [Do(a)] + [] == [Do(a)];
  }

  /** Wide moves in front of other code. */
  lemma {:induction false} ExecMoves(moves: seq<A>, rest: seq<Item>, ext: External, st: AState)
    requires AllMoves(moves)
    ensures ExecBlock(Lift(moves) + rest, ext, st) == ExecBlock(rest, ext, st.(regs := RunMoves(moves, st.regs)))
    decreases |moves|
  {
    if moves == [] {
      assert Lift(moves) + rest == rest;
    } else {
      var a := moves[0];
      assert a.MoveWide? && WellFormed(a);
      assert Lift(moves) + rest == [Do(a)] + (Lift(moves[1..]) + rest);
      ExecStep(a, Lift(moves[1..]) + rest, ext, st);
      hide Moved;
      ExecMoves(moves[1..], rest, ext, Exec(a, ext, st).value);
    }
  }

  /** A constant is loaded in front of other code. */
  lemma ExecConstant(sf: bool, rd: areg, imm: u64, rest: seq<Item>, ext: External, st: AState)
    requires rd != RZ
    ensures ExecBlock(Lift(MoveCode(sf, rd, imm)) + rest, ext, st) ==
      ExecBlock(rest, ext, WithReg(st, rd, Narrow(sf, imm)))
  {
    hide MoveCode, ExecBlock, RunMoves;
    ConstantLoaded(sf, rd, imm, st.regs);
    ExecMoves(MoveCode(sf, rd, imm), rest, ext, st);
  }

  // ----- execution of a buffer of instruction words -----

  function WordAt(s: seq<byte>, at: nat): u32
    requires at + 4 <= |s|
  {
    FromLeBound(s[at..at + 4]);
    Pow2Values();
    FromLe(s[at..at + 4])
  }

  /** In front of the instruction at an offset, returned through the link register, or faulted. */
  datatype Config = At(pc: int, st: AState) | Halted(st: AState) | Crashed

  /** One instruction of the code loaded at `base`. */
  function Tick(code: seq<byte>, base: u64, ext: External, c: Config): Config
  {
    if !c.At? then c
    else if !(0 <= c.pc && c.pc + 4 <= |code|) then Crashed
    else
      var st := c.st;
      match Decode(WordAt(code, c.pc))
      case None => Crashed
      case Some(Branch(imm26)) => At(c.pc + 4 * SignedField(imm26, 0x200_0000), st)
      case Some(BranchCond(cond, imm19)) =>
        if st.flags.None? then Crashed
        else At(c.pc + if Holds(cond, st.flags.value) then 4 * SignedField(imm19, 0x4_0000) else 4, st)
      case Some(Cbnz(sf, imm19, rt)) =>
        At(c.pc + if Narrow(sf, Read(st.regs, rt)) == 0 then 4 else 4 * SignedField(imm19, 0x4_0000), st)
      case Some(Adr(imm21, rd)) => At(c.pc + 4, WithReg(st, rd, Wrap64(base + c.pc + SignedField(imm21, 0x10_0000))))
      case Some(RetTo(rn)) => if rn == 30 then Halted(st) else Crashed
      case Some(a) =>
        match Exec(a, ext, st)
        case None => Crashed
        case Some(st') => At(c.pc + 4, st')
  }

  function Ticks(code: seq<byte>, base: u64, ext: External, c: Config, n: nat): Config
    decreases n
  {
    if n == 0 then c else Ticks(code, base, ext, Tick(code, base, ext, c), n - 1)
  }

  lemma {:induction false} TicksAdd(code: seq<byte>, base: u64, ext: External, c: Config, m: nat, n: nat)
    ensures Ticks(code, base, ext, Ticks(code, base, ext, c, m), n) == Ticks(code, base, ext, c, m + n)
    decreases m
  {
    hide Tick;
    if m > 0 {
      TicksAdd(code, base, ext, Tick(code, base, ext, c), m - 1, n);
    }
  }
}
