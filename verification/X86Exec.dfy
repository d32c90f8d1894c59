/**
 * Execution of x86-64 instructions, and of a byte buffer of them: the effect of each instruction on registers, flags
 * and memory, and a machine that decodes one instruction at its program counter and executes it.
 */
module X86Exec {
  import opened Words
  import opened Ebpf
  import opened Memory
  import opened X86
  import Interp

  type Regs = Interp.Regs

  /** The status flags, known only after a comparison; other instructions leave them unspecified. */
  datatype Flags = Unknown | Flags(zf: bool, cf: bool, sf: bool, of: bool)

  datatype XState = XState(regs: Regs, flags: Flags, mem: Mem)

  /** External code reached by a call: what the callee at an address does to the state. */
  type External = (u64, XState) -> XState

  datatype Effect = Continue(st: XState) | Branch(st: XState, rel: int) | Finish(st: XState) | Fault

  /** The flags of a - b on operands of the given width. */
  function CmpFlags(wide: bool, a: u64, b: u64): Flags
  {
    var d := Narrow(wide, a - b);
    var exact := SignOf(wide, a) - SignOf(wide, b);
    Flags(a == b, a < b, SignOf(wide, d) < 0, exact != SignOf(wide, d))
  }

  function TestFlags(wide: bool, v: u64): Flags
  {
    Flags(v == 0, false, SignOf(wide, v) < 0, false)
  }

  /** After a test of a value against itself the signed conditions compare it with 0, the others say if it is 0. */
  lemma TestOrders(wide: bool, v: u64)
    requires !wide ==> v < TWO32
    ensures var f := TestFlags(wide, v);
      && (Holds(CcE, f) <==> v == 0) && (Holds(CcNe, f) <==> v != 0)
      && (Holds(CcL, f) <==> SignOf(wide, v) < 0) && (Holds(CcGe, f) <==> SignOf(wide, v) >= 0)
      && (Holds(CcG, f) <==> SignOf(wide, v) > 0) && (Holds(CcLe, f) <==> SignOf(wide, v) <= 0)
      && !Holds(CcB, f) && (Holds(CcBe, f) <==> v == 0)
  {
  }

  predicate Holds(c: CC, f: Flags)
    requires f.Flags?
  {
    match c
    case CcE => f.zf
    case CcNe => !f.zf
    case CcA => !f.cf && !f.zf
    case CcAe => !f.cf
    case CcB => f.cf
    case CcBe => f.cf || f.zf
    case CcG => !f.zf && f.sf == f.of
    case CcGe => f.sf == f.of
    case CcL => f.sf != f.of
    case CcLe => f.zf || f.sf != f.of
  }

  function SetReg(st: XState, r: reg, v: u64): XState { XState(st.regs[r := v], Unknown, st.mem) }

  /** A two-operand instruction on operands already cut to the width. */
  function Binary(wide: bool, op: RROp, st: XState, dst: reg, a: u64, b: u64): XState
  {
    match op
    case AddRR => SetReg(st, dst, Narrow(wide, a + b))
    case SubRR => SetReg(st, dst, Narrow(wide, a - b))
    case OrRR => SetReg(st, dst, Narrow(wide, Bitwise(BitOr, a, b)))
    case AndRR => SetReg(st, dst, Narrow(wide, Bitwise(BitAnd, a, b)))
    case XorRR => SetReg(st, dst, Narrow(wide, Bitwise(BitXor, a, b)))
    case CmpRR => st.(flags := CmpFlags(wide, a, b))
    case TestRR => st.(flags := TestFlags(wide, Narrow(wide, Bitwise(BitAnd, a, b))))
    case MovRR => XState(st.regs[dst := b], st.flags, st.mem)
  }

  function AsRR(op: RIOp): RROp
  {
    match op
    case AddRI => AddRR case OrRI => OrRR case AndRI => AndRR case SubRI => SubRR
    case XorRI => XorRR case CmpRI => CmpRR case MovRI => MovRR case TestRI => TestRR
  }

  /** The processor masks a shift count to 5 bits, or to 6 for 64-bit operands. */
  function Shift(wide: bool, op: ShOp, a: u64, count: nat): u64
  {
    var n := count % (if wide then 64 else 32);
    match op
    case Shl => Narrow(wide, a * Pow2(n))
    case Shr =>
      Interp.DivSmaller(a, Pow2(n));
      a / Pow2(n)
    case Sar => Narrow(wide, SignOf(wide, a) / Pow2(n))
  }

  /** MUL: the double-width product in RDX:RAX or EDX:EAX. */
  function Multiply(wide: bool, st: XState, a: u64): XState
  {
    var p := Narrow(wide, st.regs[RAX]) * a;
    var hi := if wide then p / TWO64 else p / TWO32;
    XState(st.regs[RAX := Narrow(wide, p)][RDX := Narrow(wide, hi)], Unknown, st.mem)
  }

  /** The two registers together hold the whole product. */
  lemma MultiplyMeans(wide: bool, st: XState, a: u64)
    requires !wide ==> a < TWO32
    ensures var t, m := Multiply(wide, st, a), if wide then TWO64 else TWO32;
      && m * t.regs[RDX] + t.regs[RAX] == Narrow(wide, st.regs[RAX]) * a
      && t.regs[RDX] < m && t.regs[RAX] < m && t.mem == st.mem
      && forall r: reg :: r != RAX && r != RDX ==> t.regs[r] == st.regs[r]
  {
    var m := if wide then TWO64 else TWO32;
    var x := Narrow(wide, st.regs[RAX]);
    var p := x * a;
    var hi, lo := p / m, p % m;
    assert p == m * hi + lo;
    assert hi < m by {
      MulLe(x, m - 1, a);
      MulLe(a, m - 1, m - 1);
      if hi >= m {
        MulLe(m, hi, m);
      }
    }
    DivModUnique(hi, m, 0, hi);
  }

  /** DIV: faults on a zero divisor and on a quotient that does not fit. */
  function Divide(wide: bool, st: XState, a: u64): Effect
  {
    var limit := if wide then TWO64 else TWO32;
    var dividend := Narrow(wide, st.regs[RDX]) * limit + Narrow(wide, st.regs[RAX]);
    if a == 0 || dividend / a >= limit then Fault
    else Continue(XState(st.regs[RAX := Narrow(wide, dividend / a)][RDX := Narrow(wide, dividend % a)], Unknown,
      st.mem))
  }

  function RotateWord(v: u64, count: nat): u64
  {
    var n := count % 32 % 16;
    var lo := v % TWO16;
    TWO16 * (v / TWO16) + (lo * Pow2(n) + lo / Pow2(16 - n)) % TWO16
  }

  /** The low `n` bytes in opposite order: the lowest becomes the highest. */
  function SwapBytes(v: nat, n: nat): nat
  {
    if n == 0 then 0 else v % 0x100 * Pow2(8 * (n - 1)) + SwapBytes(v / 0x100, n - 1)
  }

  lemma {:induction false} SwapBound(v: nat, n: nat)
    ensures SwapBytes(v, n) < Pow2(8 * n)
    decreases n
  {
    hide Pow2;
    if n == 0 {
      Pow2Step(0);
    } else {
      var p := Pow2(8 * (n - 1));
      SwapBound(v / 0x100, n - 1);
      Pow2Values();
      Pow2Add(8, 8 * (n - 1));
      MulLe(v % 0x100, 0xff, p);
    }
  }

  function Swapped(wide: bool, v: u64): u64
  {
    Pow2Values();
    SwapBound(v, if wide then 8 else 4);
    SwapBytes(v, if wide then 8 else 4)
  }

  function ExecLoad(st: XState, sz: Size, base: reg, dst: reg, d: i32): Effect
  {
    var a := Wrap64(st.regs[base] + d);
    if !Mapped(st.mem, a, SizeBytes(sz)) then Fault
    else
      LoadIsWord(st.mem, a, sz);
      Continue(XState(st.regs[dst := Load(st.mem, a, SizeBytes(sz))], st.flags, st.mem))
  }

  function ExecStore(st: XState, sz: Size, base: reg, d: i32, v: int): Effect
  {
    var a := Wrap64(st.regs[base] + d);
    if !Mapped(st.mem, a, SizeBytes(sz)) then Fault
    else Continue(st.(mem := Store(st.mem, a, SizeBytes(sz), v)))
  }

  function ExecPush(st: XState, r: reg): Effect
  {
    var top: int := st.regs[RSP];
    var sp := Wrap64(top - 8);
    if !Mapped(st.mem, sp, 8) then Fault
    else Continue(XState(st.regs[RSP := sp], st.flags, Store(st.mem, sp, 8, st.regs[r])))
  }

  function ExecPop(st: XState, r: reg): Effect
  {
    var sp: int := st.regs[RSP];
    if !Mapped(st.mem, sp, 8) then Fault
    else
      Continue(XState(st.regs[RSP := Wrap64(sp + 8)][r := Load64(st.mem, sp)], st.flags, st.mem))
  }

  /** One instruction; `next` is the address of the instruction after it. */
  function Exec(x: X, ext: External, next: int, st: XState): Effect
  {
    match x
    case RR(w, op, src, dst) => Continue(Binary(w, op, st, dst, Narrow(w, st.regs[dst]), Narrow(w, st.regs[src])))
    case RI(w, op, dst, imm) => Continue(Binary(w, AsRR(op), st, dst, Narrow(w, st.regs[dst]), Narrow(w, imm)))
    case ShI(w, op, dst, n) => Continue(SetReg(st, dst, Shift(w, op, Narrow(w, st.regs[dst]), n)))
    case ShCl(w, op, dst) => Continue(SetReg(st, dst, Shift(w, op, Narrow(w, st.regs[dst]), st.regs[RCX] % 0x100)))
    case Un(w, NegR, dst) => Continue(SetReg(st, dst, Narrow(w, 0 - Narrow(w, st.regs[dst]))))
    case Un(w, MulR, dst) => Continue(Multiply(w, st, Narrow(w, st.regs[dst])))
    case Un(w, DivR, dst) => Divide(w, st, Narrow(w, st.regs[dst]))
    case Rol16(dst, n) => Continue(SetReg(st, dst, RotateWord(st.regs[dst], n)))
    case Bswap(w, dst) => Continue(XState(st.regs[dst := Swapped(w, Narrow(w, st.regs[dst]))], st.flags, st.mem))
    case Push(r) => ExecPush(st, r)
    case Pop(r) => ExecPop(st, r)
    case MovAbs(dst, v) => Continue(XState(st.regs[dst := v], st.flags, st.mem))
    case Ld(sz, base, dst, d) => ExecLoad(st, sz, base, dst, d)
    case Str(sz, src, base, d) => ExecStore(st, sz, base, d, st.regs[src])
    case StrI(sz, base, d, bits) => ExecStore(st, sz, base, d, Signed32(bits))
    case Jcc(c, rel) =>
      if st.flags.Unknown? then Fault else if Holds(c, st.flags) then Branch(st, rel) else Continue(st)
    case JmpRel(rel) => Branch(st, rel)
    case CallRax => Continue(ext(st.regs[RAX], st))
    case Ret => Finish(st)
    case Lea(dst, rel) => Continue(XState(st.regs[dst := Wrap64(next + rel)], st.flags, st.mem))
  }

  // ----- running a code buffer -----

  datatype Config = At(pc: int, st: XState) | Halted(st: XState) | Crashed

  /** Fetch, decode and execute one instruction of the buffer, which is loaded at `base`. */
  function Tick(code: seq<byte>, base: u64, ext: External, c: Config): Config
  {
    if !c.At? then c
    else if !(0 <= c.pc < |code|) then Crashed
    else match Dec(code[c.pc..])
      case None => Crashed
      case Some((x, rest)) =>
        var next := |code| - |rest|;
        match Exec(x, ext, base + next, c.st)
        case Continue(st) => At(next, st)
        case Branch(st, rel) => At(next + rel, st)
        case Finish(st) => Halted(st)
        case Fault => Crashed
  }

  function Ticks(code: seq<byte>, base: u64, ext: External, c: Config, n: nat): Config
    decreases n
  {
    if n == 0 then c else Ticks(code, base, ext, Tick(code, base, ext, c), n - 1)
  }

  lemma {:induction false} TicksAdd(code: seq<byte>, base: u64, ext: External, c: Config, m: nat, n: nat)
    ensures Ticks(code, base, ext, Ticks(code, base, ext, c, m), n) == Ticks(code, base, ext, c, m + n)
    decreases m
  {
    hide Tick;
    if m > 0 {
      TicksAdd(code, base, ext, Tick(code, base, ext, c), m - 1, n);
    }
  }

  /** A difference cut to its width is off by at most one wrap. */
  lemma Difference(a: int, b: int, m: int)
    requires 0 <= a < m && 0 <= b < m
    ensures (a - b) % m == if a < b then a - b + m else a - b
  {
    DivModUnique(a - b, m, if a < b then -1 else 0, if a < b then a - b + m else a - b);
  }

  /** Sign and overflow differ exactly when the first operand is the smaller as a signed number. */
  lemma SignedLess(wide: bool, a: u64, b: u64)
    requires !wide ==> a < TWO32 && b < TWO32
    ensures var f := CmpFlags(wide, a, b); f.sf != f.of <==> SignOf(wide, a) < SignOf(wide, b)
    ensures SignOf(wide, a) == SignOf(wide, b) <==> a == b
  {
    if wide {
      Difference(a, b, TWO64);
    } else {
      Difference(a, b, TWO32);
      DivModUnique(a, TWO32, 0, a);
      DivModUnique(b, TWO32, 0, b);
      var d := Narrow(wide, a - b);
      DivModUnique(d, TWO32, 0, d);
    }
  }

  /** The flags after a comparison order the operands, signed and unsigned, at either width. */
  lemma CmpOrders(wide: bool, a: u64, b: u64)
    requires !wide ==> a < TWO32 && b < TWO32
    ensures var f := CmpFlags(wide, a, b);
      && (Holds(CcE, f) <==> a == b) && (Holds(CcNe, f) <==> a != b)
      && (Holds(CcA, f) <==> a > b) && (Holds(CcAe, f) <==> a >= b)
      && (Holds(CcB, f) <==> a < b) && (Holds(CcBe, f) <==> a <= b)
      && (Holds(CcG, f) <==> SignOf(wide, a) > SignOf(wide, b))
      && (Holds(CcGe, f) <==> SignOf(wide, a) >= SignOf(wide, b))
      && (Holds(CcL, f) <==> SignOf(wide, a) < SignOf(wide, b))
      && (Holds(CcLe, f) <==> SignOf(wide, a) <= SignOf(wide, b))
  {
    SignedLess(wide, a, b);
    hide SignOf;
  }
}
