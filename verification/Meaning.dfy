/**
 * What one step of the interpreter does, said in quotients, remainders, and single bytes and digits of the numbers
 * before and after it.
 */
module Meaning {
  import opened Words
  import opened Ebpf
  import opened Memory
  import opened Interp
  import opened Validator

  /** The instruction the program counter is at stands for `op`. */
  ghost predicate Executes(vm: Vm, s: State, op: Op)
  {
    s.pc < |vm.insts| && DecodeOp(vm.insts[s.pc].opcode) == Some(op)
  }

  /** The step goes on to the next slot and changes no other register than `dst`, and no memory. */
  ghost predicate Sets(o: Outcome, s: State, dst: nibble)
  {
    && o.Next? && o.s.pc == (s.pc + 1) % 0x1_0000 && o.s.mem == s.mem
    && forall k :: 0 <= k < 16 && k != dst ==> o.s.regs[k] == s.regs[k]
  }

  function Modulus(w: Width): int { if w.W32? then 0x1_0000_0000 else 0x1_0000_0000_0000_0000 }

  /** The second operand: an immediate is a signed number. */
  function Second(s: State, inst: Inst, o: Operand): int { if o.Imm? then inst.imm else s.regs[inst.src] }

  /** The word of the width `w` with the pattern `x`, as a two's complement number. */
  function AsSigned(w: Width, x: int): int
  {
    var m := Modulus(w);
    if x % m < m / 2 then x % m else x % m - m
  }

  // ----- arithmetic -----

  lemma Multiple(z: int, m: int, q: int)
    requires m > 0 && z == m * q
    ensures z % m == 0
  {
    DivModUnique(z, m, q, 0);
  }

  /** Cutting a number to 64 bits first makes no difference to the result at either width. */
  lemma CutBoth(w: Width, e: int, z: int, q: int)
    requires e == z + TWO64 * q
    ensures (e % Modulus(w) - z) % Modulus(w) == 0
  {
    var m := Modulus(w);
    var c := if w.W32? then TWO32 else 1;
    var j := e / m;
    assert e == m * j + e % m;
    assert TWO64 * q == m * (c * q);
    assert m * (c * q - j) == m * (c * q) - m * j;
    Multiple(e % m - z, m, c * q - j);
  }

  lemma TruncatedMeans(w: Width, e: int, z: int, q: int)
    requires e == z + TWO64 * q
    ensures var r := Truncated(w, e); r.Value? && r.v < Modulus(w) && (r.v - z) % Modulus(w) == 0
  {
    CutBoth(w, e, z, q);
  }

  lemma SumValue(w: Width, op: AluOp, o: Operand, x: u64, src: u64, imm: i32)
    requires op.Add? || op.Sub? || op.Mul? || op.Mov?
    ensures var r, y := AluSem(w, op, o, x, src, imm), if o.Imm? then imm else src;
      && r.Value? && r.v < Modulus(w)
      && (r.v - (if op.Add? then x + y else if op.Sub? then x - y else if op.Mul? then x * y else y)) % Modulus(w) == 0
  {
    hide Truncated, Bitwise, Modulus, DivSem, ShlSem, ShrSem, SarSem, ShiftAmount;
    var y: int := if o.Imm? then imm else src;
    var q := y / TWO64;
    var b: int := if o.Imm? then Wrap64(imm) else src;
    assert y == b + TWO64 * q;
    if op.Mul? {
      TimesCut(x, y, b, q);
      TruncatedMeans(w, x * b, x * y, -(x * q));
    } else if op.Add? {
      TruncatedMeans(w, x + b, x + y, -q);
    } else if op.Sub? {
      TruncatedMeans(w, x - b, x - y, q);
    } else {
      TruncatedMeans(w, b, y, -q);
    }
  }

  lemma TimesCut(x: int, y: int, b: int, q: int)
    requires y == b + TWO64 * q
    ensures x * b == x * y + TWO64 * -(x * q)
  {
    assert x * y == x * b + x * (TWO64 * q);
    assert x * (TWO64 * q) == TWO64 * (x * q);
  }

  lemma AluOutcome(vm: Vm, h: Helpers, ctx: Ctx, s: State, w: Width, op: AluOp, o: Operand)
    requires Executes(vm, s, Alu(w, op, o))
    ensures var inst := vm.insts[s.pc];
      var r := AluSem(w, op, o, s.regs[inst.dst], s.regs[inst.src], inst.imm);
      var t := Step(vm, h, ctx, s);
      if r.Value? then Sets(t, s, inst.dst) && t.s.regs[inst.dst] == r.v
      else t == if r.DivZero? then DivideByZero(s.pc, s.mem) else Undefined
  {
    hide DecodeOp, AluSem;
  }

  /** Sum, difference, product and move: the number modulo the width, whatever the sign of an immediate. */
  lemma SumMeans(vm: Vm, h: Helpers, ctx: Ctx, s: State, w: Width, op: AluOp, o: Operand)
    requires Executes(vm, s, Alu(w, op, o)) && (op.Add? || op.Sub? || op.Mul? || op.Mov?)
    ensures var inst := vm.insts[s.pc];
      var t, x, y := Step(vm, h, ctx, s), s.regs[inst.dst], Second(s, inst, o);
      && Sets(t, s, inst.dst) && t.s.regs[inst.dst] < Modulus(w)
      && (op.Add? ==> (t.s.regs[inst.dst] - (x + y)) % Modulus(w) == 0)
      && (op.Sub? ==> (t.s.regs[inst.dst] - (x - y)) % Modulus(w) == 0)
      && (op.Mul? ==> (t.s.regs[inst.dst] - x * y) % Modulus(w) == 0)
      && (op.Mov? ==> (t.s.regs[inst.dst] - y) % Modulus(w) == 0)
  {
    var inst := vm.insts[s.pc];
    AluOutcome(vm, h, ctx, s, w, op, o);
    SumValue(w, op, o, s.regs[inst.dst], s.regs[inst.src], inst.imm);
    hide Step, AluSem, DecodeOp;
  }

  // ----- digits -----

  /** Binary digit `k` of a number; of a negative one, of its two's complement. */
  function Digit(x: int, k: nat): (d: int)
    ensures d == 0 || d == 1
  {
    x / Pow2(k) % 2
  }

  lemma {:induction false} BitwiseDigit(op: BitOp, x: nat, y: nat, k: nat)
    ensures Digit(Bitwise(op, x, y), k) == Bit(op, Digit(x, k), Digit(y, k))
    decreases k
  {
    hide Bitwise, Digit, Pow2;
    BitwiseOne(op, x, y);
    HalfOfSum(Bit(op, x, y), Bitwise(op, x / 2, y / 2));
    if k > 0 {
      BitwiseDigit(op, x / 2, y / 2, k - 1);
      DigitStep(x, k);
      DigitStep(y, k);
      DigitStep(Bitwise(op, x, y), k);
    } else {
      DigitZero(x);
      DigitZero(y);
      DigitZero(Bitwise(op, x, y));
    }
  }

  lemma DigitStep(x: int, k: nat)
    requires k > 0
    ensures Digit(x, k) == Digit(x / 2, k - 1)
  {
    DivDiv(x, 2, Pow2(k - 1));
  }

  /** The digits below `n` are those of the number modulo 2 to the power `n`. */
  lemma {:induction false} DigitMod(x: int, n: nat, k: nat)
    requires k < n
    ensures Digit(x % Pow2(n), k) == Digit(x, k)
    decreases k
  {
    hide Digit, Pow2;
    var p := Pow2(n - 1);
    Pow2Step(n);
    HalfMod(x, p);
    if k > 0 {
      DigitMod(x / 2, n - 1, k - 1);
      DigitStep(x, k);
      DigitStep(x % Pow2(n), k);
    } else {
      DigitZero(x);
      DigitZero(x % Pow2(n));
    }
  }

  lemma DigitZero(x: int)
    ensures Digit(x, 0) == x % 2
  {
  }

  lemma HalfMod(x: int, p: int)
    requires p > 0
    ensures x % (2 * p) / 2 == x / 2 % p && x % (2 * p) % 2 == x % 2
  {
    var q, r := x / 2 / p, x / 2 % p;
    assert x == q * (2 * p) + (2 * r + x % 2) by {
      assert x == 2 * (x / 2) + x % 2;
      assert q * (2 * p) == 2 * (p * q);
    }
    DivModUnique(x, 2 * p, q, 2 * r + x % 2);
  }

  lemma LogicValue(w: Width, op: AluOp, o: Operand, x: u64, src: u64, imm: i32, k: nat)
    requires (op.Or? || op.And? || op.Xor?) && k < if w.W32? then 32 else 64
    ensures var r, y := AluSem(w, op, o, x, src, imm), if o.Imm? then imm else src;
      && r.Value? && r.v < Modulus(w)
      && Digit(r.v, k) == Bit(if op.Or? then BitOr else if op.And? then BitAnd else BitXor, Digit(x, k), Digit(y, k))
  {
    hide Pow2, Bitwise, Digit, Bit;
    var y: int := if o.Imm? then imm else src;
    var b := if o.Imm? then Wrap64(imm) else src;
    var bit := if op.Or? then BitOr else if op.And? then BitAnd else BitXor;
    Pow2Values();
    DigitMod(y, 64, k);
    DigitMod(Bitwise(bit, x, b), if w.W32? then 32 else 64, k);
    BitwiseDigit(bit, x, b, k);
    assert y % TWO64 == b;
  }

  /** OR, AND and XOR: digit by digit. */
  lemma LogicMeans(vm: Vm, h: Helpers, ctx: Ctx, s: State, w: Width, op: AluOp, o: Operand)
    requires Executes(vm, s, Alu(w, op, o)) && (op.Or? || op.And? || op.Xor?)
    ensures var inst := vm.insts[s.pc];
      var t, x, y := Step(vm, h, ctx, s), s.regs[inst.dst], Second(s, inst, o);
      && Sets(t, s, inst.dst) && t.s.regs[inst.dst] < Modulus(w)
      && forall k: nat :: k < (if w.W32? then 32 else 64) ==>
           (Digit(t.s.regs[inst.dst], k) == 1 <==>
            match op
            case Or => Digit(x, k) == 1 || Digit(y, k) == 1
            case And => Digit(x, k) == 1 && Digit(y, k) == 1
            case _ => Digit(x, k) != Digit(y, k))
  {
    var inst := vm.insts[s.pc];
    hide DecodeOp, Step, AluSem, Digit;
    AluOutcome(vm, h, ctx, s, w, op, o);
    LogicValue(w, op, o, s.regs[inst.dst], s.regs[inst.src], inst.imm, 0);
    forall k: nat | k < if w.W32? then 32 else 64
      ensures Digit(Step(vm, h, ctx, s).s.regs[inst.dst], k) ==
        Bit(if op.Or? then BitOr else if op.And? then BitAnd else BitXor, Digit(s.regs[inst.dst], k),
          Digit(Second(s, inst, o), k))
    {
      LogicValue(w, op, o, s.regs[inst.dst], s.regs[inst.src], inst.imm, k);
    }
  }

  // ----- division -----

  lemma Between(x: int, p: int)
    requires p > 0
    ensures x / p * p <= x < (x / p + 1) * p
  {
    assert x == p * (x / p) + x % p;
    assert (x / p + 1) * p == p * (x / p) + p;
  }

  lemma DivisionValue(w: Width, op: AluOp, o: Operand, x: u64, src: u64, imm: i32)
    requires op.Div? || op.Mod?
    ensures var r, y := AluSem(w, op, o, x, src, imm), if o.Imm? then imm else src;
      var n, d := x % Modulus(w), y % Modulus(w);
      if o.Reg? && src == 0 then r.DivZero?
      else if d == 0 then r.Ub?
      else r.Value? && r.v == if op.Div? then n / d else n % d
  {
    var m := Modulus(w);
    var y: int := if o.Imm? then imm else src;
    var b := if o.Imm? then Wrap64(imm) else src;
    assert b % m == y % m by {
      CutBoth(w, b, y, -(y / TWO64));
      CutBoth(w, b, b, 0);
      SameRemainder(b, y, m);
    }
    hide Bitwise, Pow2;
  }

  lemma Quotient(n: nat, d: nat)
    requires d > 0
    ensures n / d * d <= n < (n / d + 1) * d && 0 <= n % d < d && (n - n % d) % d == 0
  {
    Between(n, d);
    assert n == d * (n / d) + n % d;
    Multiple(n - n % d, d, n / d);
  }

  lemma SameRemainder(b: int, y: int, m: int)
    requires m > 0 && (b % m - y) % m == 0
    ensures b % m == y % m
  {
    var k := (b % m - y) / m;
    assert b % m == y + m * k;
    DivModUnique(y, m, -k, b % m);
  }

  /**
   * Division and remainder, unsigned at the width: a register that is 0 stops the program, an operand that is 0 at its
   * width only has no meaning.
   */
  lemma DivisionMeans(vm: Vm, h: Helpers, ctx: Ctx, s: State, w: Width, op: AluOp, o: Operand)
    requires Executes(vm, s, Alu(w, op, o)) && (op.Div? || op.Mod?)
    ensures var inst := vm.insts[s.pc];
      var t, x, y := Step(vm, h, ctx, s), s.regs[inst.dst] % Modulus(w), Second(s, inst, o) % Modulus(w);
      if o.Reg? && s.regs[inst.src] == 0 then t == DivideByZero(s.pc, s.mem)
      else if y == 0 then t.Undefined?
      else
        && Sets(t, s, inst.dst)
        && (op.Div? ==> t.s.regs[inst.dst] * y <= x < (t.s.regs[inst.dst] + 1) * y)
        && (op.Mod? ==> t.s.regs[inst.dst] < y && (x - t.s.regs[inst.dst]) % y == 0)
  {
    var inst := vm.insts[s.pc];
    AluOutcome(vm, h, ctx, s, w, op, o);
    var n, d := s.regs[inst.dst] % Modulus(w), Second(s, inst, o) % Modulus(w);
    DivisionValue(w, op, o, s.regs[inst.dst], s.regs[inst.src], inst.imm);
    if d != 0 {
      Quotient(n, d);
    }
    hide Step, AluSem, DecodeOp, Modulus;
  }

  // ----- shifts -----

  /** The number of places, an immediate or a register; only a 32-bit arithmetic shift cuts the register. */
  function Places(s: State, inst: Inst, w: Width, op: AluOp, o: Operand): int
  {
    if w.W32? && op.Arsh? then (if o.Imm? then inst.imm else s.regs[inst.src] % 0x1_0000_0000) else Second(s, inst, o)
  }

  lemma QuotientInside(x: int, p: int, lo: int, hi: int)
    requires p >= 1 && lo <= x < hi && lo <= 0 < hi
    ensures lo <= x / p < hi
  {
    Between(x, p);
    var q := x / p;
    MulLe(1, p, -lo);
    MulLe(1, p, hi);
    if q < lo {
      MulLe(q + 1, lo, p);
    } else if q >= hi {
      MulLe(hi, q, p);
    }
  }

  lemma ShiftValue(w: Width, op: AluOp, x: u64, n: int)
    requires op.Lsh? || op.Rsh? || op.Arsh?
    ensures var r := if op.Lsh? then ShlSem(w, x, n) else if op.Rsh? then ShrSem(w, x, n) else SarSem(w, x, n);
      if !(0 <= n < if w.W32? && !op.Lsh? then 32 else 64) then r.Ub?
      else
        && r.Value? && r.v < Modulus(w)
        && (op.Lsh? ==> (r.v - x * Pow2(n)) % Modulus(w) == 0)
        && (op.Rsh? ==> r.v * Pow2(n) <= x % Modulus(w) < (r.v + 1) * Pow2(n))
        && (op.Arsh? ==> AsSigned(w, r.v) * Pow2(n) <= AsSigned(w, x) < (AsSigned(w, r.v) + 1) * Pow2(n))
  {
    if 0 <= n < if w.W32? && !op.Lsh? then 32 else 64 {
      hide Pow2;
      var p, m := Pow2(n), Modulus(w);
      if op.Lsh? {
        CutBoth(w, x * p, x * p, 0);
      } else if op.Rsh? {
        Between(x % m, p);
        DivSmaller(x % m, p);
      } else {
        var sx := AsSigned(w, x);
        Between(sx, p);
        QuotientInside(sx, p, -(m / 2), m / 2);
        SignedBack(w, sx / p);
      }
    }
  }

  lemma SignedBack(w: Width, q: int)
    requires -(Modulus(w) / 2) <= q < Modulus(w) / 2
    ensures AsSigned(w, q % Modulus(w)) == q && 0 <= q % Modulus(w) < Modulus(w)
  {
    var m := Modulus(w);
    if q >= 0 {
      DivModUnique(q, m, 0, q);
    } else {
      DivModUnique(q, m, -1, q + m);
    }
    DivModUnique(q % m, m, 0, q % m);
  }

  /** Shifts: a product modulo the width, or a quotient rounded down; amounts C does not define have no meaning. */
  lemma ShiftMeans(vm: Vm, h: Helpers, ctx: Ctx, s: State, w: Width, op: AluOp, o: Operand)
    requires Executes(vm, s, Alu(w, op, o)) && (op.Lsh? || op.Rsh? || op.Arsh?)
    ensures var inst := vm.insts[s.pc];
      var t, x, n := Step(vm, h, ctx, s), s.regs[inst.dst], Places(s, inst, w, op, o);
      if !(0 <= n < if w.W32? && !op.Lsh? then 32 else 64) then t.Undefined?
      else
        && Sets(t, s, inst.dst) && t.s.regs[inst.dst] < Modulus(w)
        && (op.Lsh? ==> (t.s.regs[inst.dst] - x * Pow2(n)) % Modulus(w) == 0)
        && (op.Rsh? ==> t.s.regs[inst.dst] * Pow2(n) <= x % Modulus(w) < (t.s.regs[inst.dst] + 1) * Pow2(n))
        && (op.Arsh? ==>
            var v := AsSigned(w, t.s.regs[inst.dst]);
            v * Pow2(n) <= AsSigned(w, x) < (v + 1) * Pow2(n))
  {
    var inst := vm.insts[s.pc];
    AluOutcome(vm, h, ctx, s, w, op, o);
    ShiftValue(w, op, s.regs[inst.dst], Places(s, inst, w, op, o));
    hide Step, DecodeOp, ShlSem, ShrSem, SarSem, AsSigned, Pow2;
  }

  /** Negation modulo the width. */
  lemma NegMeans(vm: Vm, h: Helpers, ctx: Ctx, s: State, w: Width)
    requires Executes(vm, s, Neg(w))
    ensures var dst := vm.insts[s.pc].dst;
      var t := Step(vm, h, ctx, s);
      Sets(t, s, dst) && t.s.regs[dst] < Modulus(w) && (t.s.regs[dst] + s.regs[dst]) % Modulus(w) == 0
  {
    hide DecodeOp;
    var x: int := s.regs[vm.insts[s.pc].dst];
    CutBoth(w, 0 - x, 0 - x, 0);
  }

  // ----- byte order -----

  /** Byte `k` of a number, the lowest being byte 0; of a negative one, of its two's complement. */
  function ByteOf(x: int, k: nat): byte { x / Pow2(8 * k) % 0x100 }

  lemma ByteSwapBytes(x: u64, n: nat, k: nat)
    requires k < n
    ensures ByteOf(ByteSwap(x, n), k) == ByteOf(x, n - 1 - k)
    ensures ByteSwap(x, n) < Pow2(8 * n)
  {
    hide Reversed, LeBytes, FromLe, Pow2;
    var bs := Reversed(LeBytes(x, n));
    FromLeAt(bs, k);
    FromLeBound(bs);
    ReversedAt(LeBytes(x, n), k);
    LeBytesAt(x, n, n - 1 - k);
  }

  lemma EndIs(big: bool, x: u64, imm: i32)
    requires imm == 16 || imm == 32 || imm == 64
    ensures EndSem(big, x, imm) == if big then ByteSwap(x, imm / 8) else x % Pow2(imm)
  {
    hide ByteSwap, Pow2;
    Pow2Values();
  }

  lemma CutBytes(x: u64, n: nat, k: nat)
    requires k < n
    ensures ByteOf(x % Pow2(8 * n), k) == ByteOf(x, k)
  {
    hide Pow2, LeBytes;
    LeBytesMod(x, n);
    LeBytesAt(x, n, k);
    LeBytesAt(x % Pow2(8 * n), n, k);
  }

  lemma EndBytes(big: bool, x: u64, imm: i32, k: nat)
    requires (imm == 16 || imm == 32 || imm == 64) && k < imm / 8
    ensures EndSem(big, x, imm) < Pow2(imm)
    ensures ByteOf(EndSem(big, x, imm), k) == ByteOf(x, if big then imm / 8 - 1 - k else k)
  {
    hide ByteSwap, Pow2, EndSem, ByteOf;
    var n: nat := imm / 8;
    assert 8 * n == imm;
    EndIs(big, x, imm);
    ByteSwapBytes(x, n, k);
    CutBytes(x, n, k);
  }

  /** To big endian on a little-endian host the bytes change places; to little endian the number is cut. */
  lemma EndMeans(vm: Vm, h: Helpers, ctx: Ctx, s: State, big: bool)
    requires Executes(vm, s, End(big))
    ensures var inst := vm.insts[s.pc];
      var t, x, n := Step(vm, h, ctx, s), s.regs[inst.dst], inst.imm / 8;
      && Sets(t, s, inst.dst)
      && (inst.imm != 16 && inst.imm != 32 && inst.imm != 64 ==> t.s.regs[inst.dst] == x)
      && (inst.imm == 16 || inst.imm == 32 || inst.imm == 64 ==>
          && t.s.regs[inst.dst] < Pow2(inst.imm)
          && forall k: nat :: k < n ==> ByteOf(t.s.regs[inst.dst], k) == ByteOf(x, if big then n - 1 - k else k))
  {
    hide DecodeOp, Pow2, ByteOf;
    var inst := vm.insts[s.pc];
    var x := s.regs[inst.dst];
    assert inst.imm != 16 && inst.imm != 32 && inst.imm != 64 ==> EndSem(big, x, inst.imm) == x;
    hide EndSem;
    if inst.imm == 16 || inst.imm == 32 || inst.imm == 64 {
      EndBytes(big, x, inst.imm, 0);
      forall k: nat | k < inst.imm / 8
        ensures ByteOf(EndSem(big, x, inst.imm), k) == ByteOf(x, if big then inst.imm / 8 - 1 - k else k)
      {
        EndBytes(big, x, inst.imm, k);
      }
    }
  }

  // ----- memory -----

  predicate InRegion(start: int, length: int, a: int) { start <= a < start + length }

  /** Whether the interpreter allows an access: every byte lies in the context buffer, or every byte in the stack. */
  ghost predicate Allowed(vm: Vm, ctx: Ctx, a: int, n: nat)
  {
    || !vm.boundsCheck
    || (ctx.mem != 0 && forall k :: a <= k < a + n ==> InRegion(ctx.mem, ctx.len, k))
    || (forall k :: a <= k < a + n ==> InRegion(ctx.stack, 512, k))
  }

  /** The two comparisons of the bounds check say just that. */
  lemma InBoundsExactly(vm: Vm, ctx: Ctx, a: u64, n: nat)
    requires n > 0
    ensures InBounds(vm, ctx, a, n) <==> Allowed(vm, ctx, a, n)
  {
    var last := a + n - 1;
    assert InRegion(ctx.mem, ctx.len, a) && InRegion(ctx.mem, ctx.len, last) <==>
      a >= ctx.mem && a + n <= ctx.mem + ctx.len;
    assert InRegion(ctx.stack, 512, a) && InRegion(ctx.stack, 512, last) <==>
      a >= ctx.stack && a + n <= ctx.stack + 512;
  }

  /** Whether the access of a load or store at `a` goes to a byte that is not mapped. */
  ghost predicate Unmapped(m: Mem, a: int, n: nat) { exists k :: a <= k < a + n && k !in m }

  function Bytes(sz: Size): nat
  {
    match sz case S8 => 1 case S16 => 2 case S32 => 4 case S64 => 8
  }

  /** A load reads the bytes at the address, the lowest first, and fills up with zeros. */
  lemma LoadMeans(vm: Vm, h: Helpers, ctx: Ctx, s: State, sz: Size)
    requires Executes(vm, s, Ldx(sz))
    ensures var inst := vm.insts[s.pc];
      var t, a, n := Step(vm, h, ctx, s), (s.regs[inst.src] + inst.offset) % 0x1_0000_0000_0000_0000, Bytes(sz);
      if !Allowed(vm, ctx, a, n) then t == OutOfBounds(s.pc, s.mem)
      else if Unmapped(s.mem, a, n) then t.Undefined?
      else
        && Sets(t, s, inst.dst) && t.s.regs[inst.dst] < Pow2(8 * n)
        && forall k: nat :: k < n ==> ByteOf(t.s.regs[inst.dst], k) == s.mem[a + k]
  {
    hide DecodeOp, Pow2, FromLe, InBounds, Allowed;
    var inst := vm.insts[s.pc];
    var a, n := Wrap64(s.regs[inst.src] + inst.offset), Bytes(sz);
    InBoundsExactly(vm, ctx, a, n);
    if Mapped(s.mem, a, n) {
      LoadBound(s.mem, a, n);
      ReadBytesAt(s.mem, a, n);
      forall k: nat | k < n ensures ByteOf(Load(s.mem, a, n), k) == s.mem[a + k] {
        FromLeAt(ReadBytes(s.mem, a, n), k);
      }
    }
  }

  /** A store writes the low bytes of the immediate or the register, the lowest first, and no other byte. */
  lemma StoreMeans(vm: Vm, h: Helpers, ctx: Ctx, s: State, sz: Size, o: Operand)
    requires Executes(vm, s, if o.Imm? then St(sz) else Stx(sz))
    ensures var inst := vm.insts[s.pc];
      var t, a, n := Step(vm, h, ctx, s), (s.regs[inst.dst] + inst.offset) % 0x1_0000_0000_0000_0000, Bytes(sz);
      if !Allowed(vm, ctx, a, n) then t == OutOfBounds(s.pc, s.mem)
      else if Unmapped(s.mem, a, n) then t.Undefined?
      else
        && t.Next? && t.s.pc == (s.pc + 1) % 0x1_0000 && t.s.regs == s.regs && t.s.mem.Keys == s.mem.Keys
        && forall k :: k in s.mem ==>
             t.s.mem[k] == if a <= k < a + n then ByteOf(Second(s, inst, o), k - a) else s.mem[k]
  {
    hide DecodeOp, Pow2, FromLe, InBounds, Allowed, LeBytes;
    var inst := vm.insts[s.pc];
    var a, n, v := Wrap64(s.regs[inst.dst] + inst.offset), Bytes(sz), Second(s, inst, o);
    InBoundsExactly(vm, ctx, a, n);
    if Mapped(s.mem, a, n) {
      StoreAt(s.mem, a, n, v);
      forall k | a <= k < a + n ensures Store(s.mem, a, n, v)[k] == ByteOf(v, k - a) {
        LeBytesAt(v, n, k - a);
      }
    }
  }

  /** The two-slot load: the low half from the first slot, the high half from the second. */
  lemma LddwMeans(vm: Vm, h: Helpers, ctx: Ctx, s: State)
    requires Executes(vm, s, Lddw) && s.pc + 1 < |vm.insts|
    requires |vm.insts| <= 0x1_0000
    ensures var inst := vm.insts[s.pc];
      var t := Step(vm, h, ctx, s);
      && t.Next? && t.s.pc == (s.pc + 2) % 0x1_0000 && t.s.mem == s.mem
      && (forall k :: 0 <= k < 16 && k != inst.dst ==> t.s.regs[k] == s.regs[k])
      && t.s.regs[inst.dst] % 0x1_0000_0000 == inst.imm % 0x1_0000_0000
      && t.s.regs[inst.dst] / 0x1_0000_0000 == vm.insts[s.pc + 1].imm % 0x1_0000_0000
  {
    hide DecodeOp;
    var lo, hi := Low32(vm.insts[s.pc].imm), Low32(vm.insts[s.pc + 1].imm);
    DivModUnique(lo + TWO32 * hi, TWO32, hi, lo);
  }

  // ----- control -----

  /** What a condition asks of a register and an operand; `u` is the operand as the unsigned orders take it. */
  ghost predicate Condition(c: Cond, x: u64, y: int, u: int)
  {
    match c
    case Eq => (x - y) % 0x1_0000_0000_0000_0000 == 0
    case Ne => (x - y) % 0x1_0000_0000_0000_0000 != 0
    case Set => exists k: nat :: k < 64 && Digit(x, k) == 1 && Digit(y, k) == 1
    case Gt => x > u
    case Ge => x >= u
    case Lt => x < u
    case Le => x <= u
    case Sgt => AsSigned(W64, x) > AsSigned(W64, y)
    case Sge => AsSigned(W64, x) >= AsSigned(W64, y)
    case Slt => AsSigned(W64, x) < AsSigned(W64, y)
    case Sle => AsSigned(W64, x) <= AsSigned(W64, y)
  }

  /** A number is not 0 when one of its digits is not. */
  lemma {:induction false} SomeDigit(x: nat, n: nat)
    requires x < Pow2(n)
    ensures x != 0 <==> exists k: nat :: k < n && Digit(x, k) == 1
    decreases n
  {
    if n > 0 {
      SomeDigit(x / 2, n - 1);
      DigitZero(x);
      if k: nat :| k < n - 1 && Digit(x / 2, k) == 1 {
        DigitStep(x, k + 1);
        assert Digit(x, k + 1) == 1;
      }
      forall k: nat | 0 < k < n ensures Digit(x, k) == Digit(x / 2, k - 1) { DigitStep(x, k); }
    }
  }

  lemma CommonDigit(x: u64, o: Operand, src: u64, imm: i32)
    ensures var y := if o.Imm? then imm else src;
      Bitwise(BitAnd, x, if o.Imm? then Wrap64(imm) else src) != 0 <==>
        exists k: nat :: k < 64 && Digit(x, k) == 1 && Digit(y, k) == 1
  {
    hide Bitwise, Digit, Pow2;
    var y: int := if o.Imm? then imm else src;
    var b := if o.Imm? then Wrap64(imm) else src;
    Pow2Values();
    Bitwise64(BitAnd, x, b);
    SomeDigit(Bitwise(BitAnd, x, b), 64);
    assert b == y % Pow2(64);
    forall k: nat | k < 64
      ensures Digit(Bitwise(BitAnd, x, b), k) == 1 <==> Digit(x, k) == 1 && Digit(y, k) == 1
    {
      BitwiseDigit(BitAnd, x, b, k);
      DigitMod(y, 64, k);
    }
  }

  lemma TakenMeans(c: Cond, o: Operand, x: u64, src: u64, imm: i32)
    ensures var y := if o.Imm? then imm else src;
      Taken(c, o, x, src, imm) <==> Condition(c, x, y, if o.Imm? then y % 0x1_0000_0000 else y)
  {
    hide Bitwise, Digit, AsSigned;
    if c.Set? {
      CommonDigit(x, o, src, imm);
    } else if c.Eq? || c.Ne? {
      var y: int := if o.Imm? then imm else src;
      var b := y % TWO64;
      if x == b {
        Multiple(x - y, TWO64, -(y / TWO64));
      } else if (x - y) % TWO64 == 0 {
        DivModUnique(y, TWO64, -((x - y) / TWO64), x);
      }
    } else if c.Sgt? || c.Sge? || c.Slt? || c.Sle? {
      SignedValue(x);
      if o.Imm? {
        SignedBack(W64, imm);
        assert AsSigned(W64, imm) == imm by {
          DivModUnique(imm, TWO64, if imm < 0 then -1 else 0, if imm < 0 then imm + TWO64 else imm);
          SignedSame(imm);
        }
      } else {
        SignedValue(src);
      }
    }
  }

  lemma SignedValue(x: u64)
    ensures AsSigned(W64, x) == Signed64(x)
  {
  }

  lemma SignedSame(x: i32)
    ensures AsSigned(W64, x) == AsSigned(W64, x % TWO64)
  {
  }

  /** A conditional jump goes to its target or to the next slot, and changes nothing else. */
  lemma JumpMeans(vm: Vm, h: Helpers, ctx: Ctx, s: State, c: Cond, o: Operand)
    requires Executes(vm, s, Jmp(c, o))
    ensures var inst := vm.insts[s.pc];
      var y := Second(s, inst, o);
      var taken := Condition(c, s.regs[inst.dst], y, if o.Imm? then y % 0x1_0000_0000 else y);
      var t := Step(vm, h, ctx, s);
      && t.Next? && t.s.regs == s.regs && t.s.mem == s.mem
      && t.s.pc == (s.pc + 1 + if taken then inst.offset else 0) % 0x1_0000
  {
    hide DecodeOp, Condition, Taken;
    var inst := vm.insts[s.pc];
    TakenMeans(c, o, s.regs[inst.dst], s.regs[inst.src], inst.imm);
    PcSum(s.pc, inst.offset);
  }

  lemma PcSum(pc: u16, n: int)
    ensures Advance(Advance(pc, 1), n) == (pc + 1 + n) % 0x1_0000
  {
    DivModUnique(pc + 1, TWO16, (pc + 1) / TWO16, Advance(pc, 1));
    var q := (Advance(pc, 1) + n) / TWO16;
    DivModUnique(pc + 1 + n, TWO16, q + (pc + 1) / TWO16, Advance(Advance(pc, 1), n));
  }

  /** An unconditional one always goes to its target. */
  lemma JaMeans(vm: Vm, h: Helpers, ctx: Ctx, s: State)
    requires Executes(vm, s, Ja)
    ensures var t := Step(vm, h, ctx, s);
      && t.Next? && t.s.regs == s.regs && t.s.mem == s.mem
      && t.s.pc == (s.pc + 1 + vm.insts[s.pc].offset) % 0x1_0000
  {
    hide DecodeOp;
    PcSum(s.pc, vm.insts[s.pc].offset);
  }

  /** A byte no instruction is known by is passed over. */
  lemma UnknownMeans(vm: Vm, h: Helpers, ctx: Ctx, s: State)
    requires s.pc < |vm.insts| && DecodeOp(vm.insts[s.pc].opcode).None?
    ensures var t := Step(vm, h, ctx, s);
      t.Next? && t.s.pc == (s.pc + 1) % 0x1_0000 && t.s.regs == s.regs && t.s.mem == s.mem
  {
    hide DecodeOp;
  }

  /** The program ends with register 0. */
  lemma ExitMeans(vm: Vm, h: Helpers, ctx: Ctx, s: State)
    requires Executes(vm, s, Exit)
    ensures Step(vm, h, ctx, s) == Returned(s.regs[0], s.mem)
  {
    hide DecodeOp;
  }

  /**
   * The helper at the index gets registers 1 to 5 and the memory; its result is register 0, and ends the program when
   * it is 0 and the index is the unwinding one.
   */
  lemma CallMeans(vm: Vm, h: Helpers, ctx: Ctx, s: State)
    requires Executes(vm, s, Call)
    ensures var i := vm.insts[s.pc].imm;
      var t := Step(vm, h, ctx, s);
      if i < 0 || i >= |vm.extFuncs| || vm.extFuncs[i] == 0 then t.Undefined?
      else
        var args := [s.regs[1], s.regs[2], s.regs[3], s.regs[4], s.regs[5]];
        var result := h(vm.extFuncs[i], args, s.mem);
        if i == vm.unwindIndex && result.0 == 0 then t == Returned(0, result.1)
        else
          && t.Next? && t.s.pc == (s.pc + 1) % 0x1_0000 && t.s.mem == result.1 && t.s.regs[0] == result.0
          && forall k :: 0 < k < 16 ==> t.s.regs[k] == s.regs[k]
  {
    hide DecodeOp;
    assert s.regs[1..6] == [s.regs[1], s.regs[2], s.regs[3], s.regs[4], s.regs[5]];
  }

  /** A run begins in front of the first slot; registers 1, 2 and 10 are its arguments and the top of the stack. */
  lemma StartMeans(vm: Vm, h: Helpers, ctx: Ctx, garbage: Regs, mem: Mem)
    ensures var t := Run(vm, h, ctx, Initial(ctx, garbage, mem), 0);
      && t.Next? && t.s.pc == 0 && t.s.mem == mem && t.s.regs[1] == ctx.mem && t.s.regs[2] == ctx.len
      && t.s.regs[10] == (ctx.stack + 512) % 0x1_0000_0000_0000_0000
      && forall k :: 0 <= k < 16 && k != 1 && k != 2 && k != 10 ==> t.s.regs[k] == garbage[k]
  {
  }

  /** And one more step carries a run on from where it was, unless it was over. */
  lemma {:induction false} RunMeans(vm: Vm, h: Helpers, ctx: Ctx, s: State, n: nat)
    ensures var t := Run(vm, h, ctx, s, n);
      Run(vm, h, ctx, s, n + 1) == if t.Next? then Step(vm, h, ctx, t.s) else t
    decreases n
  {
    hide Step;
    if n > 0 && Step(vm, h, ctx, s).Next? {
      RunMeans(vm, h, ctx, Step(vm, h, ctx, s).s, n - 1);
    }
  }

  // ----- what has no meaning -----

  /** Arithmetic without a meaning: shifts by an amount C does not define, divisors that are 0 at their width only. */
  predicate Meaningless(s: State, inst: Inst, w: Width, a: AluOp, o: Operand)
  {
    if a.Lsh? || a.Rsh? || a.Arsh? then !(0 <= Places(s, inst, w, a, o) < if w.W32? && !a.Lsh? then 32 else 64)
    else
      && (a.Div? || a.Mod?) && !(o.Reg? && s.regs[inst.src] == 0)
      && Second(s, inst, o) % Modulus(w) == 0
  }

  lemma AluUndefined(vm: Vm, h: Helpers, ctx: Ctx, s: State, w: Width, a: AluOp, o: Operand)
    requires Executes(vm, s, Alu(w, a, o))
    ensures Step(vm, h, ctx, s).Undefined? <==> Meaningless(s, vm.insts[s.pc], w, a, o)
  {
    hide DecodeOp, Step, Places, Modulus, Second;
    if a.Lsh? || a.Rsh? || a.Arsh? {
      ShiftMeans(vm, h, ctx, s, w, a, o);
    } else if a.Div? || a.Mod? {
      DivisionMeans(vm, h, ctx, s, w, a, o);
    } else if a.Or? || a.And? || a.Xor? {
      LogicMeans(vm, h, ctx, s, w, a, o);
    } else {
      SumMeans(vm, h, ctx, s, w, a, o);
    }
  }

  /** The address of a load or store. */
  function Address(s: State, inst: Inst, op: Op): int
  {
    ((if op.Ldx? then s.regs[inst.src] else s.regs[inst.dst]) + inst.offset) % 0x1_0000_0000_0000_0000
  }

  /** An access that is allowed and goes to memory that is not there. */
  ghost predicate Touches(vm: Vm, ctx: Ctx, s: State, a: int, n: nat)
  {
    Allowed(vm, ctx, a, n) && Unmapped(s.mem, a, n)
  }

  lemma AccessUndefined(vm: Vm, h: Helpers, ctx: Ctx, s: State, op: Op)
    requires Executes(vm, s, op) && (op.Ldx? || op.St? || op.Stx?)
    ensures var a, n := Address(s, vm.insts[s.pc], op), Bytes(op.size);
      Step(vm, h, ctx, s).Undefined? <==> Allowed(vm, ctx, a, n) && Unmapped(s.mem, a, n)
  {
    hide DecodeOp, Step, Allowed, Unmapped;
    match op
    case Ldx(sz) => LoadMeans(vm, h, ctx, s, sz);
    case St(sz) => StoreMeans(vm, h, ctx, s, sz, Imm);
    case Stx(sz) => StoreMeans(vm, h, ctx, s, sz, Reg);
  }

  lemma OthersDefined(vm: Vm, h: Helpers, ctx: Ctx, s: State, op: Op)
    requires Executes(vm, s, op) && !op.Alu? && !op.Ldx? && !op.St? && !op.Stx?
    requires op.Lddw? ==> s.pc + 1 < |vm.insts| <= 0x1_0000
    requires op.Call? ==> 0 <= vm.insts[s.pc].imm < |vm.extFuncs| && vm.extFuncs[vm.insts[s.pc].imm] != 0
    ensures !Step(vm, h, ctx, s).Undefined?
  {
    hide DecodeOp, EndSem, NegSem, Taken, LddwValue;
  }

  /**
   * The instructions of an accepted program that have no meaning in a state: a shift by an amount C does not define; a
   * 32-bit division by a register whose low half only is 0; an allowed access to unmapped memory.
   */
  ghost predicate HasNone(vm: Vm, ctx: Ctx, s: State, inst: Inst, op: Op)
  {
    match op
    case Alu(w, a, o) =>
      if a.Lsh? || a.Rsh? || a.Arsh? then !(0 <= Places(s, inst, w, a, o) < if w.W32? && !a.Lsh? then 32 else 64)
      else
        && (a.Div? || a.Mod?) && o.Reg? && w.W32?
        && s.regs[inst.src] != 0 && s.regs[inst.src] % 0x1_0000_0000 == 0
    case Ldx(sz) => Touches(vm, ctx, s, Address(s, inst, op), Bytes(sz))
    case St(sz) => Touches(vm, ctx, s, Address(s, inst, op), Bytes(sz))
    case Stx(sz) => Touches(vm, ctx, s, Address(s, inst, op), Bytes(sz))
    case _ => false
  }

  lemma OpUndefined(vm: Vm, h: Helpers, ctx: Ctx, s: State, op: Op)
    requires Executes(vm, s, op)
    requires op.Lddw? ==> s.pc + 1 < |vm.insts| <= 0x1_0000
    requires op.Call? ==> 0 <= vm.insts[s.pc].imm < |vm.extFuncs| && vm.extFuncs[vm.insts[s.pc].imm] != 0
    requires op.Alu? && (op.alu.Div? || op.alu.Mod?) && op.operand.Imm? ==> vm.insts[s.pc].imm != 0
    ensures Step(vm, h, ctx, s).Undefined? <==> HasNone(vm, ctx, s, vm.insts[s.pc], op)
  {
    hide Step, Allowed, Unmapped, Places, Address, DecodeOp;
    if op.Alu? {
      AluUndefined(vm, h, ctx, s, op.width, op.alu, op.operand);
      ImmediateDivisor(op.width, vm.insts[s.pc].imm);
    } else if op.Ldx? || op.St? || op.Stx? {
      AccessUndefined(vm, h, ctx, s, op);
    } else {
      OthersDefined(vm, h, ctx, s, op);
    }
  }

  /** Behind the last slot there is no step; the others of an accepted program have a meaning but for those above. */
  lemma UndefinedExactly(vm: Vm, h: Helpers, ctx: Ctx, s: State)
    requires Runnable(vm) && Good(vm, ctx, s)
    ensures s.pc == |vm.insts| ==> Step(vm, h, ctx, s).Undefined?
    ensures s.pc < |vm.insts| ==>
      var op := DecodeOp(vm.insts[s.pc].opcode);
      op.Some? && (Step(vm, h, ctx, s).Undefined? <==> HasNone(vm, ctx, s, vm.insts[s.pc], op.value))
  {
    hide Step, HasNone, InstError, IsStart;
    if s.pc < |vm.insts| {
      StartFacts(vm, s.pc);
      InstPasses(vm.insts, vm.extFuncs, s.pc);
      assert |vm.insts| < MAX_INSTS;
      hide Runnable, Good, DecodeOp;
      OpUndefined(vm, h, ctx, s, DecodeOp(vm.insts[s.pc].opcode).value);
    } else {
      StepOutside(vm, h, ctx, s);
    }
  }

  lemma StepOutside(vm: Vm, h: Helpers, ctx: Ctx, s: State)
    requires s.pc >= |vm.insts|
    ensures Step(vm, h, ctx, s).Undefined?
  {
  }

  lemma ImmediateDivisor(w: Width, imm: i32)
    ensures imm % Modulus(w) == 0 <==> imm == 0
  {
  }

  /** A division or remainder by an immediate goes through in every accepted program. */
  lemma ConstantDivisionDefined(vm: Vm, h: Helpers, ctx: Ctx, s: State, w: Width, a: AluOp)
    requires Runnable(vm) && Good(vm, ctx, s) && Executes(vm, s, Alu(w, a, Imm)) && (a.Div? || a.Mod?)
    ensures Step(vm, h, ctx, s).Next? && Sets(Step(vm, h, ctx, s), s, vm.insts[s.pc].dst)
  {
    hide Step, DecodeOp, Modulus, Good, Runnable;
    UndefinedExactly(vm, h, ctx, s);
    DivisionMeans(vm, h, ctx, s, w, a, Imm);
  }
}
