/** Machine words as integers: every wrap-around, truncation and sign change is written out. */
module Words {

  const TWO16 := 0x1_0000
  const TWO31 := 0x8000_0000
  const TWO32 := 0x1_0000_0000
  const TWO63 := 0x8000_0000_0000_0000
  const TWO64 := 0x1_0000_0000_0000_0000

  type byte = x: int | 0 <= x < 0x100
  type u16 = x: int | 0 <= x < 0x1_0000
  type u32 = x: int | 0 <= x < 0x1_0000_0000
  type u64 = x: int | 0 <= x < 0x1_0000_0000_0000_0000
  type i8 = x: int | -0x80 <= x < 0x80
  type i16 = x: int | -0x8000 <= x < 0x8000
  type i32 = x: int | -0x8000_0000 <= x < 0x8000_0000
  type i64 = x: int | -0x8000_0000_0000_0000 <= x < 0x8000_0000_0000_0000

  /** Truncation to 32 bits; on a negative number this is the two's complement bit pattern. */
  function Low32(x: int): u32 { x % TWO32 }

  /** Truncation to 64 bits. On an i32 this is sign extension. */
  function Wrap64(x: int): u64 { x % TWO64 }

  function Signed8(x: byte): i8 { if x < 0x80 then x else x - 0x100 }

  function Signed32(x: u32): i32 { if x < TWO31 then x else x - TWO32 }

  function Signed64(x: u64): i64 { if x < TWO63 then x else x - TWO64 }

  /** A value cut to 64 or 32 bits. */
  function Narrow(wide: bool, v: int): u64 { if wide then Wrap64(v) else Low32(v) }

  /** The two's complement reading of a word of 64 or 32 bits. */
  function SignOf(wide: bool, v: u64): int
  {
    if wide then Signed64(v) else Signed32(Low32(v))
  }

  function Pow2(n: nat): (p: nat)
    ensures p >= 1
  {
    if n == 0 then 1 else 2 * Pow2(n - 1)
  }

  // ----- bitwise operators -----

  datatype BitOp = BitAnd | BitOr | BitXor

  function Bit(op: BitOp, x: nat, y: nat): (b: nat)
    ensures b <= 1
  {
    match op
    case BitAnd => if x % 2 == 1 && y % 2 == 1 then 1 else 0
    case BitOr => if x % 2 == 1 || y % 2 == 1 then 1 else 0
    case BitXor => if x % 2 != y % 2 then 1 else 0
  }

  /** The bitwise operator `op`, one binary digit at a time. */
  function Bitwise(op: BitOp, x: nat, y: nat): nat
    decreases x + y
  {
    if x == 0 && y == 0 then 0 else Bit(op, x, y) + 2 * Bitwise(op, x / 2, y / 2)
  }

  lemma {:induction false} BitwiseBound(op: BitOp, x: nat, y: nat, n: nat)
    requires x < Pow2(n) && y < Pow2(n)
    ensures Bitwise(op, x, y) < Pow2(n)
    decreases n
  {
    if n > 0 {
      BitwiseBound(op, x / 2, y / 2, n - 1);
    }
  }

  lemma ModDouble(x: nat, p: nat)
    requires p >= 1
    ensures x % (2 * p) == x % 2 + 2 * (x / 2 % p)
    ensures x % (2 * p) % 2 == x % 2
    ensures x % (2 * p) / 2 == x / 2 % p
  {
    var q, r := x / 2 / p, x / 2 % p;
    assert x / 2 == q * p + r;
    var m := x % 2 + 2 * r;
    assert x == q * (2 * p) + m by {
      assert x == x % 2 + 2 * (x / 2);
      assert q * (2 * p) == 2 * (q * p);
    }
    assert 0 <= m < 2 * p;
    DivModUnique(x, 2 * p, q, m);
  }

  lemma DivModUnique(x: int, d: int, q: int, r: int)
    requires d > 0 && 0 <= r < d && x == q * d + r
    ensures x % d == r && x / d == q
  {
    var k := x / d - q;
    assert k * d == r - x % d by {
      assert x == d * (x / d) + x % d;
      assert k * d == (x / d) * d - q * d;
    }
    if k >= 1 {
      MulLe(1, k, d);
    } else if k <= -1 {
      MulLe(k, -1, d);
    }
    assert k == 0;
  }

  lemma MulLe(a: int, b: int, d: int)
    requires a <= b && d >= 0
    ensures a * d <= b * d
  {
    assert (b - a) * d >= 0;
  }

  lemma DivDiv(x: int, a: int, b: int)
    requires a > 0 && b > 0
    ensures a * b > 0 && x / a / b == x / (a * b)
  {
    MulLe(1, a, b);
    var y := x / a;
    var q, r, s := y / b, y % b, x % a;
    assert x == q * (a * b) + (a * r + s) by {
      assert x == a * y + s && y == b * q + r;
      assert a * (b * q + r) == q * (a * b) + a * r;
    }
    assert 0 <= a * r + s < a * b by {
      MulLe(r, b - 1, a);
      MulLe(0, r, a);
      assert a * (b - 1) == a * b - a;
    }
    DivModUnique(x, a * b, q, a * r + s);
  }

  lemma HalfOfSum(b: nat, z: nat)
    requires b <= 1
    ensures (b + 2 * z) / 2 == z && (b + 2 * z) % 2 == b
  {
  }

  /** Truncating both operands first and truncating the result afterwards are the same. */
  lemma {:induction false} BitwiseMod(op: BitOp, x: nat, y: nat, n: nat)
    ensures Bitwise(op, x % Pow2(n), y % Pow2(n)) == Bitwise(op, x, y) % Pow2(n)
    decreases n
  {
    if n > 0 {
      var h, z := Pow2(n - 1), Bitwise(op, x, y);
      assert Pow2(n) == 2 * h;
      hide Bitwise, Pow2;
      ModDouble(x, h);
      ModDouble(y, h);
      BitwiseMod(op, x / 2, y / 2, n - 1);
      var xm, ym := x % (2 * h), y % (2 * h);
      BitwiseOne(op, x, y);
      BitwiseOne(op, xm, ym);
      assert Bit(op, xm, ym) == Bit(op, x, y);
      hide Bit;
      ModDouble(z, h);
      HalfOfSum(Bit(op, x, y), Bitwise(op, x / 2, y / 2));
    } else {
      assert Pow2(n) == 1;
    }
  }

  lemma Pow2Step(n: nat)
    ensures Pow2(n) == if n == 0 then 1 else 2 * Pow2(n - 1)
  {
  }

  lemma NothingBitwise(op: BitOp)
    ensures Bitwise(op, 0, 0) == 0
  {
  }

  /** The low n digits and the digits above them are combined separately. */
  lemma {:induction false} BitwiseSplit(op: BitOp, a: nat, b: nat, c: nat, d: nat, n: nat, p: nat)
    requires p == Pow2(n) && a < p && c < p
    ensures p * b >= 0 && p * d >= 0 && Bitwise(op, a + p * b, c + p * d) == Bitwise(op, a, c) + p * Bitwise(op, b, d)
    decreases n
  {
    hide Bitwise, Pow2;
    Pow2Step(n);
    if n == 0 {
      NothingBitwise(op);
      assert p * b == b && p * d == d;
    } else {
      var h := Pow2(n - 1);
      BitwiseSplit(op, a / 2, b, c / 2, d, n - 1, h);
      var z := Bitwise(op, b, d);
      var kb, kd, kz := h * b, h * d, h * z;
      DoubleProduct(h, b);
      DoubleProduct(h, d);
      DoubleProduct(h, z);
      SplitStep(op, a, kb, c, kd, Bitwise(op, a / 2, c / 2) + kz);
      BitwiseOne(op, a, c);
    }
  }

  lemma SplitStep(op: BitOp, a: nat, kb: nat, c: nat, kd: nat, z: nat)
    requires Bitwise(op, a / 2 + kb, c / 2 + kd) == z
    ensures Bitwise(op, a + 2 * kb, c + 2 * kd) == Bit(op, a, c) + 2 * z
  {
    hide Bitwise;
    DivModUnique(a + 2 * kb, 2, a / 2 + kb, a % 2);
    DivModUnique(c + 2 * kd, 2, c / 2 + kd, c % 2);
    BitwiseOne(op, a + 2 * kb, c + 2 * kd);
  }

  lemma DoubleProduct(h: int, b: int)
    ensures 2 * h * b == 2 * (h * b)
  {
  }

  lemma BitwiseOne(op: BitOp, x: nat, y: nat)
    ensures Bitwise(op, x, y) == Bit(op, x, y) + 2 * Bitwise(op, x / 2, y / 2)
  {
  }

  lemma {:induction false} OrZero(x: nat)
    ensures Bitwise(BitOr, x, 0) == x && Bitwise(BitOr, 0, x) == x
  {
    if x > 0 {
      OrZero(x / 2);
    }
  }

  /** Or-ing a value into a field that is all zeros adds it there. */
  lemma OrIntoField(hi: nat, lo: nat, v: nat, at: nat, width: nat)
    requires lo < Pow2(at) && v < Pow2(width)
    ensures var x := lo + Pow2(at) * (Pow2(width) * hi);
      Bitwise(BitOr, x, Pow2(at) * v) == x + Pow2(at) * v
  {
    hide Bitwise, Pow2;
    var p, q := Pow2(at), Pow2(width);
    BitwiseSplit(BitOr, lo, q * hi, 0, v, at, p);
    OrZero(lo);
    BitwiseSplit(BitOr, 0, hi, v, 0, width, q);
    OrZero(v);
    OrZero(hi);
    assert p * (v + q * hi) == p * v + p * (q * hi);
  }

  lemma {:induction false} BitwiseZero(op: BitOp, x: nat)
    ensures op.BitAnd? ==> Bitwise(op, x, 0) == 0
  {
    if x > 0 {
      BitwiseZero(op, x / 2);
    }
  }

  /** Masking with n one bits is truncation to n bits. */
  lemma {:induction false} MaskIsMod(x: nat, n: nat)
    ensures Bitwise(BitAnd, x, Pow2(n) - 1) == x % Pow2(n)
    decreases n
  {
    hide Bitwise, Pow2;
    Pow2Step(n);
    if n == 0 {
      BitwiseZero(BitAnd, x);
    } else {
      var h := Pow2(n - 1);
      ModDouble(x, h);
      MaskIsMod(x / 2, n - 1);
      var m := 2 * h - 1;
      assert m % 2 == 1 && m / 2 == h - 1;
      BitwiseOne(BitAnd, x, m);
    }
  }

  lemma Pow2Values()
    ensures Pow2(8) == 0x100 && Pow2(16) == TWO16 && Pow2(32) == TWO32 && Pow2(64) == TWO64
  {
    assert Pow2(2) == 4 && Pow2(1) == 2 by {
      assert Pow2(0) == 1;
    }
    hide Pow2;
    assert Pow2(4) == 0x10 by { Pow2Add(2, 2); }
    assert Pow2(8) == 0x100 by { Pow2Add(4, 4); }
    assert Pow2(16) == TWO16 by { Pow2Add(8, 8); }
    assert Pow2(32) == TWO32 by { Pow2Add(16, 16); }
    Pow2Add(32, 32);
  }

  lemma {:induction false} Pow2Add(m: nat, n: nat)
    ensures Pow2(m + n) == Pow2(m) * Pow2(n)
  {
    if m > 0 {
      Pow2Add(m - 1, n);
      assert Pow2(m + n) == 2 * Pow2(m - 1 + n);
      assert 2 * (Pow2(m - 1) * Pow2(n)) == Pow2(m) * Pow2(n);
    }
  }

  lemma Bitwise64(op: BitOp, x: u64, y: u64)
    ensures Bitwise(op, x, y) < TWO64
    ensures Bitwise(op, x, y) % TWO32 == Bitwise(op, x % TWO32, y % TWO32)
  {
    Pow2Values();
    BitwiseBound(op, x, y, 64);
    BitwiseMod(op, x, y, 32);
  }

  lemma Bitwise32(op: BitOp, x: u32, y: u32)
    ensures Bitwise(op, x, y) < TWO32
  {
    Pow2Values();
    BitwiseBound(op, x, y, 32);
  }

  // ----- truncation and multiplication -----

  /** Truncated factors give the same truncated product. */
  lemma MulLow32(x: int, y: int)
    ensures (x * y) % TWO32 == ((x % TWO32) * (y % TWO32)) % TWO32
  {
    MulLow32Left(x, y);
    MulLow32Left(y, x % TWO32);
    assert (x % TWO32) * y == y * (x % TWO32);
    assert (y % TWO32) * (x % TWO32) == (x % TWO32) * (y % TWO32);
  }

  lemma MulLow32Left(x: int, y: int)
    ensures (x * y) % TWO32 == ((x % TWO32) * y) % TWO32
  {
    var q, r := x / TWO32, x % TWO32;
    var k := q * y;
    assert x * y == k * TWO32 + r * y by {
      assert x == q * TWO32 + r;
      assert (q * TWO32 + r) * y == q * TWO32 * y + r * y;
      assert q * TWO32 * y == q * y * TWO32;
    }
    var z := r * y;
    assert (k * TWO32 + z) % TWO32 == z % TWO32;
  }
}
