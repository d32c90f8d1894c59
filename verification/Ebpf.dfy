/** The eBPF instruction set: instruction layout (section 3 of RFC 9669) and opcode table. */
module Ebpf {
  import opened Words

  datatype Option<+T> = None | Some(value: T)

  const MAX_INSTS := 65536
  const STACK_SIZE := 512
  const MAX_EXT_FUNCS := 64

  /** One 8-byte instruction; `dst` and `src` are 4-bit fields. */
  datatype Inst = Inst(opcode: byte, dst: nibble, src: nibble, offset: i16, imm: i32)

  type nibble = x: int | 0 <= x < 16

  datatype Width = W32 | W64
  datatype Operand = Imm | Reg
  datatype AluOp = Add | Sub | Mul | Div | Or | And | Lsh | Rsh | Mod | Xor | Mov | Arsh
  datatype Cond = Eq | Gt | Ge | Set | Ne | Sgt | Sge | Lt | Le | Slt | Sle
  datatype Size = S8 | S16 | S32 | S64

  /** What an opcode byte stands for. */
  datatype Op =
    | Alu(width: Width, alu: AluOp, operand: Operand)
    | Neg(width: Width)
    | End(big: bool)
    | Jmp(cond: Cond, operand: Operand)
    | Ja
    | Call
    | Exit
    | Ldx(size: Size)
    | St(size: Size)
    | Stx(size: Size)
    | Lddw

  function SizeBytes(sz: Size): (n: nat)
  {
    match sz
    case S8 => 1
    case S16 => 2
    case S32 => 4
    case S64 => 8
  }

  const CLS_LD := 0
  const CLS_LDX := 1
  const CLS_ST := 2
  const CLS_STX := 3
  const CLS_ALU := 4
  const CLS_JMP := 5
  const CLS_ALU64 := 7
  const MODE_MEM := 0x60

  function AluCode(op: AluOp): nat
  {
    match op
    case Add => 0 case Sub => 1 case Mul => 2 case Div => 3 case Or => 4 case And => 5
    case Lsh => 6 case Rsh => 7 case Mod => 9 case Xor => 10 case Mov => 11 case Arsh => 12
  }

  function CondCode(c: Cond): nat
  {
    match c
    case Eq => 1 case Gt => 2 case Ge => 3 case Set => 4 case Ne => 5 case Sgt => 6
    case Sge => 7 case Lt => 10 case Le => 11 case Slt => 12 case Sle => 13
  }

  function SizeCode(sz: Size): nat
  {
    match sz
    case S32 => 0
    case S16 => 1
    case S8 => 2
    case S64 => 3
  }

  function SrcBit(o: Operand): nat { if o.Imm? then 0 else 8 }

  /** The opcode byte of an operation: class, source bit and operation code added up. */
  function Opcode(op: Op): byte
  {
    match op
    case Alu(w, a, o) => (if w.W32? then CLS_ALU else CLS_ALU64) + SrcBit(o) + 16 * AluCode(a)
    case Neg(w) => (if w.W32? then CLS_ALU else CLS_ALU64) + 0x80
    case End(big) => CLS_ALU + (if big then 8 else 0) + 0xd0
    case Jmp(c, o) => CLS_JMP + SrcBit(o) + 16 * CondCode(c)
    case Ja => CLS_JMP
    case Call => CLS_JMP + 0x80
    case Exit => CLS_JMP + 0x90
    case Ldx(sz) => CLS_LDX + MODE_MEM + 8 * SizeCode(sz)
    case St(sz) => CLS_ST + MODE_MEM + 8 * SizeCode(sz)
    case Stx(sz) => CLS_STX + MODE_MEM + 8 * SizeCode(sz)
    case Lddw => 0x18
  }

  function DecodeAluCode(hi: nat): Option<AluOp>
  {
    match hi
    case 0 => Some(Add) case 1 => Some(Sub) case 2 => Some(Mul) case 3 => Some(Div)
    case 4 => Some(Or) case 5 => Some(And) case 6 => Some(Lsh) case 7 => Some(Rsh)
    case 9 => Some(Mod) case 10 => Some(Xor) case 11 => Some(Mov) case 12 => Some(Arsh)
    case _ => None
  }

  function DecodeCondCode(hi: nat): Option<Cond>
  {
    match hi
    case 1 => Some(Eq) case 2 => Some(Gt) case 3 => Some(Ge) case 4 => Some(Set)
    case 5 => Some(Ne) case 6 => Some(Sgt) case 7 => Some(Sge) case 10 => Some(Lt)
    case 11 => Some(Le) case 12 => Some(Slt) case 13 => Some(Sle)
    case _ => None
  }

  function DecodeSize(code: nat): Size
  {
    match code
    case 0 => S32
    case 1 => S16
    case 2 => S8
    case _ => S64
  }

  /** The operation an opcode byte selects, None for a byte no `case` label names. */
  function DecodeOp(opcode: byte): Option<Op>
  {
    var cls, bit, hi := opcode % 8, opcode / 8 % 2, opcode / 16;
    var o := if bit == 0 then Imm else Reg;
    if opcode == 0x18 then Some(Lddw)
    else if cls == CLS_ALU || cls == CLS_ALU64 then
      var w := if cls == CLS_ALU then W32 else W64;
      if hi == 8 then (if bit == 0 then Some(Neg(w)) else None)
      else if hi == 13 then (if cls == CLS_ALU then Some(End(bit == 1)) else None)
      else match DecodeAluCode(hi)
        case None => None
        case Some(a) => Some(Alu(w, a, o))
    else if cls == CLS_JMP then
      if hi == 0 || hi == 8 || hi == 9 then
        if bit == 1 then None
        else if hi == 0 then Some(Ja)
        else if hi == 8 then Some(Call)
        else Some(Exit)
      else match DecodeCondCode(hi)
        case None => None
        case Some(c) => Some(Jmp(c, o))
    else if opcode / 32 == 3 && 1 <= cls <= 3 then
      var sz := DecodeSize(opcode / 8 % 4);
      if cls == CLS_LDX then Some(Ldx(sz))
      else if cls == CLS_ST then Some(St(sz))
      else Some(Stx(sz))
    else None
  }

  lemma OpcodeFields(cls: nat, bit: nat, hi: nat)
    requires cls < 8 && bit < 2
    ensures var b := cls + 8 * bit + 16 * hi;
      b % 8 == cls && b / 8 % 2 == bit && b / 16 == hi && b / 8 % 4 == bit + 2 * (hi % 2) && b / 32 == hi / 2
  {
    var b, h := cls + 8 * bit + 16 * hi, hi / 2;
    DivModUnique(b, 8, bit + 2 * hi, cls);
    DivModUnique(b, 16, hi, cls + 8 * bit);
    DivModUnique(bit + 2 * hi, 2, hi, bit);
    DivModUnique(bit + 2 * hi, 4, h, bit + 2 * (hi % 2));
    DivModUnique(b, 32, h, cls + 8 * bit + 16 * (hi % 2));
  }

  lemma AluCodeTable(a: AluOp)
    ensures DecodeAluCode(AluCode(a)) == Some(a) && AluCode(a) !in {8, 13} && AluCode(a) < 16
  {
  }

  lemma CondCodeTable(c: Cond)
    ensures DecodeCondCode(CondCode(c)) == Some(c) && CondCode(c) !in {0, 8, 9} && CondCode(c) < 16
  {
  }

  lemma SizedFields(cls: nat, sz: Size)
    requires 1 <= cls <= 3
    ensures var b := cls + MODE_MEM + 8 * SizeCode(sz);
      b % 8 == cls && b / 32 == 3 && DecodeSize(b / 8 % 4) == sz
  {
  }

  lemma DecodeOpcode(op: Op)
    ensures DecodeOp(Opcode(op)) == Some(op)
  {
    hide AluCode, CondCode, SizeCode, DecodeAluCode, DecodeCondCode, DecodeSize;
    match op
    case Ldx(sz) => SizedFields(CLS_LDX, sz);
    case St(sz) => SizedFields(CLS_ST, sz);
    case Stx(sz) => SizedFields(CLS_STX, sz);
    case Alu(w, a, o) =>
      AluCodeTable(a);
      OpcodeFields(if w.W32? then CLS_ALU else CLS_ALU64, SrcBit(o) / 8, AluCode(a));
    case Jmp(c, o) =>
      CondCodeTable(c);
      OpcodeFields(CLS_JMP, SrcBit(o) / 8, CondCode(c));
    case _ =>
  }

  lemma OpcodeDecode(opcode: byte)
    requires DecodeOp(opcode).Some?
    ensures Opcode(DecodeOp(opcode).value) == opcode
  {
    var cls, bit, hi := opcode % 8, opcode / 8 % 2, opcode / 16;
    OpcodeSplit(opcode);
    hide AluCode, CondCode, SizeCode, DecodeAluCode, DecodeCondCode, DecodeSize;
    match DecodeOp(opcode).value
    case Alu(w, a, o) => AluCodeUnique(hi);
    case Jmp(c, o) => CondCodeUnique(hi);
    case Ldx(sz) => SizeCodeUnique(opcode);
    case St(sz) => SizeCodeUnique(opcode);
    case Stx(sz) => SizeCodeUnique(opcode);
    case _ =>
  }

  lemma OpcodeSplit(b: byte)
    ensures b == b % 8 + 8 * (b / 8 % 2) + 16 * (b / 16)
  {
    var h := b / 8;
    DivModUnique(b, 16, h / 2, b % 8 + 8 * (h % 2));
  }

  lemma SizeCodeUnique(b: byte)
    ensures SizeCode(DecodeSize(b / 8 % 4)) == b / 8 % 4
    ensures b == b % 8 + 8 * (b / 8 % 4) + 32 * (b / 32)
  {
    var h := b / 8;
    DivModUnique(b, 32, h / 4, b % 8 + 8 * (h % 4));
  }

  lemma AluCodeUnique(hi: nat)
    ensures DecodeAluCode(hi).Some? ==> AluCode(DecodeAluCode(hi).value) == hi
  {
  }

  lemma CondCodeUnique(hi: nat)
    ensures DecodeCondCode(hi).Some? ==> CondCode(DecodeCondCode(hi).value) == hi
  {
  }

  /** The opcode table is a bijection between operations and the known opcode bytes. */
  lemma OpcodeTable(op: Op, opcode: byte)
    ensures DecodeOp(opcode) == Some(op) <==> Opcode(op) == opcode
  {
    DecodeOpcode(op);
    if DecodeOp(opcode).Some? {
      OpcodeDecode(opcode);
    }
  }

  /** The opcode bytes, written out: a class, an operand bit and a code in the high half. */
  lemma OpcodeBytes(op: Op)
    ensures Opcode(op) ==
      match op
      case Alu(w, a, o) =>
        (if w.W32? then 0x04 else 0x07) + (if o.Imm? then 0x00 else 0x08) + (match a
         case Add => 0x00 case Sub => 0x10 case Mul => 0x20 case Div => 0x30 case Or => 0x40 case And => 0x50
         case Lsh => 0x60 case Rsh => 0x70 case Mod => 0x90 case Xor => 0xa0 case Mov => 0xb0 case Arsh => 0xc0)
      case Neg(w) => if w.W32? then 0x84 else 0x87
      case End(big) => if big then 0xdc else 0xd4
      case Jmp(c, o) =>
        0x05 + (if o.Imm? then 0x00 else 0x08) + (match c
         case Eq => 0x10 case Gt => 0x20 case Ge => 0x30 case Set => 0x40 case Ne => 0x50 case Sgt => 0x60
         case Sge => 0x70 case Lt => 0xa0 case Le => 0xb0 case Slt => 0xc0 case Sle => 0xd0)
      case Ja => 0x05
      case Call => 0x85
      case Exit => 0x95
      case Ldx(sz) => (match sz case S32 => 0x61 case S16 => 0x69 case S8 => 0x71 case S64 => 0x79)
      case St(sz) => (match sz case S32 => 0x62 case S16 => 0x6a case S8 => 0x72 case S64 => 0x7a)
      case Stx(sz) => (match sz case S32 => 0x63 case S16 => 0x6b case S8 => 0x73 case S64 => 0x7b)
      case Lddw => 0x18
  {
  }

  // ----- little-endian bytes -----

  /** The low `n` bytes of `v`, least significant first. */
  function LeBytes(v: int, n: nat): (bs: seq<byte>)
    ensures |bs| == n
    decreases n
  {
    if n == 0 then [] else [v % 0x100] + LeBytes(v / 0x100, n - 1)
  }

  function FromLe(bs: seq<byte>): nat
  {
    if bs == [] then 0 else bs[0] + 0x100 * FromLe(bs[1..])
  }

  lemma {:induction false} FromLeBound(bs: seq<byte>)
    ensures FromLe(bs) < Pow2(8 * |bs|)
  {
    if bs != [] {
      FromLeBound(bs[1..]);
      Pow2Values();
      Pow2Add(8, 8 * |bs[1..]|);
    }
  }

  lemma {:induction false} FromLeBytes(v: int, n: nat)
    ensures FromLe(LeBytes(v, n)) == v % Pow2(8 * n)
    decreases n
  {
    if n > 0 {
      FromLeBytes(v / 0x100, n - 1);
      assert LeBytes(v, n)[1..] == LeBytes(v / 0x100, n - 1);
      Pow2Values();
      Pow2Add(8, 8 * (n - 1));
      ModByte(v, Pow2(8 * (n - 1)));
    } else {
      assert v % 1 == 0;
    }
  }

  lemma ModByte(v: int, p: int)
    requires p >= 1
    ensures v % (0x100 * p) == v % 0x100 + 0x100 * (v / 0x100 % p)
  {
    var q, r := v / 0x100 / p, v / 0x100 % p;
    assert v / 0x100 == q * p + r;
    assert v == q * (0x100 * p) + (v % 0x100 + 0x100 * r) by {
      assert 0x100 * (q * p) == q * (0x100 * p);
    }
    DivModUnique(v, 0x100 * p, q, v % 0x100 + 0x100 * r);
  }

  lemma {:induction false} LeBytesFrom(bs: seq<byte>)
    ensures LeBytes(FromLe(bs), |bs|) == bs
  {
    if bs != [] {
      LeBytesFrom(bs[1..]);
      var v, rest := FromLe(bs), FromLe(bs[1..]);
      assert v == rest * 0x100 + bs[0];
      assert LeBytes(v, |bs|) == [v % 0x100] + LeBytes(v / 0x100, |bs[1..]|);
      hide LeBytes, FromLe;
      DivModUnique(v, 0x100, rest, bs[0]);
      assert bs == [bs[0]] + bs[1..];
    }
  }

  /** Byte `k` is the number divided by 256 to the power `k`, modulo 256. */
  lemma {:induction false} LeBytesAt(v: int, n: nat, k: nat)
    requires k < n
    ensures LeBytes(v, n)[k] == v / Pow2(8 * k) % 0x100
    decreases n
  {
    if k > 0 {
      LeBytesAt(v / 0x100, n - 1, k - 1);
      Pow2Values();
      Pow2Add(8, 8 * (k - 1));
      DivDiv(v, 0x100, Pow2(8 * (k - 1)));
    }
  }

  lemma FromLeAt(bs: seq<byte>, k: nat)
    requires k < |bs|
    ensures FromLe(bs) / Pow2(8 * k) % 0x100 == bs[k]
  {
    LeBytesFrom(bs);
    LeBytesAt(FromLe(bs), |bs|, k);
  }

  /** Only the low `n` bytes matter. */
  lemma {:induction false} LeBytesMod(v: int, n: nat)
    ensures LeBytes(v % Pow2(8 * n), n) == LeBytes(v, n)
  {
    FromLeBytes(v, n);
    LeBytesFrom(LeBytes(v, n));
  }

  // ----- instruction layout -----

  function EncodeInst(i: Inst): (bs: seq<byte>)
    ensures |bs| == 8
  {
    [i.opcode, i.dst + 16 * i.src] + LeBytes(i.offset, 2) + LeBytes(i.imm, 4)
  }

  function DecodeInst(bs: seq<byte>): Inst
    requires |bs| == 8
  {
    var off, imm := FromLe(bs[2..4]), FromLe(bs[4..8]);
    FromLeBound(bs[2..4]);
    FromLeBound(bs[4..8]);
    Pow2Values();
    Inst(bs[0], bs[1] % 16, bs[1] / 16, if off < 0x8000 then off else off - TWO16, Signed32(imm))
  }

  /** Where the fields are: the registers share a byte, the destination in its low half; the rest is little-endian. */
  lemma InstLayout(bs: seq<byte>)
    requires |bs| == 8
    ensures var i := DecodeInst(bs);
      var c: int, d: int, e: int, f: int, g: int, h: int := bs[2], bs[3], bs[4], bs[5], bs[6], bs[7];
      && i.opcode == bs[0] && i.dst == bs[1] % 16 && i.src == bs[1] / 16
      && i.offset % 0x1_0000 == c + 0x100 * d
      && i.imm % 0x1_0000_0000 == e + 0x100 * f + 0x1_0000 * g + 0x100_0000 * h
  {
    hide FromLe, Pow2, LeBytes;
    var off, imm := bs[2..4], bs[4..8];
    FromLeBound(off);
    FromLeBound(imm);
    Pow2Values();
    TwoFromLe(off);
    TwoFromLe(imm[2..]);
    FourFromLe(imm);
  }

  lemma TwoFromLe(b: seq<byte>)
    requires |b| == 2
    ensures var lo: int, hi: int := b[0], b[1]; FromLe(b) == lo + 0x100 * hi
  {
    assert b[1..] == [b[1]] && [b[1]][1..] == [];
    assert FromLe([b[1]]) == b[1] + 0x100 * FromLe([]);
  }

  lemma FourFromLe(b: seq<byte>)
    requires |b| == 4
    ensures FromLe(b) == 0x100 * (0x100 * FromLe(b[2..]) + b[1]) + b[0]
  {
    assert b[1..][1..] == b[2..];
    assert FromLe(b[1..]) == b[1] + 0x100 * FromLe(b[2..]);
  }

  lemma FieldBytes(i: Inst)
    ensures FromLe(LeBytes(i.offset, 2)) == i.offset % TWO16
    ensures FromLe(LeBytes(i.imm, 4)) == i.imm % TWO32
  {
    FromLeBytes(i.offset, 2);
    FromLeBytes(i.imm, 4);
    Pow2Values();
  }

  lemma DecodeEncodeInst(i: Inst)
    ensures DecodeInst(EncodeInst(i)) == i
  {
    var bs := EncodeInst(i);
    assert bs[2..4] == LeBytes(i.offset, 2) && bs[4..8] == LeBytes(i.imm, 4);
    FieldBytes(i);
    DivModUnique(bs[1], 16, i.src, i.dst);
    hide FromLe, LeBytes;
  }

  lemma LeBytesSigned(bs: seq<byte>, v: int)
    requires |bs| == 2 || |bs| == 4
    requires (v - FromLe(bs)) % Pow2(8 * |bs|) == 0
    ensures LeBytes(v, |bs|) == bs
  {
    hide LeBytes, FromLe, Pow2;
    var p := Pow2(8 * |bs|);
    FromLeBound(bs);
    assert p == TWO16 || p == TWO32 by { Pow2Values(); }
    SameRemainder(v, FromLe(bs), p);
    LeBytesMod(v, |bs|);
    LeBytesFrom(bs);
  }

  lemma SameRemainder(v: int, f: nat, p: nat)
    requires (p == TWO16 || p == TWO32) && f < p && (v - f) % p == 0
    ensures v % p == f
  {
  }

  lemma EncodeDecodeInst(bs: seq<byte>)
    requires |bs| == 8
    ensures EncodeInst(DecodeInst(bs)) == bs
  {
    hide FromLe, LeBytes, Pow2;
    var i := DecodeInst(bs);
    var off, imm := bs[2..4], bs[4..8];
    assert LeBytes(i.offset, 2) == off && LeBytes(i.imm, 4) == imm by {
      FromLeBound(off);
      FromLeBound(imm);
      Pow2Values();
      LeBytesSigned(off, i.offset);
      LeBytesSigned(imm, i.imm);
    }
    assert bs[1] % 16 + 16 * (bs[1] / 16) == bs[1];
    hide DecodeInst;
    assert bs == [bs[0], bs[1]] + off + imm;
  }

  /** The instruction stream in a code image; trailing bytes short of a slot are ignored. */
  function DecodeInsts(code: seq<byte>): (insts: seq<Inst>)
    ensures |insts| == |code| / 8
  {
    if |code| < 8 then [] else [DecodeInst(code[..8])] + DecodeInsts(code[8..])
  }

  function EncodeInsts(insts: seq<Inst>): (code: seq<byte>)
    ensures |code| == 8 * |insts|
  {
    if insts == [] then [] else EncodeInst(insts[0]) + EncodeInsts(insts[1..])
  }

  lemma {:induction false} DecodeEncodeInsts(insts: seq<Inst>)
    ensures DecodeInsts(EncodeInsts(insts)) == insts
  {
    if insts != [] {
      var code := EncodeInsts(insts);
      assert code[..8] == EncodeInst(insts[0]) && code[8..] == EncodeInsts(insts[1..]);
      DecodeEncodeInst(insts[0]);
      DecodeEncodeInsts(insts[1..]);
    }
  }
}
