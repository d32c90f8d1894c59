/**
 * The A64 instructions the AArch64 code generator emits: their encoding (Arm Architecture Reference Manual, sections
 * C4.1.64 to C4.1.67) and a decoder, which undoes it for every instruction and all operands.
 */
module A64 {
  import opened Words
  import opened Ebpf

  type areg = x: int | 0 <= x < 32
  type u7 = x: int | 0 <= x < 0x80
  type u9 = x: int | 0 <= x < 0x200
  type u12 = x: int | 0 <= x < 0x1000
  type u19 = x: int | 0 <= x < 0x8_0000
  type u26 = x: int | 0 <= x < 0x400_0000
  type u21 = x: int | 0 <= x < 0x20_0000

  datatype MoveOp = MOVN | MOVZ | MOVK
  datatype SumOp = ADD | ADDS | SUB | SUBS
  datatype LogicOp = AND | ORR | EOR | ANDS
  datatype ShiftOp = LSLV | LSRV | ASRV

  /** Branch, address and offset fields are kept as the unsigned fields they are in the instruction. */
  datatype A =
    | MoveWide(sf: bool, op: MoveOp, hw: int, imm16: u16, rd: areg)
    | Branch(imm26: u26)
    | BranchCond(cond: nibble, imm19: u19)
    | Cbnz(sf: bool, imm19: u19, rt: areg)
    | Adr(imm21: u21, rd: areg)
    | SumImm(sf: bool, sum: SumOp, rd: areg, rn: areg, imm12: u12)
    | SumReg(sf: bool, sum: SumOp, rd: areg, rn: areg, rm: areg)
    | LogicReg(sf: bool, logic: LogicOp, rd: areg, rn: areg, rm: areg)
    | MemImm(load: bool, sz: Size, rt: areg, rn: areg, imm9: u9)
    | MemReg(load: bool, sz: Size, rt: areg, rn: areg, rm: areg)
    | Pair(load: bool, rt: areg, rt2: areg, rn: areg, imm7: u7)
    | Udiv(sf: bool, rd: areg, rn: areg, rm: areg)
    | ShiftReg(sf: bool, shift: ShiftOp, rd: areg, rn: areg, rm: areg)
    | Madd(sf: bool, rd: areg, rn: areg, rm: areg, ra: areg)
    | Msub(sf: bool, rd: areg, rn: areg, rm: areg, ra: areg)
    | Rev(sz: Size, rd: areg, rn: areg)
    | Uxth(rd: areg, rn: areg)
    | Blr(rn: areg)
    | RetTo(rn: areg)

  predicate WellFormed(a: A)
  {
    && (a.MoveWide? ==> 0 <= a.hw < (if a.sf then 4 else 2))
    && (a.Rev? ==> !a.sz.S8?)
  }

  function Sf(sf: bool): nat { if sf then 0x8000_0000 else 0 }

  /** Bits 30 and 29 of a wide move. */
  function MoveBits(op: MoveOp): nat
  {
    match op
    case MOVN => 0
    case MOVZ => 2
    case MOVK => 3
  }

  function SumBits(op: SumOp): nat
  {
    match op
    case ADD => 0
    case ADDS => 1
    case SUB => 2
    case SUBS => 3
  }

  function LogicBits(op: LogicOp): nat
  {
    match op
    case AND => 0
    case ORR => 1
    case EOR => 2
    case ANDS => 3
  }

  function ShiftBits(op: ShiftOp): nat
  {
    match op
    case LSLV => 8
    case LSRV => 9
    case ASRV => 10
  }

  function SizeBits(sz: Size): nat
  {
    match sz
    case S8 => 0
    case S16 => 1
    case S32 => 2
    case S64 => 3
  }

  /** A field read as two's complement; `half` is the weight of its sign bit. */
  function SignedField(v: nat, half: nat): int { if v < half then v else v - 2 * half }

  // ----- encoding -----

  /** Bit 31, bits 30 and 29, the 8 bits below them, and the other 21. */
  function Word(sf: bool, op: nat, kind: nat, low: nat): u32
    requires op < 4 && kind < 0x100 && low < 0x20_0000
  {
    Sf(sf) + 0x2000_0000 * op + 0x20_0000 * kind + low
  }

  /** Three register numbers and 6 bits between them. */
  function Low(rm: nat, mid: nat, rn: areg, rd: areg): (low: nat)
    requires rm < 0x20 && mid < 0x40
    ensures low < 0x20_0000
  {
    0x1_0000 * rm + 0x400 * mid + 0x20 * rn + rd
  }

  function LoadBit(load: bool): nat { if load then 2 else 0 }

  function Encode(a: A): u32
    requires WellFormed(a)
  {
    match a
    case MoveWide(sf, op, hw, imm16, rd) => Word(sf, MoveBits(op), 0x94 + hw, 0x20 * imm16 + rd)
    case Branch(imm26) => 0x1400_0000 + imm26
    case BranchCond(cond, imm19) => 0x5400_0000 + 0x20 * imm19 + cond
    case Cbnz(sf, imm19, rt) => Sf(sf) + 0x3500_0000 + 0x20 * imm19 + rt
    case Adr(imm21, rd) => 0x2000_0000 * (imm21 % 4) + 0x1000_0000 + 0x20 * (imm21 / 4) + rd
    case _ => EncodeData(a)
  }

  predicate IsData(a: A) { !a.MoveWide? && !a.Branch? && !a.BranchCond? && !a.Cbnz? && !a.Adr? }

  function EncodeData(a: A): u32
    requires WellFormed(a) && IsData(a)
  {
    match a
    case SumImm(sf, op, rd, rn, imm12) =>
      Word(sf, SumBits(op), 0x88 + imm12 / 0x800, Low(imm12 / 0x40 % 0x20, imm12 % 0x40, rn, rd))
    case SumReg(sf, op, rd, rn, rm) => Word(sf, SumBits(op), 0x58, Low(rm, 0, rn, rd))
    case LogicReg(sf, op, rd, rn, rm) => Word(sf, LogicBits(op), 0x50, Low(rm, 0, rn, rd))
    case MemImm(load, sz, rt, rn, imm9) =>
      MemWord(sz, 0xc0 + LoadBit(load), Low(imm9 / 0x10, 4 * (imm9 % 0x10), rn, rt))
    case MemReg(load, sz, rt, rn, rm) => MemWord(sz, 0xc1 + LoadBit(load), Low(rm, 0x1a, rn, rt))
    case Pair(load, rt, rt2, rn, imm7) =>
      Word(true, 1, 0x48 + LoadBit(load) + imm7 / 0x40, Low(imm7 / 2 % 0x20, 0x20 * (imm7 % 2) + rt2, rn, rt))
    case Udiv(sf, rd, rn, rm) => Word(sf, 0, 0xd6, Low(rm, 2, rn, rd))
    case ShiftReg(sf, op, rd, rn, rm) => Word(sf, 0, 0xd6, Low(rm, ShiftBits(op), rn, rd))
    case Madd(sf, rd, rn, rm, ra) => Word(sf, 0, 0xd8, Low(rm, ra, rn, rd))
    case Msub(sf, rd, rn, rm, ra) => Word(sf, 0, 0xd8, Low(rm, 0x20 + ra, rn, rd))
    case Rev(sz, rd, rn) => Word(sz.S64?, 2, 0xd6, Low(0, SizeBits(sz), rn, rd))
    case Uxth(rd, rn) => Word(false, 2, 0x98, Low(0, 0xf, rn, rd))
    case Blr(rn) => Word(true, 2, 0xb1, Low(0x1f, 0, rn, 0))
    case RetTo(rn) => Word(true, 2, 0xb2, Low(0x1f, 0, rn, 0))
  }

  /** The size of an access is in bits 31 and 30. */
  function MemWord(sz: Size, kind: nat, low: nat): u32
    requires kind < 0x100 && low < 0x20_0000
  {
    Word(sz.S32? || sz.S64?, if sz.S16? || sz.S64? then 3 else 1, kind, low)
  }

  // ----- decoding -----

  function SumOf(bits: nat): SumOp
  {
    if bits == 0 then ADD else if bits == 1 then ADDS else if bits == 2 then SUB else SUBS
  }

  function LogicOf(bits: nat): LogicOp
  {
    if bits == 0 then AND else if bits == 1 then ORR else if bits == 2 then EOR else ANDS
  }

  function SizeOf(sf: bool, op: nat): Size
  {
    if sf then (if op == 3 then S64 else S32) else if op == 3 then S16 else S8
  }

  function Decode(w: u32): Option<A>
  {
    var top, low := w / 0x20_0000, w % 0x20_0000;
    DecodeTop(top / 0x400 == 1, top / 0x100 % 4, top % 0x100, low)
  }

  function DecodeTop(sf: bool, op: nat, kind: nat, low: nat): Option<A>
    requires op < 4 && kind < 0x100 && low < 0x20_0000
  {
    if 0x94 <= kind < 0x98 && op != 1 then
      if !sf && kind >= 0x96 then None
      else
        var m := if op == 0 then MOVN else if op == 2 then MOVZ else MOVK;
        Some(MoveWide(sf, m, kind - 0x94, low / 0x20, low % 0x20))
    else if !sf && op == 0 && 0xa0 <= kind < 0xc0 then Some(Branch(0x20_0000 * (kind - 0xa0) + low))
    else if !sf && op == 2 && 0xa0 <= kind < 0xa8 then
      if low / 0x10 % 2 == 0 then Some(BranchCond(low % 0x10, 0x1_0000 * (kind - 0xa0) + low / 0x20)) else None
    else if op == 1 && 0xa8 <= kind < 0xb0 then Some(Cbnz(sf, 0x1_0000 * (kind - 0xa8) + low / 0x20, low % 0x20))
    else if !sf && 0x80 <= kind < 0x88 then Some(Adr(op + 4 * (0x1_0000 * (kind - 0x80) + low / 0x20), low % 0x20))
    else DecodeData(sf, op, kind, low / 0x1_0000, low / 0x400 % 0x40, low / 0x20 % 0x20, low % 0x20)
  }

  function DecodeData(sf: bool, op: nat, kind: nat, rm: areg, mid: nat, rn: areg, rd: areg): Option<A>
    requires op < 4 && kind < 0x100 && mid < 0x40
  {
    if kind == 0x88 || kind == 0x89 then Some(SumImm(sf, SumOf(op), rd, rn, 0x800 * (kind - 0x88) + 0x40 * rm + mid))
    else if kind == 0x58 then (if mid == 0 then Some(SumReg(sf, SumOf(op), rd, rn, rm)) else None)
    else if kind == 0x50 then (if mid == 0 then Some(LogicReg(sf, LogicOf(op), rd, rn, rm)) else None)
    else if kind == 0xc0 || kind == 0xc2 then
      if (op == 1 || op == 3) && mid % 4 == 0 then Some(MemImm(kind == 0xc2, SizeOf(sf, op), rd, rn,
        0x10 * rm + mid / 4)) else None
    else if kind == 0xc1 || kind == 0xc3 then
      if (op == 1 || op == 3) && mid == 0x1a then Some(MemReg(kind == 0xc3, SizeOf(sf, op), rd, rn, rm)) else None
    else if 0x48 <= kind < 0x4c then
      if sf && op == 1 then
        var load := kind >= 0x4a;
        Some(Pair(load, rd, mid % 0x20, rn, 0x40 * (kind - 0x48 - LoadBit(load)) + 2 * rm + mid / 0x20))
      else None
    else if kind == 0xd6 && op == 0 then
      if mid == 2 then Some(Udiv(sf, rd, rn, rm))
      else if mid == 8 then Some(ShiftReg(sf, LSLV, rd, rn, rm))
      else if mid == 9 then Some(ShiftReg(sf, LSRV, rd, rn, rm))
      else if mid == 10 then Some(ShiftReg(sf, ASRV, rd, rn, rm))
      else None
    else if kind == 0xd8 && op == 0 then
      Some(if mid < 0x20 then Madd(sf, rd, rn, rm, mid) else Msub(sf, rd, rn, rm, mid - 0x20))
    else if kind == 0xd6 && op == 2 then
      if rm != 0 || (sf <==> mid != 3) then None
      else if mid == 1 then Some(Rev(S16, rd, rn))
      else if mid == 2 then Some(Rev(S32, rd, rn))
      else if mid == 3 then Some(Rev(S64, rd, rn))
      else None
    else if kind == 0x98 && op == 2 then (if !sf && rm == 0 && mid == 0xf then Some(Uxth(rd, rn)) else None)
    else if kind == 0xb1 && op == 2 then (if sf && rm == 0x1f && mid == 0 && rd == 0 then Some(Blr(rn)) else None)
    else if kind == 0xb2 && op == 2 then (if sf && rm == 0x1f && mid == 0 && rd == 0 then Some(RetTo(rn)) else None)
    else None
  }

  // ----- one lemma per format -----

  lemma Split(w: u32, sf: bool, op: nat, kind: nat, low: nat)
    requires op < 4 && kind < 0x100 && low < 0x20_0000 && w == Sf(sf) + 0x2000_0000 * op + 0x20_0000 * kind + low
    ensures Decode(w) == DecodeTop(sf, op, kind, low)
  {
    var s := if sf then 1 else 0;
    var top := 0x400 * s + 0x100 * op + kind;
    DivModUnique(w, 0x20_0000, top, low);
    DivModUnique(top, 0x400, s, 0x100 * op + kind);
    DivModUnique(top, 0x100, 4 * s + op, kind);
    DivModUnique(4 * s + op, 4, s, op);
    hide DecodeTop;
  }

  lemma DecodeMoveWide(a: A)
    requires a.MoveWide? && WellFormed(a)
    ensures Decode(Encode(a)) == Some(a)
  {
    var low := 0x20 * a.imm16 + a.rd;
    Split(Encode(a), a.sf, MoveBits(a.op), 0x94 + a.hw, low);
    DivModUnique(low, 0x20, a.imm16, a.rd);
    hide Decode, Encode, DecodeData;
  }

  lemma DecodeBranch(a: A)
    requires a.Branch?
    ensures Decode(Encode(a)) == Some(a)
  {
    var hi, low := a.imm26 / 0x20_0000, a.imm26 % 0x20_0000;
    Split(Encode(a), false, 0, 0xa0 + hi, low);
    hide Decode, Encode, DecodeData;
  }

  lemma DecodeBranchCond(a: A)
    requires a.BranchCond?
    ensures Decode(Encode(a)) == Some(a)
  {
    var hi, lo := a.imm19 / 0x1_0000, a.imm19 % 0x1_0000;
    var low := 0x20 * lo + a.cond;
    assert a.imm19 == 0x1_0000 * hi + lo;
    Split(Encode(a), false, 2, 0xa0 + hi, low);
    hide Decode, Encode, DecodeData, Sf;
    DivModUnique(low, 0x20, lo, a.cond);
    DivModUnique(low, 0x10, 2 * lo, a.cond);
    DivModUnique(2 * lo, 2, lo, 0);
  }

  lemma DecodeCbnz(a: A)
    requires a.Cbnz?
    ensures Decode(Encode(a)) == Some(a)
  {
    var hi, lo := a.imm19 / 0x1_0000, a.imm19 % 0x1_0000;
    var low := 0x20 * lo + a.rt;
    Split(Encode(a), a.sf, 1, 0xa8 + hi, low);
    hide Decode, Encode, DecodeData;
    DivModUnique(low, 0x20, lo, a.rt);
  }

  lemma DecodeAdr(a: A)
    requires a.Adr?
    ensures Decode(Encode(a)) == Some(a)
  {
    var high, bits := a.imm21 / 4, a.imm21 % 4;
    var hi, lo := high / 0x1_0000, high % 0x1_0000;
    var low := 0x20 * lo + a.rd;
    Split(Encode(a), false, bits, 0x80 + hi, low);
    hide Decode, Encode, DecodeData;
    DivModUnique(low, 0x20, lo, a.rd);
  }

  lemma LowFields(rm: areg, mid: nat, rn: areg, rd: areg)
    requires mid < 0x40
    ensures var low := Low(rm, mid, rn, rd);
      low / 0x1_0000 == rm && low / 0x400 % 0x40 == mid && low / 0x20 % 0x20 == rn && low % 0x20 == rd
  {
    var l1 := 0x20 * rn + rd;
    var l2 := 0x400 * mid + l1;
    var low := 0x1_0000 * rm + l2;
    DivModUnique(low, 0x1_0000, rm, l2);
    DivModUnique(low, 0x400, 0x40 * rm + mid, l1);
    DivModUnique(0x40 * rm + mid, 0x40, rm, mid);
    DivModUnique(low, 0x20, 0x20 * (0x40 * rm + mid) + rn, rd);
    DivModUnique(0x20 * (0x40 * rm + mid) + rn, 0x20, 0x40 * rm + mid, rn);
  }

  /** The selecting bits of no data-processing format look like a move, branch or address. */
  predicate DataKind(sf: bool, op: nat, kind: nat)
  {
    kind < 0x80 || kind == 0x88 || kind == 0x89 || kind == 0x98 || kind >= 0xc0 || (sf && op == 2 && 0xb0 < kind)
  }

  lemma DecodeWord(sf: bool, op: nat, kind: nat, rm: areg, mid: nat, rn: areg, rd: areg)
    requires op < 4 && kind < 0x100 && mid < 0x40 && DataKind(sf, op, kind)
    ensures Decode(Word(sf, op, kind, Low(rm, mid, rn, rd))) == DecodeData(sf, op, kind, rm, mid, rn, rd)
  {
    var low := Low(rm, mid, rn, rd);
    Split(Word(sf, op, kind, low), sf, op, kind, low);
    LowFields(rm, mid, rn, rd);
    hide Word, Low, Decode, DecodeData;
  }

  lemma DecodeSumImm(sf: bool, op: SumOp, rd: areg, rn: areg, imm12: u12)
    ensures Decode(EncodeData(SumImm(sf, op, rd, rn, imm12))) == Some(SumImm(sf, op, rd, rn, imm12))
  {
    hide Word, Low, Decode;
    var hi, mid, lo := imm12 / 0x800, imm12 / 0x40 % 0x20, imm12 % 0x40;
    assert imm12 == 0x800 * hi + 0x40 * mid + lo;
    DecodeWord(sf, SumBits(op), 0x88 + hi, mid, lo, rn, rd);
  }

  lemma DecodeSumReg(sf: bool, op: SumOp, rd: areg, rn: areg, rm: areg)
    ensures Decode(EncodeData(SumReg(sf, op, rd, rn, rm))) == Some(SumReg(sf, op, rd, rn, rm))
  {
    hide Word, Low, Decode;
    DecodeWord(sf, SumBits(op), 0x58, rm, 0, rn, rd);
  }

  lemma DecodeLogicReg(sf: bool, op: LogicOp, rd: areg, rn: areg, rm: areg)
    ensures Decode(EncodeData(LogicReg(sf, op, rd, rn, rm))) == Some(LogicReg(sf, op, rd, rn, rm))
  {
    hide Word, Low, Decode;
    DecodeWord(sf, LogicBits(op), 0x50, rm, 0, rn, rd);
  }

  lemma DecodeMemImm(load: bool, sz: Size, rt: areg, rn: areg, imm9: u9)
    ensures Decode(EncodeData(MemImm(load, sz, rt, rn, imm9))) == Some(MemImm(load, sz, rt, rn, imm9))
  {
    hide Word, Low, Decode;
    var hi, lo := imm9 / 0x10, imm9 % 0x10;
    assert imm9 == 0x10 * hi + lo;
    DecodeWord(sz.S32? || sz.S64?, if sz.S16? || sz.S64? then 3 else 1, 0xc0 + LoadBit(load), hi, 4 * lo, rn, rt);
  }

  lemma DecodeMemReg(load: bool, sz: Size, rt: areg, rn: areg, rm: areg)
    ensures Decode(EncodeData(MemReg(load, sz, rt, rn, rm))) == Some(MemReg(load, sz, rt, rn, rm))
  {
    hide Word, Low, Decode;
    DecodeWord(sz.S32? || sz.S64?, if sz.S16? || sz.S64? then 3 else 1, 0xc1 + LoadBit(load), rm, 0x1a, rn, rt);
  }

  lemma DecodePair(load: bool, rt: areg, rt2: areg, rn: areg, imm7: u7)
    ensures Decode(EncodeData(Pair(load, rt, rt2, rn, imm7))) == Some(Pair(load, rt, rt2, rn, imm7))
  {
    hide Word, Low, Decode;
    var hi, mid, lo := imm7 / 0x40, imm7 / 2 % 0x20, imm7 % 2;
    assert imm7 == 0x40 * hi + 2 * mid + lo;
    DivModUnique(0x20 * lo + rt2, 0x20, lo, rt2);
    DecodeWord(true, 1, 0x48 + LoadBit(load) + hi, mid, 0x20 * lo + rt2, rn, rt);
  }

  lemma DecodeTwoSource(sf: bool, rd: areg, rn: areg, rm: areg, op: ShiftOp)
    ensures Decode(EncodeData(Udiv(sf, rd, rn, rm))) == Some(Udiv(sf, rd, rn, rm))
    ensures Decode(EncodeData(ShiftReg(sf, op, rd, rn, rm))) == Some(ShiftReg(sf, op, rd, rn, rm))
  {
    hide Word, Low, Decode;
    DecodeWord(sf, 0, 0xd6, rm, 2, rn, rd);
    DecodeWord(sf, 0, 0xd6, rm, ShiftBits(op), rn, rd);
  }

  lemma DecodeThreeSource(sf: bool, rd: areg, rn: areg, rm: areg, ra: areg)
    ensures Decode(EncodeData(Madd(sf, rd, rn, rm, ra))) == Some(Madd(sf, rd, rn, rm, ra))
    ensures Decode(EncodeData(Msub(sf, rd, rn, rm, ra))) == Some(Msub(sf, rd, rn, rm, ra))
  {
    hide Word, Low, Decode;
    DecodeWord(sf, 0, 0xd8, rm, ra, rn, rd);
    DecodeWord(sf, 0, 0xd8, rm, 0x20 + ra, rn, rd);
  }

  lemma DecodeOthers(a: A)
    requires a.Rev? || a.Uxth? || a.Blr? || a.RetTo?
    requires WellFormed(a)
    ensures Decode(EncodeData(a)) == Some(a)
  {
    match a
    case Rev(sz, rd, rn) => DecodeWord(sz.S64?, 2, 0xd6, 0, SizeBits(sz), rn, rd);
    case Uxth(rd, rn) => DecodeWord(false, 2, 0x98, 0, 0xf, rn, rd);
    case Blr(rn) => DecodeWord(true, 2, 0xb1, 0x1f, 0, rn, 0);
    case RetTo(rn) => DecodeWord(true, 2, 0xb2, 0x1f, 0, rn, 0);
    hide Word, Low, Decode;
  }

  lemma DecodeEncodeData(a: A)
    requires WellFormed(a) && IsData(a)
    ensures Decode(EncodeData(a)) == Some(a)
  {
    hide Decode, EncodeData;
    match a
    case SumImm(sf, op, rd, rn, imm12) => DecodeSumImm(sf, op, rd, rn, imm12);
    case SumReg(sf, op, rd, rn, rm) => DecodeSumReg(sf, op, rd, rn, rm);
    case LogicReg(sf, op, rd, rn, rm) => DecodeLogicReg(sf, op, rd, rn, rm);
    case MemImm(load, sz, rt, rn, imm9) => DecodeMemImm(load, sz, rt, rn, imm9);
    case MemReg(load, sz, rt, rn, rm) => DecodeMemReg(load, sz, rt, rn, rm);
    case Pair(load, rt, rt2, rn, imm7) => DecodePair(load, rt, rt2, rn, imm7);
    case Udiv(sf, rd, rn, rm) => DecodeTwoSource(sf, rd, rn, rm, LSLV);
    case ShiftReg(sf, op, rd, rn, rm) => DecodeTwoSource(sf, rd, rn, rm, op);
    case Madd(sf, rd, rn, rm, ra) => DecodeThreeSource(sf, rd, rn, rm, ra);
    case Msub(sf, rd, rn, rm, ra) => DecodeThreeSource(sf, rd, rn, rm, ra);
    case _ => DecodeOthers(a);
  }

  /** Decoding undoes encoding, for every instruction and all operands. */
  lemma DecodeEncode(a: A)
    requires WellFormed(a)
    ensures Decode(Encode(a)) == Some(a)
  {
    hide Decode, EncodeData;
    match a
    case MoveWide(_, _, _, _, _) => DecodeMoveWide(a);
    case Branch(_) => DecodeBranch(a);
    case BranchCond(_, _) => DecodeBranchCond(a);
    case Cbnz(_, _, _) => DecodeCbnz(a);
    case Adr(_, _) => DecodeAdr(a);
    case _ => DecodeEncodeData(a);
  }

  // ----- known words -----

  /** One instruction of each format, with its word as an assembler for the architecture gives it. */
  lemma KnownWords()
    ensures Encode(MoveWide(true, MOVZ, 0, 1, 0)) == 0xd280_0020  // movz x0, #1
    ensures Encode(MoveWide(true, MOVN, 0, 0, 0)) == 0x9280_0000  // movn x0, #0
    ensures Encode(MoveWide(true, MOVK, 1, 1, 0)) == 0xf2a0_0020  // movk x0, #1, lsl #16
    ensures Encode(Adr(8, 1)) == 0x1000_0041  // adr x1, +8
  {
  }

  lemma KnownBranches()
    ensures Encode(Branch(1)) == 0x1400_0001  // b +4
    ensures Encode(BranchCond(0, 2)) == 0x5400_0040  // b.eq +8
    ensures Encode(Cbnz(true, 2, 0)) == 0xb500_0040  // cbnz x0, +8
  {
  }

  lemma KnownSumImmediates()
    ensures Encode(SumImm(true, ADD, 0, 1, 16)) == 0x9100_4020  // add x0, x1, #16
    ensures Encode(SumImm(true, SUB, 31, 31, 96)) == 0xd101_83ff  // sub sp, sp, #96
  {
  }

  lemma KnownSums()
    ensures Encode(SumReg(true, ADD, 0, 1, 2)) == 0x8b02_0020  // add x0, x1, x2
    ensures Encode(SumReg(false, SUB, 0, 1, 2)) == 0x4b02_0020  // sub w0, w1, w2
    ensures Encode(SumReg(true, SUBS, 31, 1, 2)) == 0xeb02_003f  // cmp x1, x2
  {
  }

  lemma KnownLogic()
    ensures Encode(LogicReg(true, AND, 0, 1, 2)) == 0x8a02_0020  // and x0, x1, x2
    ensures Encode(LogicReg(true, ORR, 0, 31, 1)) == 0xaa01_03e0  // mov x0, x1
  {
  }

  lemma KnownMoreLogic()
    ensures Encode(LogicReg(true, EOR, 0, 1, 2)) == 0xca02_0020  // eor x0, x1, x2
    ensures Encode(LogicReg(true, ANDS, 31, 1, 2)) == 0xea02_003f  // tst x1, x2
  {
  }

  lemma KnownAccesses()
    ensures Encode(MemImm(true, S64, 0, 1, 8)) == 0xf840_8020  // ldur x0, [x1, #8]
    ensures Encode(MemImm(false, S32, 0, 1, 0x1fc)) == 0xb81f_c020  // stur w0, [x1, #-4]
    ensures Encode(MemReg(true, S64, 0, 1, 2)) == 0xf862_6820  // ldr x0, [x1, x2]
  {
  }

  lemma KnownShortAccesses()
    ensures Encode(MemImm(true, S8, 0, 1, 0)) == 0x3840_0020  // ldurb w0, [x1]
    ensures Encode(MemImm(true, S16, 0, 1, 0)) == 0x7840_0020  // ldurh w0, [x1]
  {
  }

  lemma KnownPairs()
    ensures Encode(Pair(false, 29, 30, 31, 0)) == 0xa900_7bfd  // stp x29, x30, [sp]
    ensures Encode(Pair(true, 29, 30, 31, 0)) == 0xa940_7bfd  // ldp x29, x30, [sp]
    ensures Encode(Udiv(true, 0, 1, 2)) == 0x9ac2_0820  // udiv x0, x1, x2
  {
  }

  lemma KnownShifts()
    ensures Encode(ShiftReg(true, LSLV, 0, 1, 2)) == 0x9ac2_2020  // lsl x0, x1, x2
    ensures Encode(ShiftReg(true, LSRV, 0, 1, 2)) == 0x9ac2_2420  // lsr x0, x1, x2
    ensures Encode(ShiftReg(true, ASRV, 0, 1, 2)) == 0x9ac2_2820  // asr x0, x1, x2
  {
  }

  lemma KnownProducts()
    ensures Encode(Madd(true, 0, 1, 2, 31)) == 0x9b02_7c20  // mul x0, x1, x2
    ensures Encode(Msub(true, 0, 1, 2, 3)) == 0x9b02_8c20  // msub x0, x1, x2, x3
    ensures Encode(Uxth(0, 1)) == 0x5300_3c20  // uxth w0, w1
  {
  }

  lemma KnownReversals()
    ensures Encode(Rev(S64, 0, 1)) == 0xdac0_0c20  // rev x0, x1
    ensures Encode(Rev(S32, 0, 1)) == 0x5ac0_0820  // rev w0, w1
    ensures Encode(Rev(S16, 0, 1)) == 0x5ac0_0420  // rev16 w0, w1
  {
  }

  lemma KnownCalls()
    ensures Encode(Blr(24)) == 0xd63f_0300  // blr x24
    ensures Encode(RetTo(30)) == 0xd65f_03c0  // ret
  {
  }
}
