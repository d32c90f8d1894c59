/** Read-modify-write fix-ups of A64 branches and addresses. */
module A64Patch {
  import opened Words
  import opened Ebpf
  import opened A64

  const BAD_OPCODE: u32 := 0xffff_ffff

  predicate IsBranch(a: A) { a.Branch? || a.BranchCond? || a.Cbnz? }

  /** How far a branch goes, in bytes from its own address. */
  function Displacement(a: A): int
    requires IsBranch(a)
  {
    match a
    case Branch(imm26) => 4 * SignedField(imm26, 0x200_0000)
    case BranchCond(_, imm19) => 4 * SignedField(imm19, 0x4_0000)
    case Cbnz(_, imm19, _) => 4 * SignedField(imm19, 0x4_0000)
  }

  /** A branch whose displacement is not filled in. */
  predicate IsBlank(a: A)
  {
    match a
    case Branch(imm26) => imm26 == 0
    case BranchCond(_, imm19) => imm19 == 0
    case Cbnz(_, imm19, _) => imm19 == 0
    case _ => false
  }

  /** How far a branch of this kind can go either way. */
  function Reach(a: A): int
    requires IsBranch(a)
  {
    if a.Branch? then 0x800_0000 else 0x10_0000
  }

  function WithField(a: A, words: int): A
    requires IsBranch(a)
  {
    match a
    case Branch(_) => Branch(words % 0x400_0000)
    case BranchCond(cond, _) => BranchCond(cond, words % 0x8_0000)
    case Cbnz(sf, _, rt) => Cbnz(sf, words % 0x8_0000, rt)
  }

  /** The fix-up of a branch word; the shift of a negative displacement rounds down. */
  function UpdateBranch(instr: u32, rel: int): u32
  {
    if instr / 0x200_0000 == 0x2a || instr / 0x200_0000 % 0x40 == 0x1a then
      Bitwise32(BitOr, instr, 0x20 * (rel / 4 % 0x8_0000));
      Bitwise(BitOr, instr, 0x20 * (rel / 4 % 0x8_0000))
    else if instr / 0x400_0000 % 0x20 == 5 then
      Bitwise32(BitOr, instr, rel / 4 % 0x400_0000);
      Bitwise(BitOr, instr, rel / 4 % 0x400_0000)
    else BAD_OPCODE
  }

  lemma Powers()
    ensures Pow2(0) == 1 && Pow2(5) == 0x20 && Pow2(18) == 0x4_0000 && Pow2(19) == 0x8_0000 && Pow2(26) == 0x400_0000
    ensures Pow2(2) == 4 && Pow2(29) == 0x2000_0000
  {
    assert Pow2(0) == 1 && Pow2(2) == 4 && Pow2(3) == 8;
    assert Pow2(16) == TWO16 && Pow2(8) == 0x100 by { Pow2Values(); }
    hide Pow2;
    Pow2Add(2, 3);
    Pow2Add(2, 16);
    Pow2Add(3, 16);
    Pow2Add(8, 16);
    Pow2Add(2, 24);
    Pow2Add(3, 26);
  }

  /** Which test of the fix-up a blank branch word passes. */
  lemma BlankTests(a: A)
    requires IsBlank(a)
    ensures var w := Encode(a);
      if a.Branch? then w / 0x200_0000 == 0xa && w / 0x400_0000 == 5
      else w / 0x200_0000 == 0x2a || w / 0x200_0000 % 0x40 == 0x1a
  {
    var w := Encode(a);
    match a
    case Branch(_) =>
      DivModUnique(w, 0x200_0000, 0xa, 0);
      DivModUnique(w, 0x400_0000, 5, 0);
    case BranchCond(cond, _) => DivModUnique(w, 0x200_0000, 0x2a, cond);
    case Cbnz(sf, _, rt) =>
      DivModUnique(w, 0x200_0000, (if sf then 0x40 else 0) + 0x1a, 0x100_0000 + rt);
  }

  /** Fixing up a blank branch gives the branch with its displacement field set, and nothing else changed. */
  lemma BranchUpdated(a: A, rel: int)
    requires IsBlank(a)
    ensures UpdateBranch(Encode(a), rel) == Encode(WithField(a, rel / 4))
  {
    hide Bitwise, Pow2;
    BlankTests(a);
    Powers();
    match a
    case Branch(_) => OrIntoField(5, 0, rel / 4 % 0x400_0000, 0, 26);
    case BranchCond(cond, _) => OrIntoField(0x54, cond, rel / 4 % 0x8_0000, 5, 19);
    case Cbnz(sf, _, rt) => OrIntoField((if sf then 0x80 else 0) + 0x35, rt, rel / 4 % 0x8_0000, 5, 19);
  }

  lemma FieldRange(words: int, half: int)
    requires half > 0
    ensures 0 <= words % (2 * half) < 2 * half
    ensures SignedField(words % (2 * half), half) == words <==> -half <= words < half
  {
    var m := 2 * half;
    if 0 <= words < m {
      DivModUnique(words, m, 0, words);
    } else if -m <= words < 0 {
      DivModUnique(words, m, -1, words + m);
    }
  }

  /**
   * The fix-up is right exactly within reach: the patched word decodes to the branch with the intended displacement if
   * and only if that lies in the signed 21-bit range, or in the signed 28-bit range of an unconditional branch.
   */
  lemma BranchLands(a: A, rel: int)
    requires IsBlank(a) && rel % 4 == 0
    ensures var d := Decode(UpdateBranch(Encode(a), rel));
      d == Some(WithField(a, rel / 4)) && (Displacement(d.value) == rel <==> -Reach(a) <= rel < Reach(a))
  {
    hide Encode, Decode, UpdateBranch;
    BranchUpdated(a, rel);
    DecodeEncode(WithField(a, rel / 4));
    FieldRange(rel / 4, if a.Branch? then 0x200_0000 else 0x4_0000);
  }

  // ----- addresses -----

  /** The fix-up of an ADR word. It keeps only 18 of the 19 high bits. */
  function UpdateAdr(instr: u32, imm21: int): u32
  {
    Bitwise32(BitOr, instr, 0x2000_0000 * (imm21 % 4));
    var w: u32 := Bitwise(BitOr, instr, 0x2000_0000 * (imm21 % 4));
    Bitwise32(BitOr, w, 0x20 * (imm21 / 4 % 0x4_0000));
    Bitwise(BitOr, w, 0x20 * (imm21 / 4 % 0x4_0000))
  }

  lemma AdrUpdated(rd: areg, imm21: int)
    ensures UpdateAdr(Encode(Adr(0, rd)), imm21) == Encode(Adr(imm21 % 4 + 4 * (imm21 / 4 % 0x4_0000), rd))
  {
    hide Bitwise, Pow2;
    Powers();
    var lo, hi := imm21 % 4, imm21 / 4 % 0x4_0000;
    var w := 0x1000_0000 + rd;
    OrIntoField(0, w, lo, 29, 2);
    var w1 := w + 0x2000_0000 * lo;
    assert w1 == rd + 0x20 * (0x4_0000 * (0x20 + 0x40 * lo));
    OrIntoField(0x20 + 0x40 * lo, rd, hi, 5, 18);
    DivModUnique(lo + 4 * hi, 4, hi, lo);
  }

  /** An address fix-up is right exactly for forward distances below 2^20: the mask drops the sign of a backward one. */
  lemma AdrLands(rd: areg, imm21: int)
    requires -0x10_0000 <= imm21 < 0x10_0000
    ensures var d := Decode(UpdateAdr(Encode(Adr(0, rd)), imm21));
      && d.Some? && d.value.Adr? && d.value.rd == rd
      && (SignedField(d.value.imm21, 0x10_0000) == imm21 <==> imm21 >= 0)
  {
    hide Encode, Decode, UpdateAdr;
    AdrUpdated(rd, imm21);
    var v := imm21 % 4 + 4 * (imm21 / 4 % 0x4_0000);
    DecodeEncode(Adr(v, rd));
    var q := imm21 / 4;
    if q >= 0 {
      DivModUnique(q, 0x4_0000, 0, q);
    } else {
      DivModUnique(q, 0x4_0000, -1, q + 0x4_0000);
    }
  }
}
