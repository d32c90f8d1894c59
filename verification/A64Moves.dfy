/** Building a constant from 16-bit pieces: `emit_movewide_immediate` of the AArch64 code generator. */
module A64Moves {
  import opened Words
  import opened Ebpf
  import opened A64

  /** Registers 0 to 30, and the zero register as number 31. */
  type ARegs = r: seq<u64> | |r| == 32 witness seq(32, _ => 0)

  function Read(regs: ARegs, r: areg): u64 { if r == 31 then 0 else regs[r] }

  function Write(regs: ARegs, r: areg, v: u64): ARegs { if r == 31 then regs else regs[r := v] }

  /** The weight of halfword `i`. */
  function Unit(i: nat): (u: nat)
    ensures u > 0
  {
    if i == 0 then 1 else if i == 1 then 0x1_0000 else if i == 2 then 0x1_0000_0000 else 0x1_0000_0000_0000
  }

  function Half(v: u64, i: nat): u16 { v / Unit(i) % 0x1_0000 }

  /** Four halfwords, least significant first. */
  function Join(h: seq<u16>): u64
    requires |h| == 4
  {
    var a: int, b: int, c: int, d: int := h[0], h[1], h[2], h[3];
    a + 0x1_0000 * b + 0x1_0000_0000 * c + 0x1_0000_0000_0000 * d
  }

  function Halves(v: u64): (h: seq<u16>)
    ensures |h| == 4
  {
    [Half(v, 0), Half(v, 1), Half(v, 2), Half(v, 3)]
  }

  lemma JoinHalves(v: u64)
    ensures Join(Halves(v)) == v
    ensures Low32(v) == Half(v, 0) + 0x1_0000 * Half(v, 1)
  {
    var a := v / 0x1_0000;
    var b := a / 0x1_0000;
    var c := b / 0x1_0000;
    assert v == v % 0x1_0000 + 0x1_0000 * a && a == a % 0x1_0000 + 0x1_0000 * b && b == b % 0x1_0000 + 0x1_0000 * c;
    DivModUnique(v, 0x1_0000_0000, b, v % 0x1_0000 + 0x1_0000 * (a % 0x1_0000));
    DivModUnique(v, 0x1_0000_0000_0000, c, v % 0x1_0000 + 0x1_0000 * (a % 0x1_0000 + 0x1_0000 * (b % 0x1_0000)));
    assert c < 0x1_0000;
  }

  /** The halfword `h` above `low` and below `high`, in units of `u`. */
  lemma HalfIs(v: nat, u: nat, high: nat, h: u16, low: nat)
    requires u > 0 && low < u && v == (high * 0x1_0000 + h) * u + low
    ensures v / u % 0x1_0000 == h
  {
    DivModUnique(v, u, high * 0x1_0000 + h, low);
    DivModUnique(high * 0x1_0000 + h, 0x1_0000, high, h);
  }

  lemma HalfOfJoin(h: seq<u16>, i: nat)
    requires |h| == 4 && i < 4
    ensures Half(Join(h), i) == h[i]
  {
    var v := Join(h);
    var a: int, b: int, c: int, d: int := h[0], h[1], h[2], h[3];
    if i == 0 {
      HalfIs(v, 1, b + 0x1_0000 * c + 0x1_0000_0000 * d, a, 0);
    } else if i == 1 {
      HalfIs(v, 0x1_0000, c + 0x1_0000 * d, b, a);
    } else if i == 2 {
      HalfIs(v, 0x1_0000_0000, d, c, a + 0x1_0000 * b);
    } else {
      HalfIs(v, 0x1_0000_0000_0000, 0, d, a + 0x1_0000 * b + 0x1_0000_0000 * c);
    }
  }

  // ----- what wide moves do -----

  /** The register after a wide move: the shifted piece, its complement, or the old value with one halfword replaced. */
  function Moved(sf: bool, op: MoveOp, hw: nat, imm16: u16, was: u64): u64
    requires hw < (if sf then 4 else 2)
  {
    match op
    case MOVZ => imm16 * Unit(hw)
    case MOVN => (if sf then TWO64 else TWO32) - 1 - imm16 * Unit(hw)
    case MOVK =>
      var v := if sf then was else Low32(was);
      Join(Halves(v)[hw := imm16])
  }

  predicate AllMoves(code: seq<A>)
  {
    forall i :: 0 <= i < |code| ==> code[i].MoveWide? && WellFormed(code[i])
  }

  function RunMoves(code: seq<A>, regs: ARegs): ARegs
    requires AllMoves(code)
  {
    if code == [] then regs
    else
      var a := code[0];
      RunMoves(code[1..], Write(regs, a.rd, Moved(a.sf, a.op, a.hw, a.imm16, Read(regs, a.rd))))
  }

  // ----- what is emitted -----

  function Pieces(sf: bool): nat { if sf then 4 else 2 }

  function Skip(invert: bool): u16 { if invert then 0xffff else 0 }

  /** The moves from piece `i` on; `started` once the first, which sets all pieces, has been emitted. */
  function Moves(sf: bool, rd: areg, imm: u64, invert: bool, i: nat, started: bool): (code: seq<A>)
    ensures AllMoves(code)
    decreases Pieces(sf) - i
  {
    if i >= Pieces(sf) then
      if started then [] else [MoveWide(sf, if invert then MOVN else MOVZ, 0, 0, rd)]
    else if Half(imm, i) == Skip(invert) then Moves(sf, rd, imm, invert, i + 1, started)
    else if started then [MoveWide(sf, MOVK, i, Half(imm, i), rd)] + Moves(sf, rd, imm, invert, i + 1, true)
    else
      [if invert then MoveWide(sf, MOVN, i, 0xffff - Half(imm, i), rd) else MoveWide(sf, MOVZ, i, Half(imm, i), rd)]
      + Moves(sf, rd, imm, invert, i + 1, true)
  }

  function Count(imm: u64, piece: u16, n: nat): nat
    requires n <= 4
  {
    if n == 0 then 0 else Count(imm, piece, n - 1) + if Half(imm, n - 1) == piece then 1 else 0
  }

  /** Start from all ones when more pieces are 0xffff than 0. */
  function Invert(sf: bool, imm: u64): bool { Count(imm, 0, Pieces(sf)) < Count(imm, 0xffff, Pieces(sf)) }

  function MoveCode(sf: bool, rd: areg, imm: u64): (code: seq<A>)
    ensures AllMoves(code)
  {
    Moves(sf, rd, imm, Invert(sf, imm), 0, false)
  }

  // ----- the constant arrives -----

  /** Piece `j` of the register when the pieces below `i` are done and the others still have the filling. */
  function Piece(sf: bool, imm: u64, invert: bool, i: nat, j: nat): u16
  {
    if j >= Pieces(sf) then 0 else if j < i then Half(imm, j) else Skip(invert)
  }

  function Parts(sf: bool, imm: u64, invert: bool, i: nat): (h: seq<u16>)
    ensures |h| == 4
  {
    [Piece(sf, imm, invert, i, 0), Piece(sf, imm, invert, i, 1), Piece(sf, imm, invert, i, 2),
      Piece(sf, imm, invert, i, 3)]
  }

  function Partial(sf: bool, imm: u64, invert: bool, i: nat): u64 { Join(Parts(sf, imm, invert, i)) }

  lemma PartialDone(sf: bool, imm: u64, invert: bool)
    ensures Partial(sf, imm, invert, Pieces(sf)) == if sf then imm else Low32(imm)
  {
    JoinHalves(imm);
    hide Half;
  }

  /** The first move sets its piece and fills the others. */
  lemma FirstMove(sf: bool, imm: u64, invert: bool, i: nat, was: u64)
    requires i < Pieces(sf) && forall j :: 0 <= j < i ==> Half(imm, j) == Skip(invert)
    ensures (if invert then Moved(sf, MOVN, i, 0xffff - Half(imm, i), was) else Moved(sf, MOVZ, i, Half(imm, i), was))
      == Partial(sf, imm, invert, i + 1)
  {
    hide Half;
    assert i == 0 || i == 1 || i == 2 || i == 3;
  }

  lemma HalvesOfJoin(h: seq<u16>)
    requires |h| == 4
    ensures Halves(Join(h)) == h
  {
    HalfOfJoin(h, 0);
    HalfOfJoin(h, 1);
    HalfOfJoin(h, 2);
    HalfOfJoin(h, 3);
    hide Half, Join;
  }

  lemma NextMove(sf: bool, imm: u64, invert: bool, i: nat)
    requires i < Pieces(sf)
    ensures Moved(sf, MOVK, i, Half(imm, i), Partial(sf, imm, invert, i)) == Partial(sf, imm, invert, i + 1)
  {
    var h := Parts(sf, imm, invert, i);
    assert h[i := Half(imm, i)] == Parts(sf, imm, invert, i + 1) by { hide Half; }
    assert !sf ==> h[2] == 0 && h[3] == 0;
    hide Half, Halves, Parts;
    HalvesOfJoin(h);
    assert !sf ==> Low32(Join(h)) == Join(h);
    hide Join;
  }

  lemma {:induction false} MovesLoad(sf: bool, rd: areg, imm: u64, invert: bool, i: nat, started: bool, regs: ARegs)
    requires i <= Pieces(sf) && rd != 31
    requires if started then regs[rd] == Partial(sf, imm, invert, i)
      else forall j :: 0 <= j < i ==> Half(imm, j) == Skip(invert)
    ensures RunMoves(Moves(sf, rd, imm, invert, i, started), regs) == regs[rd := if sf then imm else Low32(imm)]
    decreases Pieces(sf) - i
  {
    hide Half, Partial, Moved;
    var code := Moves(sf, rd, imm, invert, i, started);
    if i == Pieces(sf) {
      PartialDone(sf, imm, invert);
      if !started {
        AllFilling(sf, imm, invert, regs[rd]);
        assert code[1..] == [];
      }
    } else if Half(imm, i) == Skip(invert) {
      PieceDone(sf, imm, invert, i);
      MovesLoad(sf, rd, imm, invert, i + 1, started, regs);
    } else {
      if started {
        NextMove(sf, imm, invert, i);
      } else {
        FirstMove(sf, imm, invert, i, regs[rd]);
      }
      var next := regs[rd := Partial(sf, imm, invert, i + 1)];
      assert code[1..] == Moves(sf, rd, imm, invert, i + 1, true);
      MovesLoad(sf, rd, imm, invert, i + 1, true, next);
    }
  }

  /** A piece equal to the filling needs no move. */
  lemma PieceDone(sf: bool, imm: u64, invert: bool, i: nat)
    requires i < Pieces(sf) && Half(imm, i) == Skip(invert)
    ensures Partial(sf, imm, invert, i) == Partial(sf, imm, invert, i + 1)
  {
    hide Half, Join;
    assert Parts(sf, imm, invert, i) == Parts(sf, imm, invert, i + 1);
  }

  /** The move for a constant that is all filling. */
  lemma AllFilling(sf: bool, imm: u64, invert: bool, was: u64)
    requires forall j :: 0 <= j < Pieces(sf) ==> Half(imm, j) == Skip(invert)
    ensures Moved(sf, if invert then MOVN else MOVZ, 0, 0, was) == if sf then imm else Low32(imm)
  {
    JoinHalves(imm);
    assert sf ==> Half(imm, 2) == Skip(invert) && Half(imm, 3) == Skip(invert);
    assert Half(imm, 0) == Skip(invert) && Half(imm, 1) == Skip(invert);
    hide Half;
  }

  /**
   * Constant synthesis: whatever the register held and whichever start the counts choose, the emitted moves leave
   * exactly the constant, zero-extended in 32-bit mode, and change no other register.
   */
  lemma ConstantLoaded(sf: bool, rd: areg, imm: u64, regs: ARegs)
    requires rd != 31
    ensures RunMoves(MoveCode(sf, rd, imm), regs) == regs[rd := if sf then imm else Low32(imm)]
  {
    MovesLoad(sf, rd, imm, Invert(sf, imm), 0, false, regs);
  }

  lemma CountsOf(pc: u16)
    requires Half(pc, 1) == 0 && Half(pc, 2) == 0 && Half(pc, 3) == 0
    ensures forall piece: u16 ::
      Count(pc, piece, 1) <= 1 && Count(pc, piece, 4) == Count(pc, piece, 1) + if piece == 0 then 3 else 0
  {
    hide Half;
    forall piece: u16
      ensures Count(pc, piece, 1) <= 1 && Count(pc, piece, 4) == Count(pc, piece, 1) + if piece == 0 then 3 else 0
    {
      assert Count(pc, piece, 0) == 0;
      assert Count(pc, piece, 2) == Count(pc, piece, 1) + if piece == 0 then 1 else 0;
      assert Count(pc, piece, 3) == Count(pc, piece, 2) + if piece == 0 then 1 else 0;
    }
  }

  /** A 16-bit constant takes exactly one move. */
  lemma SmallConstant(rd: areg, pc: u16)
    ensures MoveCode(true, rd, pc) == [MoveWide(true, MOVZ, 0, pc, rd)]
  {
    HalfOfJoin([pc, 0, 0, 0], 0);
    HalfOfJoin([pc, 0, 0, 0], 1);
    HalfOfJoin([pc, 0, 0, 0], 2);
    HalfOfJoin([pc, 0, 0, 0], 3);
    hide Half;
    CountsOf(pc);
    assert !Invert(true, pc);
    var tail := Moves(true, rd, pc, false, 1, pc != 0);
    assert tail == Moves(true, rd, pc, false, 2, pc != 0) == Moves(true, rd, pc, false, 3, pc != 0)
      == Moves(true, rd, pc, false, 4, pc != 0);
  }
}
