/** The output for a program of at most 65536 slots is far below 2 GiB, so that 32-bit sums of offsets never wrap. */
module A64Size {
  import opened Words
  import opened Ebpf
  import opened A64
  import opened A64Moves
  import opened A64Select
  import opened A64Layout
  import S = Select
  import L = Layout
  import Z = ImageSize
  import V = Validator

  const MAX_MOVES := 5
  const MAX_CODE := 14

  lemma {:induction false} MovesFew(sf: bool, rd: areg, imm: u64, invert: bool, i: nat, started: bool)
    requires i <= Pieces(sf)
    ensures |Moves(sf, rd, imm, invert, i, started)| <= Pieces(sf) - i + if started then 0 else 1
    decreases Pieces(sf) - i
  {
    hide Half, Skip;
    if i < Pieces(sf) {
      MovesFew(sf, rd, imm, invert, i + 1, started);
      MovesFew(sf, rd, imm, invert, i + 1, true);
    }
  }

  lemma ConstantFew(sf: bool, rd: areg, imm: u64)
    ensures |MoveCode(sf, rd, imm)| <= MAX_MOVES
  {
    MovesFew(sf, rd, imm, Invert(sf, imm), 0, false);
    hide Moves, Invert;
  }

  lemma PrefixFew(op: Op, imm: i32)
    ensures |PrefixCode(op, imm)| <= MAX_MOVES
  {
    hide MoveCode, Wrap64, ThroughTemp, IsAlu64;
    ConstantFew(IsAlu64(op), TEMP, Wrap64(imm));
  }

  lemma AluFew(pc: u16, w: Width, a: AluOp, o: Operand, dst: areg, src: areg, imm: i32)
    ensures |RegisterForm(pc, w.W64?, a, dst, src)| <= 9
    ensures IsSimpleImm(Alu(w, a, o), imm) ==> |SimpleForm(w.W64?, a, dst, imm)| <= MAX_MOVES
  {
    hide MoveCode, Wrap64;
    ConstantFew(true, PC_REGISTER, pc);
    ConstantFew(w.W64?, dst, Wrap64(imm));
  }

  lemma AccessFew(load: bool, sz: Size, rt: areg, rn: areg, offset: i16)
    ensures |MemCode(load, sz, rt, rn, offset)| <= 6
  {
    hide MoveCode, Wrap64;
    ConstantFew(true, OFFSET, Wrap64(offset));
  }

  lemma CallFew(target: u64)
    ensures |CallCode(target)| <= 7
  {
    hide MoveCode;
    ConstantFew(true, TEMP, target);
  }

  lemma OpFew(p: S.Source, i: nat, inst: Inst, op: Op, dst: areg, src: areg)
    requires i < |p.insts|
    ensures |OpCode(p, i, inst, op, dst, src)| <= 9
  {
    hide RegisterForm, SimpleForm, MemCode, CallCode, MoveCode, CompareFor, S.LddwBits, S.SlotTarget;
    match op
    case Alu(w, a, o) => AluFew(i % TWO16, w, a, o, dst, src, inst.imm);
    case Ldx(sz) => AccessFew(true, sz, dst, src, inst.offset);
    case St(sz) => AccessFew(false, sz, src, dst, inst.offset);
    case Stx(sz) => AccessFew(false, sz, src, dst, inst.offset);
    case Lddw =>
      if i + 1 < |p.insts| {
        ConstantFew(true, dst, S.LddwBits(inst.imm, p.insts[i + 1].imm));
      }
    case Call =>
      if 0 <= inst.imm < |p.extFuncs| {
        CallFew(p.extFuncs[inst.imm]);
      }
    case _ =>
  }

  lemma ItemsFew(p: S.Source, i: nat)
    requires i < |p.insts|
    ensures |Code(p, i)| <= MAX_CODE
  {
    hide DecodeOp, OpCode, PrefixCode;
    var inst := p.insts[i];
    if DecodeOp(inst.opcode).Some? {
      var op := DecodeOp(inst.opcode).value;
      PrefixFew(op, inst.imm);
      OpFew(p, i, inst, op, MapRegister(inst.dst), SourceRegister(inst, op));
    }
  }

  lemma {:induction false} BodyFew(p: S.Source, i: nat)
    requires i <= |p.insts| + 1
    ensures |BodyCode(p, i)| <= MAX_CODE * (|p.insts| + 1 - i)
    decreases |p.insts| + 1 - i
  {
    if i < |p.insts| {
      ItemsFew(p, i);
      hide Code;
      BodyFew(p, V.After(p.insts, i));
    }
  }

  lemma FrameFew(p: S.Source, str: u64)
    ensures |Prologue()| == 8 && |Epilogue()| == 7 && |DivHandler(p, str)| <= 19
  {
    hide MoveCode, CallCode, SavedPair;
    ConstantFew(true, 0, p.stderr);
    ConstantFew(true, MapRegister(0), TWO64 - 1);
    CallFew(p.errorPrintf);
  }

  lemma OutputBounded(p: S.Source, str: u64)
    requires |p.insts| <= MAX_INSTS
    ensures 4 * |AllItems(p, str)| + |L.StringBytes(L.STRING_TABLE)| < TWO31
  {
    BodyFew(p, 0);
    FrameFew(p, str);
    Z.TableLength();
    hide Prologue, Epilogue, DivHandler, BodyCode, L.StringBytes;
  }
}
