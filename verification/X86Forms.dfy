/**
 * The bytes of each x86-64 instruction form, cut into the pieces in which the emitters write them: prefixes, opcode,
 * operand byte, displacement and immediate, one lemma for each form.
 */
module X86Forms {
  import opened Words
  import opened Ebpf
  import opened X86
  import opened Select

  lemma EncRet()
    ensures Enc(Ret) == [0xc3]
  {
  }

  lemma EncRR(w: bool, op: RROp, src: reg, dst: reg)
    ensures Enc(RR(w, op, src, dst)) == Rex(w, src, dst) + [RRByte(op), ModRM(3, src, dst)]
  {
    hide Rex, ModRM;
  }

  /** An opcode extension below 8 adds nothing to the prefix. */
  lemma RexOfExt(w: bool, ext: reg, dst: reg)
    requires ext < 8
    ensures Rex(w, ext, dst) == Rex(w, 0, dst)
  {
  }

  lemma EncRI(w: bool, op: RIOp, dst: reg, imm: i32)
    ensures Enc(RI(w, op, dst, imm)) ==
      Rex(w, RIExt(op), dst) + [RIByte(op), ModRM(3, RIExt(op), dst)] + LeBytes(imm, 4)
  {
    RexOfExt(w, RIExt(op), dst);
    hide Rex, ModRM, LeBytes;
  }

  lemma EncShI(w: bool, op: ShOp, dst: reg, n: byte)
    ensures Enc(ShI(w, op, dst, n)) == Rex(w, ShExt(op), dst) + [0xc1, ModRM(3, ShExt(op), dst), n]
  {
    RexOfExt(w, ShExt(op), dst);
    hide Rex, ModRM;
  }

  lemma EncShCl(w: bool, op: ShOp, dst: reg)
    ensures Enc(ShCl(w, op, dst)) == Rex(w, ShExt(op), dst) + [0xd3, ModRM(3, ShExt(op), dst)]
  {
    RexOfExt(w, ShExt(op), dst);
    hide Rex, ModRM;
  }

  lemma EncUn(w: bool, op: UnOp, dst: reg)
    ensures Enc(Un(w, op, dst)) == Rex(w, UnExt(op), dst) + [0xf7, ModRM(3, UnExt(op), dst)]
  {
    RexOfExt(w, UnExt(op), dst);
    hide Rex, ModRM;
  }

  lemma EncRol(dst: reg, n: byte)
    ensures Enc(Rol16(dst, n)) == [0x66] + (Rex(false, 0, dst) + [0xc1, ModRM(3, 0, dst), n])
  {
    hide Rex, ModRM;
  }

  lemma EncBswap(w: bool, dst: reg)
    ensures Enc(Bswap(w, dst)) == Rex(w, 0, dst) + [0x0f] + [0xc8 + dst % 8]
  {
    hide Rex;
  }

  lemma EncCall()
    ensures Enc(CallRax) == [0xff] + [0xd0]
  {
  }

  lemma EncLd(sz: Size, base: reg, dst: reg, d: i32)
    ensures Enc(Ld(sz, base, dst, d)) == Rex(sz.S64?, dst, base)
      + (if sz.S8? then [0x0f] + [0xb6] else if sz.S16? then [0x0f] + [0xb7] else [0x8b]) + MemOperand(dst, base, d)
  {
    hide MemOperand, Rex;
  }

  lemma EncStr(sz: Size, src: reg, dst: reg, d: i32)
    ensures Enc(Str(sz, src, dst, d)) == (if sz.S16? then [0x66] else [])
      + (if sz.S64? || src >= 8 || dst >= 8 || sz.S8? then [RexByte(sz.S64?, src, dst)] else [])
      + [if sz.S8? then 0x88 else 0x89] + MemOperand(src, dst, d)
  {
    hide MemOperand, RexByte;
    var x := Str(sz, src, dst, d);
    var front := if sz.S16? then [0x66] else [];
    var rex := if sz.S64? || src >= 8 || dst >= 8 || sz.S8? then [RexByte(sz.S64?, src, dst)] else [];
    assert (if Prefix66(x) then [0x66] else []) == front && RexOf(x) == rex;
    assert Body(x) == [if sz.S8? then 0x88 else 0x89] + MemOperand(src, dst, d);
    hide Prefix66, RexOf, Body;
    Behind(front + rex, [if sz.S8? then 0x88 else 0x89], MemOperand(src, dst, d));
  }

  lemma Behind(a: seq<byte>, b: seq<byte>, c: seq<byte>)
    ensures a + (b + c) == a + b + c
  {
  }

  lemma EncStrI(sz: Size, dst: reg, d: i32, bits: u32)
    ensures Enc(StrI(sz, dst, d, bits)) == (if sz.S16? then [0x66] else []) + Rex(sz.S64?, 0, dst)
      + [if sz.S8? then 0xc6 else 0xc7] + MemOperand(0, dst, d) + LeBytes(bits, ImmBytes(sz))
  {
    hide MemOperand, Rex, LeBytes;
  }

  lemma EncConstant(dst: reg, v: i64)
    ensures Enc(MovAbs(dst, Wrap64(v))) == Rex(true, 0, dst) + [0xb8 + dst % 8] + LeBytes(Wrap64(v), 8)
  {
    hide Rex, LeBytes;
  }

  lemma WordBytes(v: i64)
    ensures LeBytes(Wrap64(v), 8) == LeBytes(v, 8)
  {
    LeBytesMod(v, 8);
    Pow2Values();
  }

  lemma ImmediateBytes(sz: Size, imm: i32)
    ensures LeBytes(StoreBits(sz, imm), ImmBytes(sz)) ==
      if sz.S8? then [imm % 0x100] else if sz.S16? then LeBytes(imm, 2) else LeBytes(imm, 4)
  {
    LeBytesMod(imm, ImmBytes(sz));
    Pow2Values();
    assert LeBytes(imm % 0x100, 1) == [imm % 0x100 % 0x100] + LeBytes(imm % 0x100 / 0x100, 0);
  }
}
