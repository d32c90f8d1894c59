/** The image of a program of at most 65536 slots is far below 2 GiB, so that every displacement fits 32 bits. */
module ImageSize {
  import opened Words
  import opened Ebpf
  import opened X86
  import opened Select
  import opened Layout
  import V = Validator

  const MAX_INS := 15
  const MAX_CODE := 16

  lemma AsmShort(a: Asm)
    ensures AsmLen(a) <= MAX_INS
  {
    hide RexByte, ModRM, LeBytes;
  }

  lemma {:induction false} CodeShort(code: seq<Asm>)
    ensures CodeLen(code) <= MAX_INS * |code|
    decreases |code|
  {
    if code != [] {
      AsmShort(code[0]);
      hide AsmLen;
      CodeShort(code[1..]);
    }
  }

  lemma ItemsFew(p: Source, i: nat)
    requires i < |p.insts|
    ensures |Code(p, i)| <= MAX_CODE
  {
    hide DecodeOp, OpCode;
    if DecodeOp(p.insts[i].opcode).Some? {
      var inst := p.insts[i];
      OpItemsFew(p, i, inst, DecodeOp(inst.opcode).value, MapRegister(inst.dst), MapRegister(inst.src));
    }
  }

  lemma OpItemsFew(p: Source, i: nat, inst: Inst, op: Op, dst: reg, src: reg)
    requires i < |p.insts|
    ensures |OpCode(p, i, inst, op, dst, src)| <= MAX_CODE
  {
    hide LoadImm, LddwBits, StoreBits, MulDivMod, SlotTarget, MapRegister;
    if op.Alu? {
      DivisionFew(i, op.width, op.alu, src, dst, inst.imm);
    }
  }

  lemma DivisionFew(i: nat, w: Width, a: AluOp, src: reg, dst: reg, imm: i32)
    ensures |MulDivMod(i, w, a, src, dst, imm)| <= MAX_CODE
  {
    hide LoadImm;
  }

  lemma {:induction false} BodyFew(p: Source, i: nat)
    requires i <= |p.insts| + 1
    ensures |BodyCode(p, i)| <= MAX_CODE * (|p.insts| + 1 - i)
    decreases |p.insts| + 1 - i
  {
    if i < |p.insts| {
      ItemsFew(p, i);
      hide Code;
      BodyFew(p, V.After(p.insts, i));
    }
  }

  lemma FrameFew(p: Source)
    ensures |Prologue()| == 7 && |Epilogue()| == 7 && |DivHandler(p)| == 7
  {
    hide LoadImm;
    PushesFew(NONVOLATILE);
  }

  lemma {:induction false} PushesFew(rs: seq<reg>)
    ensures |Pushes(rs)| == |rs| && |Pops(rs)| == |rs|
  {
    if rs != [] {
      PushesFew(rs[1..]);
    }
  }

  lemma {:induction false} StringLength(s: string)
    ensures |CString(s)| == |s| + 1
  {
    if s != [] {
      StringLength(s[1..]);
    }
  }

  lemma TableLength()
    ensures |StringBytes(STRING_TABLE)| == |STRING_TABLE[0]| + 1 == 39
  {
    hide CString;
    StringLength(STRING_TABLE[0]);
    assert STRING_TABLE[1..] == [];
  }

  lemma {:induction false} CStringAt(s: string, k: nat)
    requires k <= |s|
    ensures |CString(s)| == |s| + 1 && CString(s)[k] == if k < |s| then s[k] as int % 0x100 else 0
  {
    StringLength(s);
    if k > 0 {
      CStringAt(s[1..], k - 1);
    }
  }

  /** The message the division handler points at is in the image, where it points, with its NUL behind it. */
  lemma MessageInImage(p: Source, k: nat)
    requires k <= 38
    ensures |Image(p)| == PlacesOf(p).strings + 39
    ensures Image(p)[PlacesOf(p).strings + k] ==
      if k < 38 then "uBPF error: division by zero at PC %u\n"[k] as int % 0x100 else 0
  {
    hide *;
    StringsPlace(p);
    LinkLen(AllCode(p), 0, PlacesOf(p), AllDone);
    MessageAt(k);
    ImageParts(p);
  }

  lemma ImageParts(p: Source)
    ensures Image(p) == Link(AllCode(p), 0, PlacesOf(p), AllDone) + StringBytes(STRING_TABLE)
  {
  }

  lemma MessageAt(k: nat)
    requires k <= 38
    ensures |StringBytes(STRING_TABLE)| == 39
    ensures StringBytes(STRING_TABLE)[k] ==
      if k < 38 then "uBPF error: division by zero at PC %u\n"[k] as int % 0x100 else 0
  {
    TableLength();
    hide CString;
    CStringAt(STRING_TABLE[0], k);
    assert STRING_TABLE[1..] == [];
    assert StringBytes(STRING_TABLE) == CString(STRING_TABLE[0]);
  }

  lemma StringsPlace(p: Source)
    ensures PlacesOf(p).strings == CodeLen(AllCode(p))
  {
    hide Prologue, Epilogue, DivHandler, BodyCode, CodeLen;
    CodeLenAppend(Prologue(), BodyCode(p, 0));
    CodeLenAppend(Prologue() + BodyCode(p, 0), Epilogue());
    CodeLenAppend(Prologue() + BodyCode(p, 0) + Epilogue(), DivHandler(p));
  }

  lemma ImageBounded(p: Source)
    requires |p.insts| <= MAX_INSTS
    ensures |Image(p)| < TWO31
  {
    BodyFew(p, 0);
    FrameFew(p);
    TableLength();
    CodeShort(AllCode(p));
    hide Prologue, Epilogue, DivHandler, BodyCode, CodeLen, StringBytes;
    assert |AllCode(p)| <= 7 + MAX_CODE * (MAX_INSTS + 1) + 14;
    LinkLen(AllCode(p), 0, PlacesOf(p), AllDone);
  }
}
