/** The code generator proper: emitters appending to a buffer, translation, back-patching. */
module JitX86 {
  import opened Words
  import opened Ebpf
  import opened X86
  import opened Select
  import opened Layout
  import opened MachineCode
  import opened Positions
  import opened JitInput
  import opened JitOutput
  import opened X86Forms
  import V = Validator

  class JitState {
    const buf: array<byte>
    const size: nat
    const pcLocs: array<nat>
    var offset: nat
    var exitLoc: nat
    var divByZeroLoc: nat
    var stringTableLoc: nat
    var jumps: seq<Jump>
    var strings: seq<StringRef>
    /** Every byte the emitters were asked to write, whether or not it fitted. */
    ghost var stream: seq<byte>

    /** The buffer holds the stream as long as it fits; from the first overflow on, `offset` stays at `size`. */
    ghost predicate Valid()
      reads this`offset, this`stream, this`jumps, this`strings, buf
    {
      && size <= buf.Length && size < TWO32 && pcLocs.Length == MAX_INSTS + 1
      && offset == (if |stream| <= size then |stream| else size)
      && (|stream| <= size ==> buf[..|stream|] == stream)
      && |jumps| <= MAX_INSTS && |strings| <= MAX_INSTS
    }

    ghost function Out(): Output
      reads this`stream, this`jumps, this`strings
    {
      Output(stream, jumps, strings)
    }

    constructor (buffer: array<byte>, n: nat)
      requires n <= buffer.Length && n < TWO32
      ensures Valid() && Out() == Output([], [], []) && buf == buffer && size == n && fresh(pcLocs)
      ensures forall i :: 0 <= i < pcLocs.Length ==> pcLocs[i] == 0
    {
      buf := buffer;
      size := n;
      pcLocs := new nat[MAX_INSTS + 1](_ => 0);
      offset, exitLoc, divByZeroLoc, stringTableLoc := 0, 0, 0, 0;
      jumps, strings := [], [];
      stream := [];
    }

    // ----- bytes -----

    method EmitBytes(data: seq<byte>)
      requires Valid()
      modifies this`offset, this`stream, buf
      ensures Valid() && stream == old(stream) + data
      ensures forall k :: 0 <= k < buf.Length && !(|old(stream)| <= k < |stream| <= size) ==> buf[k] == old(buf[k])
    {
      var start := offset;
      if offset + |data| > size {
        offset := size;
        stream := stream + data;
        return;
      }
      var i := 0;
      while i < |data|
        invariant 0 <= i <= |data| && start + |data| <= size
        invariant stream == old(stream) && offset == start
        invariant |stream| <= size ==> buf[..start] == stream
        invariant buf[start..start + i] == data[..i]
        invariant forall k :: 0 <= k < buf.Length && !(start <= k < start + i) ==> buf[k] == old(buf[k])
      {
        buf[start + i] := data[i];
        i := i + 1;
      }
      assert data[..|data|] == data;
      assert buf[..start + |data|] == buf[..start] + buf[start..start + |data|];
      offset := offset + |data|;
      stream := stream + data;
    }

    method Emit1(x: byte)
      requires Valid()
      modifies this`offset, this`stream, buf
      ensures Valid() && stream == old(stream) + [x]
    {
      EmitBytes([x]);
    }

    method Emit2(x: int)
      requires Valid()
      modifies this`offset, this`stream, buf
      ensures Valid() && stream == old(stream) + LeBytes(x, 2)
    {
      EmitBytes(LeBytes(x, 2));
    }

    method Emit4(x: int)
      requires Valid()
      modifies this`offset, this`stream, buf
      ensures Valid() && stream == old(stream) + LeBytes(x, 4)
    {
      EmitBytes(LeBytes(x, 4));
    }

    method Emit8(x: int)
      requires Valid()
      modifies this`offset, this`stream, buf
      ensures Valid() && stream == old(stream) + LeBytes(x, 8)
    {
      EmitBytes(LeBytes(x, 8));
    }

    /** Record a jump and leave its displacement blank; once the table is full the slot is not even emitted. */
    method EmitJumpOffset(targetPc: u32)
      requires Valid()
      modifies this`offset, this`stream, this`jumps, buf
      ensures Valid()
      ensures old(|jumps|) < MAX_INSTS ==>
        stream == old(stream) + LeBytes(0, 4) && jumps == old(jumps) + [Jump(old(offset), targetPc)]
      ensures old(|jumps|) == MAX_INSTS ==> stream == old(stream) && jumps == old(jumps)
    {
      hide LeBytes;
      if |jumps| == MAX_INSTS {
        return;
      }
      jumps := jumps + [Jump(offset, targetPc)];
      Emit4(0);
    }

    method EmitModRM(mode: nat, r: reg, m: reg)
      requires Valid() && mode < 4
      modifies this`offset, this`stream, buf
      ensures Valid() && stream == old(stream) + [ModRM(mode, r, m)]
    {
      Emit1(ModRM(mode, r, m));
    }

    method EmitModRMAndDisplacement(r: reg, m: reg, d: i32)
      requires Valid()
      modifies this`offset, this`stream, buf
      ensures Valid() && stream == old(stream) + MemOperand(r, m, d)
    {
      if d == 0 && m % 8 != RBP {
        EmitModRM(0, r, m);
      } else if -128 <= d <= 127 {
        EmitModRM(1, r, m);
        Emit1(d % 0x100);
      } else {
        EmitModRM(2, r, m);
        Emit4(d);
      }
    }

    method EmitRex(w: bool, r: reg, b: reg)
      requires Valid()
      modifies this`offset, this`stream, buf
      ensures Valid() && stream == old(stream) + [RexByte(w, r, b)]
    {
      Emit1(RexByte(w, r, b));
    }

    method EmitBasicRex(w: bool, src: reg, dst: reg)
      requires Valid()
      modifies this`offset, this`stream, buf
      ensures Valid() && stream == old(stream) + Rex(w, src, dst)
    {
      if w || src >= 8 || dst >= 8 {
        EmitRex(w, src, dst);
      }
    }

    // ----- instructions -----

    method EmitPush(r: reg)
      requires Valid()
      modifies this`offset, this`stream, buf
      ensures Valid() && stream == old(stream) + Enc(Push(r))
    {
      EmitBasicRex(false, 0, r);
      Emit1(0x50 + r % 8);
    }

    method EmitPop(r: reg)
      requires Valid()
      modifies this`offset, this`stream, buf
      ensures Valid() && stream == old(stream) + Enc(Pop(r))
    {
      EmitBasicRex(false, 0, r);
      Emit1(0x58 + r % 8);
    }

    /** A one-byte opcode with two registers, or a register and an opcode extension, at 32 or 64 bits. */
    method EmitAlu(w: bool, op: byte, src: reg, dst: reg)
      requires Valid()
      modifies this`offset, this`stream, buf
      ensures Valid() && stream == old(stream) + (Rex(w, src, dst) + [op, ModRM(3, src, dst)])
    {
      hide Rex, ModRM;
      EmitBasicRex(w, src, dst);
      Emit1(op);
      EmitModRM(3, src, dst);
    }

    method EmitAluImm32(w: bool, op: byte, src: reg, dst: reg, imm: i32)
      requires Valid()
      modifies this`offset, this`stream, buf
      ensures Valid() && stream == old(stream) + (Rex(w, src, dst) + [op, ModRM(3, src, dst)] + LeBytes(imm, 4))
    {
      hide Rex, ModRM, LeBytes;
      EmitAlu(w, op, src, dst);
      Emit4(imm);
    }

    method EmitAluImm8(w: bool, op: byte, src: reg, dst: reg, imm: byte)
      requires Valid()
      modifies this`offset, this`stream, buf
      ensures Valid() && stream == old(stream) + (Rex(w, src, dst) + [op, ModRM(3, src, dst), imm])
    {
      hide Rex, ModRM;
      EmitAlu(w, op, src, dst);
      Emit1(imm);
    }

    method EmitMov(src: reg, dst: reg)
      requires Valid()
      modifies this`offset, this`stream, buf
      ensures Valid() && stream == old(stream) + Enc(RR(true, MovRR, src, dst))
    {
      EncRR(true, MovRR, src, dst);
      hide Enc;
      EmitAlu(true, 0x89, src, dst);
    }

    method EmitCmpImm32(dst: reg, imm: i32)
      requires Valid()
      modifies this`offset, this`stream, buf
      ensures Valid() && stream == old(stream) + Enc(RI(true, CmpRI, dst, imm))
    {
      EncRI(true, CmpRI, dst, imm);
      hide Enc;
      EmitAluImm32(true, 0x81, 7, dst, imm);
    }

    method EmitCmp(src: reg, dst: reg)
      requires Valid()
      modifies this`offset, this`stream, buf
      ensures Valid() && stream == old(stream) + Enc(RR(true, CmpRR, src, dst))
    {
      EncRR(true, CmpRR, src, dst);
      hide Enc;
      EmitAlu(true, 0x39, src, dst);
    }

    method EmitLoad(sz: Size, src: reg, dst: reg, d: i32)
      requires Valid()
      modifies this`offset, this`stream, buf
      ensures Valid() && stream == old(stream) + Enc(Ld(sz, src, dst, d))
    {
      hide MemOperand, Rex;
      EncLd(sz, src, dst, d);
      hide Enc;
      EmitBasicRex(sz.S64?, dst, src);
      if sz.S8? || sz.S16? {
        Emit1(0x0f);
        Emit1(if sz.S8? then 0xb6 else 0xb7);
      } else {
        Emit1(0x8b);
      }
      EmitModRMAndDisplacement(dst, src, d);
    }

    /** A constant, sign-extended from 32 bits when it fits. */
    method EmitLoadImm(dst: reg, imm: i64)
      requires Valid()
      modifies this`offset, this`stream, buf
      ensures Valid() && stream == old(stream) + Enc(LoadImm(dst, imm))
    {
      hide Rex, ModRM, LeBytes, Enc;
      if -TWO31 <= imm < TWO31 {
        EncRI(true, MovRI, dst, imm);
        EmitAluImm32(true, 0xc7, 0, dst, imm);
      } else {
        EncConstant(dst, imm);
        EmitBasicRex(true, 0, dst);
        Emit1(0xb8 + dst % 8);
        Emit8(imm);
        WordBytes(imm);
      }
    }

    method EmitStore(sz: Size, src: reg, dst: reg, d: i32)
      requires Valid()
      modifies this`offset, this`stream, buf
      ensures Valid() && stream == old(stream) + Enc(Str(sz, src, dst, d))
    {
      hide MemOperand, RexByte;
      EncStr(sz, src, dst, d);
      hide Enc;
      if sz.S16? {
        Emit1(0x66);
      }
      if sz.S64? || src >= 8 || dst >= 8 || sz.S8? {
        EmitRex(sz.S64?, src, dst);
      }
      Emit1(if sz.S8? then 0x88 else 0x89);
      EmitModRMAndDisplacement(src, dst, d);
    }

    method EmitStoreImm32(sz: Size, dst: reg, d: i32, imm: i32)
      requires Valid()
      modifies this`offset, this`stream, buf
      ensures Valid() && stream == old(stream) + Enc(StrI(sz, dst, d, StoreBits(sz, imm)))
    {
      hide MemOperand, Rex, LeBytes;
      EncStrI(sz, dst, d, StoreBits(sz, imm));
      hide Enc, StoreBits;
      if sz.S16? {
        Emit1(0x66);
      }
      EmitBasicRex(sz.S64?, 0, dst);
      Emit1(if sz.S8? then 0xc6 else 0xc7);
      EmitModRMAndDisplacement(0, dst, d);
      ImmediateBytes(sz, imm);
      if sz.S32? || sz.S64? {
        Emit4(imm);
      } else if sz.S16? {
        Emit2(imm);
      } else {
        Emit1(imm % 0x100);
      }
    }

    method EmitJcc(code: byte, targetPc: u32, ghost cc: CC, ghost target: Target)
      requires Valid() && code == CcByte(cc) && targetPc == TargetPc(target)
      modifies this`offset, this`stream, this`jumps, buf
      ensures Valid() && Grows(size, old(Out()), [JccTo(cc, target)], Out())
    {
      hide LeBytes, CcByte, Grows, TargetPc;
      Emit1(0x0f);
      Emit1(code);
      EmitJumpOffset(targetPc);
      assert old(stream) + [0x0f] + [code] == old(stream) + Head(JccTo(cc, target));
      GrowsJump(size, old(Out()), JccTo(cc, target), if |old(stream)| + 2 <= size then |old(stream)| + 2
        else size, Out());
    }

    method EmitJmp(targetPc: u32, ghost target: Target)
      requires Valid() && targetPc == TargetPc(target)
      modifies this`offset, this`stream, this`jumps, buf
      ensures Valid() && Grows(size, old(Out()), [JmpTo(target)], Out())
    {
      hide LeBytes, Grows, TargetPc;
      Emit1(0xe9);
      EmitJumpOffset(targetPc);
      GrowsJump(size, old(Out()), JmpTo(target), if |old(stream)| + 1 <= size then |old(stream)| + 1 else size, Out());
    }

    /** A RIP-relative load of a string's address, resolved later. */
    method EmitStringLoad(dst: reg, id: nat)
      requires Valid()
      modifies this`offset, this`stream, this`strings, buf
      ensures Valid() && Grows(size, old(Out()), [LeaString(dst, id)], Out())
    {
      hide LeBytes, RexByte, ModRM, Grows, Extended;
      if |strings| == MAX_INSTS {
        GrowsLea(size, Out(), dst, id, if |stream| + 7 <= size then |stream| + 7 else size, Out());
        return;
      }
      EmitBasicRex(true, RBP, dst);
      Emit1(0x8d);
      EmitModRM(0, dst, RBP);
      assert stream == old(stream) + Head(LeaString(dst, id));
      Emit4(0);
      strings := strings + [StringRef(offset, id)];
      GrowsLea(size, old(Out()), dst, id, offset, Out());
    }

    method EmitCall(target: u64)
      requires Valid()
      modifies this`offset, this`stream, buf
      ensures Valid() && Grows(size, old(Out()), CallCode(target), Out())
    {
      hide Enc, Grows;
      EmitLoadImm(RAX, Signed64(target));
      GrowsPlain(size, old(Out()), LoadImm(RAX, Signed64(target)));
      ghost var o := Out();
      Emit1(0xff);
      Emit1(0xd0);
      EncCall();
      assert stream == o.bytes + Enc(CallRax);
      GrowsPlain(size, o, CallRax);
      GrowsChain(size, old(Out()), [Plain(LoadImm(RAX, Signed64(target)))], o, [Plain(CallRax)], Out());
      assert CallCode(target) == [Plain(LoadImm(RAX, Signed64(target)))] + [Plain(CallRax)];
    }

    // ----- translation of one instruction -----

    method TranslateBinary(w: bool, op: AluOp, o: Operand, dst: reg, src: reg, imm: i32)
      requires Valid() && (op.Add? || op.Sub? || op.Or? || op.And? || op.Xor?)
      modifies this`offset, this`stream, buf
      ensures Valid()
      ensures Grows(size, old(Out()),
        [Plain(if o.Imm? then RI(w, AluRI(op), dst, imm) else RR(w, AluRR(op), src, dst))], Out())
    {
      hide Enc, Grows, Rex, ModRM, LeBytes;
      EncRI(w, AluRI(op), dst, imm);
      EncRR(w, AluRR(op), src, dst);
      if o.Imm? {
        EmitAluImm32(w, 0x81, match op case Add => 0 case Sub => 5 case Or => 1 case And => 4 case _ => 6, dst, imm);
      } else {
        var code := match op case Add => 0x01 case Sub => 0x29 case Or => 0x09 case And => 0x21 case _ => 0x31;
        EmitAlu(w, code, src, dst);
      }
      GrowsPlain(size, old(Out()), if o.Imm? then RI(w, AluRI(op), dst, imm) else RR(w, AluRR(op), src, dst));
    }

    method TranslateShift(w: Width, op: AluOp, o: Operand, dst: reg, src: reg, imm: i32)
      requires Valid() && (op.Lsh? || op.Rsh? || op.Arsh?)
      modifies this`offset, this`stream, buf
      ensures Valid() && Grows(size, old(Out()), ShiftCode(w, op, o, dst, src, imm), Out())
    {
      hide Enc, Grows, Rex, ModRM;
      var ext: reg := if op.Lsh? then 4 else if op.Rsh? then 5 else 7;
      if o.Imm? {
        EmitAluImm8(w.W64?, 0xc1, ext, dst, imm % 0x100);
        EncShI(w.W64?, AluSh(op), dst, imm % 0x100);
        GrowsPlain(size, old(Out()), ShI(w.W64?, AluSh(op), dst, imm % 0x100));
      } else {
        EmitMov(src, RCX);
        GrowsPlain(size, old(Out()), RR(true, MovRR, src, RCX));
        ghost var o1 := Out();
        EmitAlu(w.W64?, 0xd3, ext, dst);
        EncShCl(w.W64?, AluSh(op), dst);
        GrowsPlain(size, o1, ShCl(w.W64?, AluSh(op), dst));
        GrowsChain(size, old(Out()), [MovReg(src, RCX)], o1, [Plain(ShCl(w.W64?, AluSh(op), dst))], Out());
        assert [MovReg(src, RCX)] + [Plain(ShCl(w.W64?, AluSh(op), dst))] == ShiftCode(w, op, o, dst, src, imm);
      }
    }

    method TranslateMov(w: Width, o: Operand, dst: reg, src: reg, imm: i32)
      requires Valid()
      modifies this`offset, this`stream, buf
      ensures Valid() && Grows(size, old(Out()), MovCode(w, o, dst, src, imm), Out())
    {
      hide Enc, Grows, Rex, ModRM, LeBytes;
      if o.Reg? {
        EmitMov(src, dst);
        GrowsPlain(size, old(Out()), RR(true, MovRR, src, dst));
      } else if w.W32? {
        EmitAluImm32(false, 0xc7, 0, dst, imm);
        EncRI(false, MovRI, dst, imm);
        GrowsPlain(size, old(Out()), RI(false, MovRI, dst, imm));
      } else {
        EmitLoadImm(dst, imm);
        GrowsPlain(size, old(Out()), LoadImm(dst, imm));
      }
    }

    method EmitDivGuard(i: nat, w: Width, op: AluOp, src: reg)
      requires Valid() && (op.Mul? || op.Div? || op.Mod?)
      modifies this`offset, this`stream, this`jumps, buf
      ensures Valid() && Grows(size, old(Out()), DivGuard(i, w, op, src), Out())
    {
      hide Enc, Grows, Rex, ModRM;
      if op.Mul? {
        GrowsNone(size, Out());
        return;
      }
      EmitLoadImm(RCX, i % TWO16);
      GrowsPlain(size, old(Out()), LoadImm(RCX, i % TWO16));
      ghost var o1 := Out();
      EmitAlu(w.W64?, 0x85, src, src);
      EncRR(w.W64?, TestRR, src, src);
      GrowsPlain(size, o1, RR(w.W64?, TestRR, src, src));
      ghost var o2 := Out();
      EmitJcc(0x84, TARGET_PC_DIV_BY_ZERO, CcE, ToDivByZero);
      ghost var a, b, c := Plain(LoadImm(RCX, i % TWO16)), Plain(RR(w.W64?, TestRR, src, src)), JccTo(CcE, ToDivByZero);
      GrowsChain(size, old(Out()), [a], o1, [b], o2);
      GrowsChain(size, old(Out()), [a] + [b], o2, [c], Out());
      assert DivGuard(i, w, op, src) == [a] + [b] + [c];
    }

    method EmitSaveRegs(dst: reg)
      requires Valid()
      modifies this`offset, this`stream, buf
      ensures Valid() && Grows(size, old(Out()), SaveRegs(dst), Out())
    {
      hide Enc, Grows;
      GrowsNone(size, Out());
      if dst != RAX {
        EmitPush(RAX);
        GrowsPlain(size, old(Out()), Push(RAX));
      }
      ghost var o := Out();
      GrowsNone(size, o);
      if dst != RDX {
        EmitPush(RDX);
        GrowsPlain(size, o, Push(RDX));
      }
      GrowsChain(size, old(Out()), if dst != RAX then [Plain(Push(RAX))] else [],
                 o, if dst != RDX then [Plain(Push(RDX))] else [], Out());
    }

    method EmitCompute(w: Width, op: AluOp)
      requires Valid() && (op.Mul? || op.Div? || op.Mod?)
      modifies this`offset, this`stream, buf
      ensures Valid() && Grows(size, old(Out()), Compute(w, op), Out())
    {
      hide Enc, Grows, ModRM;
      GrowsNone(size, Out());
      if !op.Mul? {
        EncRR(false, XorRR, RDX, RDX);
        EmitAlu(false, 0x31, RDX, RDX);
        GrowsPlain(size, old(Out()), RR(false, XorRR, RDX, RDX));
      }
      ghost var o, un := Out(), if op.Mul? then MulR else DivR;
      EncUn(w.W64?, un, RCX);
      if w.W64? {
        EmitRex(true, 0, 0);
      }
      EmitAlu(false, 0xf7, if op.Mul? then 4 else 6, RCX);
      assert stream == o.bytes + Enc(Un(w.W64?, un, RCX));
      GrowsPlain(size, o, Un(w.W64?, un, RCX));
      GrowsChain(size, old(Out()), if op.Mul? then [] else [Plain(RR(false, XorRR, RDX, RDX))],
                 o, [Plain(Un(w.W64?, un, RCX))], Out());
      assert Compute(w, op) == (if op.Mul? then [] else [Plain(RR(false, XorRR, RDX, RDX))]) +
        [Plain(Un(w.W64?, un, RCX))];
    }

    /** Move the result from `result` if `deliver`, then restore `saved`. */
    method EmitRestore(deliver: bool, saved: reg, dst: reg)
      requires Valid()
      modifies this`offset, this`stream, buf
      ensures Valid()
      ensures Grows(size, old(Out()), (if deliver then [MovReg(saved, dst)] else []) + [Plain(Pop(saved))], Out())
    {
      hide Enc, Grows;
      GrowsNone(size, Out());
      if deliver {
        EmitMov(saved, dst);
        GrowsPlain(size, old(Out()), RR(true, MovRR, saved, dst));
      }
      ghost var o := Out();
      EmitPop(saved);
      GrowsPlain(size, o, Pop(saved));
      GrowsChain(size, old(Out()), if deliver then [MovReg(saved, dst)] else [], o, [Plain(Pop(saved))], Out());
    }

    method EmitDeliver(op: AluOp, dst: reg)
      requires Valid() && (op.Mul? || op.Div? || op.Mod?)
      modifies this`offset, this`stream, buf
      ensures Valid() && Grows(size, old(Out()), Deliver(op, dst), Out())
    {
      hide Grows;
      GrowsNone(size, Out());
      if dst != RDX {
        EmitRestore(op.Mod?, RDX, dst);
      }
      ghost var o := Out();
      GrowsNone(size, o);
      if dst != RAX {
        EmitRestore(!op.Mod?, RAX, dst);
      }
      GrowsChain(size, old(Out()), if dst != RDX then (if op.Mod? then [MovReg(RDX, dst)] else []) + [Plain(Pop(RDX))]
        else [],
                 o, if dst != RAX then (if op.Mod? then [] else [MovReg(RAX, dst)]) + [Plain(Pop(RAX))] else [], Out());
    }

    method EmitMulDivMod(i: nat, w: Width, op: AluOp, src: reg, dst: reg, imm: i32)
      requires Valid() && (op.Mul? || op.Div? || op.Mod?)
      modifies this`offset, this`stream, this`jumps, buf
      ensures Valid() && Grows(size, old(Out()), MulDivMod(i, w, op, src, dst, imm), Out())
    {
      hide Enc, Grows, DivGuard, SaveRegs, Compute, Deliver;
      EmitDivGuard(i, w, op, src);
      ghost var o0, o1, code := old(Out()), Out(), DivGuard(i, w, op, src);
      EmitSaveRegs(dst);
      GrowsChain(size, o0, code, o1, SaveRegs(dst), Out());
      o1, code := Out(), code + SaveRegs(dst);
      if imm != 0 {
        EmitLoadImm(RCX, imm);
        GrowsPlain(size, o1, LoadImm(RCX, imm));
      } else {
        EmitMov(src, RCX);
        GrowsPlain(size, o1, RR(true, MovRR, src, RCX));
      }
      GrowsChain(size, o0, code, o1, [SecondOperand(src, imm)], Out());
      o1, code := Out(), code + [SecondOperand(src, imm)];
      EmitMov(dst, RAX);
      GrowsPlain(size, o1, RR(true, MovRR, dst, RAX));
      GrowsChain(size, o0, code, o1, [MovReg(dst, RAX)], Out());
      assert code + [MovReg(dst, RAX)] ==
        DivGuard(i, w, op, src) + SaveRegs(dst) + [SecondOperand(src, imm), MovReg(dst, RAX)];
      o1, code := Out(), code + [MovReg(dst, RAX)];
      EmitCompute(w, op);
      GrowsChain(size, o0, code, o1, Compute(w, op), Out());
      o1, code := Out(), code + Compute(w, op);
      EmitDeliver(op, dst);
      GrowsChain(size, o0, code, o1, Deliver(op, dst), Out());
    }

    method TranslateAlu(i: nat, w: Width, op: AluOp, o: Operand, dst: reg, src: reg, imm: i32)
      requires Valid()
      modifies this`offset, this`stream, this`jumps, buf
      ensures Valid() && Grows(size, old(Out()), Select.AluCode(i, w, op, o, dst, src, imm), Out())
    {
      hide Enc, Grows, AluRI, AluRR, MulDivMod, ShiftCode, MovCode;
      match op {
        case Mul => EmitMulDivMod(i, w, op, src, dst, imm);
        case Div => EmitMulDivMod(i, w, op, src, dst, imm);
        case Mod => EmitMulDivMod(i, w, op, src, dst, imm);
        case Mov => TranslateMov(w, o, dst, src, imm);
        case Lsh => TranslateShift(w, op, o, dst, src, imm);
        case Rsh => TranslateShift(w, op, o, dst, src, imm);
        case Arsh => TranslateShift(w, op, o, dst, src, imm);
        case _ => TranslateBinary(w.W64?, op, o, dst, src, imm);
      }
    }

    /** Little-endian conversion emits nothing. */
    method TranslateEnd(big: bool, dst: reg, imm: i32)
      requires Valid()
      modifies this`offset, this`stream, buf
      ensures Valid() && Grows(size, old(Out()), EndCode(big, dst, imm), Out())
    {
      hide Enc, Grows, Rex, ModRM, LeBytes;
      GrowsNone(size, Out());
      if big && imm == 16 {
        EncRol(dst, 8);
        Emit1(0x66);
        EmitAluImm8(false, 0xc1, 0, dst, 8);
        assert stream == old(stream) + Enc(Rol16(dst, 8));
        GrowsPlain(size, old(Out()), Rol16(dst, 8));
        ghost var o := Out();
        EmitAluImm32(false, 0x81, 4, dst, 0xffff);
        EncRI(false, AndRI, dst, 0xffff);
        GrowsPlain(size, o, RI(false, AndRI, dst, 0xffff));
        GrowsChain(size, old(Out()), [Plain(Rol16(dst, 8))], o, [Plain(RI(false, AndRI, dst, 0xffff))], Out());
        assert EndCode(big, dst, imm) == [Plain(Rol16(dst, 8))] + [Plain(RI(false, AndRI, dst, 0xffff))];
      } else if big && (imm == 32 || imm == 64) {
        EncBswap(imm == 64, dst);
        EmitBasicRex(imm == 64, 0, dst);
        Emit1(0x0f);
        Emit1(0xc8 + dst % 8);
        assert stream == old(stream) + Enc(Bswap(imm == 64, dst));
        GrowsPlain(size, old(Out()), Bswap(imm == 64, dst));
      }
    }

    method TranslateJump(c: Cond, o: Operand, dst: reg, src: reg, imm: i32, targetPc: u32, ghost target: Target)
      requires Valid() && targetPc == TargetPc(target)
      modifies this`offset, this`stream, this`jumps, buf
      ensures Valid() && Grows(size, old(Out()), JumpCode(c, o, dst, src, imm, target), Out())
    {
      hide Enc, Grows, Rex, ModRM, LeBytes, TargetPc;
      ghost var x := CompareOf(c, o, dst, src, imm);
      if c.Set? {
        if o.Imm? {
          EmitAluImm32(true, 0xf7, 0, dst, imm);
          EncRI(true, TestRI, dst, imm);
        } else {
          EmitAlu(true, 0x85, src, dst);
          EncRR(true, TestRR, src, dst);
        }
      } else if o.Imm? {
        EmitCmpImm32(dst, imm);
      } else {
        EmitCmp(src, dst);
      }
      GrowsPlain(size, old(Out()), x);
      ghost var o1 := Out();
      EmitJcc(match c
              case Eq => 0x84 case Gt => 0x87 case Ge => 0x83 case Lt => 0x82 case Le => 0x86 case Set => 0x85
              case Ne => 0x85 case Sgt => 0x8f case Sge => 0x8d case Slt => 0x8c case Sle => 0x8e,
              targetPc, CondCc(c), target);
      GrowsChain(size, old(Out()), [Plain(x)], o1, [JccTo(CondCc(c), target)], Out());
      assert JumpCode(c, o, dst, src, imm, target) == [Plain(x)] + [JccTo(CondCc(c), target)];
    }

    method TranslateCall(target: u64, unwind: bool)
      requires Valid()
      modifies this`offset, this`stream, this`jumps, buf
      ensures Valid() && Grows(size, old(Out()), HelperCode(target, unwind), Out())
    {
      hide Enc, Grows, CallCode;
      EmitMov(R9, RCX);
      GrowsPlain(size, old(Out()), RR(true, MovRR, R9, RCX));
      ghost var o1 := Out();
      EmitCall(target);
      GrowsChain(size, old(Out()), [MovReg(R9, RCX)], o1, CallCode(target), Out());
      if unwind {
        ghost var o2 := Out();
        EmitCmpImm32(MapRegister(0), 0);
        GrowsPlain(size, o2, RI(true, CmpRI, MapRegister(0), 0));
        ghost var o3 := Out();
        EmitJcc(0x84, TARGET_PC_EXIT, CcE, ToExit);
        ghost var a, b := Plain(RI(true, CmpRI, MapRegister(0), 0)), JccTo(CcE, ToExit);
        GrowsChain(size, o2, [a], o3, [b], Out());
        assert [a] + [b] == [a, b];
        GrowsChain(size, old(Out()), [MovReg(R9, RCX)] + CallCode(target), o2, [a, b], Out());
      } else {
        assert [MovReg(R9, RCX)] + CallCode(target) + [] == [MovReg(R9, RCX)] + CallCode(target);
      }
    }

    method TranslateLoad(sz: Size, src: reg, dst: reg, d: i32)
      requires Valid()
      modifies this`offset, this`stream, buf
      ensures Valid() && Grows(size, old(Out()), [Plain(Ld(sz, src, dst, d))], Out())
    {
      hide Enc, Grows;
      EmitLoad(sz, src, dst, d);
      GrowsPlain(size, old(Out()), Ld(sz, src, dst, d));
    }

    method TranslateStore(sz: Size, src: reg, dst: reg, d: i32)
      requires Valid()
      modifies this`offset, this`stream, buf
      ensures Valid() && Grows(size, old(Out()), [Plain(Str(sz, src, dst, d))], Out())
    {
      hide Enc, Grows;
      EmitStore(sz, src, dst, d);
      GrowsPlain(size, old(Out()), Str(sz, src, dst, d));
    }

    method TranslateStoreImm(sz: Size, dst: reg, d: i32, imm: i32)
      requires Valid()
      modifies this`offset, this`stream, buf
      ensures Valid() && Grows(size, old(Out()), [Plain(StrI(sz, dst, d, StoreBits(sz, imm)))], Out())
    {
      hide Enc, Grows, StoreBits;
      EmitStoreImm32(sz, dst, d, imm);
      GrowsPlain(size, old(Out()), StrI(sz, dst, d, StoreBits(sz, imm)));
    }

    method TranslateNeg(w: bool, dst: reg)
      requires Valid()
      modifies this`offset, this`stream, buf
      ensures Valid() && Grows(size, old(Out()), [Plain(Un(w, NegR, dst))], Out())
    {
      hide Enc, Grows, Rex, ModRM;
      EncUn(w, NegR, dst);
      EmitAlu(w, 0xf7, 3, dst);
      GrowsPlain(size, old(Out()), Un(w, NegR, dst));
    }

    method TranslateLoadImm(dst: reg, imm: i64)
      requires Valid()
      modifies this`offset, this`stream, buf
      ensures Valid() && Grows(size, old(Out()), [Plain(LoadImm(dst, imm))], Out())
    {
      hide Enc, Grows, LoadImm;
      EmitLoadImm(dst, imm);
      GrowsPlain(size, old(Out()), LoadImm(dst, imm));
    }

    /** One instruction. An unknown opcode emits nothing and is an error. */
    method TranslateInst(p: Source, i: nat) returns (known: bool)
      requires Valid() && Readable(p) && i < |p.insts|
      modifies this`offset, this`stream, this`jumps, buf
      ensures Valid() && known == DecodeOp(p.insts[i].opcode).Some?
      ensures Grows(size, old(Out()), Code(p, i), Out())
    {
      hide Enc, Grows, Select.AluCode, EndCode, JumpCode, HelperCode, StoreBits, LoadImm, SlotTarget, TargetPc,
        DecodeOp, LddwBits, MapRegister;
      var inst := p.insts[i];
      var dst, src := MapRegister(inst.dst), MapRegister(inst.src);
      var targetPc := (i + inst.offset + 1) % TWO32;
      GrowsNone(size, Out());
      var op := DecodeOp(inst.opcode);
      if op.None? {
        return false;
      }
      SlotIsTarget(p, i);
      match op.value {
        case Alu(w, a, o) => TranslateAlu(i, w, a, o, dst, src, inst.imm);
        case Neg(w) => TranslateNeg(w.W64?, dst);
        case End(big) => TranslateEnd(big, dst, inst.imm);
        case Ldx(sz) => TranslateLoad(sz, src, dst, inst.offset);
        case St(sz) => TranslateStoreImm(sz, dst, inst.offset, inst.imm);
        case Stx(sz) => TranslateStore(sz, src, dst, inst.offset);
        case Lddw => TranslateLoadImm(dst, Signed64(LddwBits(inst.imm, p.insts[i + 1].imm)));
        case Ja => EmitJmp(targetPc, SlotTarget(i, inst.offset));
        case Jmp(c, o) => TranslateJump(c, o, dst, src, inst.imm, targetPc, SlotTarget(i, inst.offset));
        case Exit =>
          if i != |p.insts| - 1 {
            EmitJmp(TARGET_PC_EXIT, ToExit);
          }
        case Call => TranslateCall(p.extFuncs[inst.imm], inst.imm == p.unwindIndex);
      }
      return true;
    }

    // ----- the whole program -----

    /** The prologue. Register 1 is the first parameter register already, so no move is needed for it. */
    method EmitPrologue()
      requires Valid()
      modifies this`offset, this`stream, buf
      ensures Valid() && Grows(size, old(Out()), Prologue(), Out())
    {
      hide Enc, Grows, Pushes, Rex, ModRM, LeBytes;
      ghost var o0 := Out();
      GrowsNone(size, o0);
      assert Pushes([]) == [] by { NoPushes(); }
      for i := 0 to |NONVOLATILE|
        invariant Valid() && jumps == o0.jumps && strings == o0.strings
        invariant Grows(size, o0, Pushes(NONVOLATILE[..i]), Out())
      {
        ghost var o := Out();
        EmitPush(NONVOLATILE[i]);
        GrowsPlain(size, o, Push(NONVOLATILE[i]));
        GrowsChain(size, o0, Pushes(NONVOLATILE[..i]), o, [Plain(Push(NONVOLATILE[i]))], Out());
        PushesSnoc(NONVOLATILE, i);
      }
      assert NONVOLATILE[..|NONVOLATILE|] == NONVOLATILE;
      ghost var o1 := Out();
      EmitMov(RSP, MapRegister(10));
      GrowsPlain(size, o1, RR(true, MovRR, RSP, MapRegister(10)));
      ghost var o2 := Out();
      EmitAluImm32(true, 0x81, 5, RSP, STACK_SIZE);
      EncRI(true, SubRI, RSP, STACK_SIZE);
      GrowsPlain(size, o2, RI(true, SubRI, RSP, STACK_SIZE));
      ghost var a, b := MovReg(RSP, MapRegister(10)), Plain(RI(true, SubRI, RSP, STACK_SIZE));
      GrowsChain(size, o1, [a], o2, [b], Out());
      GrowsChain(size, o0, Pushes(NONVOLATILE), o1, [a] + [b], Out());
      assert [a] + [b] == [a, b];
    }

    /** The epilogue. Register 0 is RAX already. */
    method EmitEpilogue()
      requires Valid()
      modifies this`offset, this`stream, buf
      ensures Valid() && Grows(size, old(Out()), Epilogue(), Out())
    {
      hide Enc, Grows, Pops, Rex, ModRM, LeBytes;
      ghost var o0, n := Out(), |NONVOLATILE|;
      EmitAluImm32(true, 0x81, 0, RSP, STACK_SIZE);
      EncRI(true, AddRI, RSP, STACK_SIZE);
      GrowsPlain(size, o0, RI(true, AddRI, RSP, STACK_SIZE));
      ghost var o1 := Out();
      GrowsNone(size, o1);
      assert Pops(NONVOLATILE[n..]) == [] by { NoPushes(); }
      for i := 0 to |NONVOLATILE|
        invariant Valid() && jumps == o0.jumps && strings == o0.strings
        invariant Grows(size, o1, Pops(NONVOLATILE[n - i..]), Out())
      {
        ghost var o := Out();
        EmitPop(NONVOLATILE[|NONVOLATILE| - i - 1]);
        GrowsPlain(size, o, Pop(NONVOLATILE[n - i - 1]));
        GrowsChain(size, o1, Pops(NONVOLATILE[n - i..]), o, [Plain(Pop(NONVOLATILE[n - i - 1]))], Out());
        PopsCons(NONVOLATILE, n - i - 1);
      }
      assert NONVOLATILE[0..] == NONVOLATILE;
      ghost var o2 := Out();
      Emit1(0xc3);
      EncRet();
      GrowsPlain(size, o2, Ret);
      ghost var a := Plain(RI(true, AddRI, RSP, STACK_SIZE));
      GrowsChain(size, o0, [a], o1, Pops(NONVOLATILE), o2);
      GrowsChain(size, o0, [a] + Pops(NONVOLATILE), o2, [Plain(Ret)], Out());
    }

    method EmitDivHandler(p: Source)
      requires Valid()
      modifies this`offset, this`stream, this`jumps, this`strings, buf
      ensures Valid() && Grows(size, old(Out()), DivHandler(p), Out())
    {
      hide Enc, Grows, LoadImm, CallCode;
      ghost var o0 := Out();
      EmitMov(RCX, RDX);
      GrowsPlain(size, o0, RR(true, MovRR, RCX, RDX));
      ghost var o, code := Out(), [MovReg(RCX, RDX)];
      EmitStringLoad(RSI, 0);
      GrowsChain(size, o0, code, o, [LeaString(RSI, 0)], Out());
      o, code := Out(), code + [LeaString(RSI, 0)];
      EmitLoadImm(RDI, Signed64(p.stderr));
      GrowsPlain(size, o, LoadImm(RDI, Signed64(p.stderr)));
      GrowsChain(size, o0, code, o, [Plain(LoadImm(RDI, Signed64(p.stderr)))], Out());
      o, code := Out(), code + [Plain(LoadImm(RDI, Signed64(p.stderr)))];
      EmitCall(p.errorPrintf);
      GrowsChain(size, o0, code, o, CallCode(p.errorPrintf), Out());
      o, code := Out(), code + CallCode(p.errorPrintf);
      EmitLoadImm(MapRegister(0), -1);
      GrowsPlain(size, o, LoadImm(MapRegister(0), -1));
      GrowsChain(size, o0, code, o, [Plain(LoadImm(MapRegister(0), -1))], Out());
      o, code := Out(), code + [Plain(LoadImm(MapRegister(0), -1))];
      EmitJmp(TARGET_PC_EXIT, ToExit);
      GrowsChain(size, o0, code, o, [JmpTo(ToExit)], Out());
      assert code + [JmpTo(ToExit)] == DivHandler(p);
    }

    /** The table of locations says what `locs` says, and 0 elsewhere. */
    ghost predicate PcLocsAre(locs: map<nat, nat>)
      reads pcLocs
    {
      forall k :: 0 <= k < pcLocs.Length ==> pcLocs[k] == if k in locs then locs[k] else 0
    }

    /** The translation loop: the location of each instruction is recorded, then its code emitted. */
    method TranslateBody(p: Source) returns (known: bool)
      requires Valid() && Readable(p) && PcLocsAre(map[])
      modifies this`offset, this`stream, this`jumps, buf, pcLocs
      ensures Valid() && known == Known(p, 0)
      ensures known ==> Grows(size, old(Out()), BodyCode(p, 0), Out())
      ensures known && Fits(size, Out()) ==> PcLocsAre(Locs(p, 0, old(|stream|)))
    {
      hide Grows, Code, CodeLen, Fits, Extended, BodyCode, Locs, Known, DecodeOp;
      ghost var o0, done: seq<Asm> := Out(), [];
      ghost var seen: map<nat, nat> := map[];
      GrowsNone(size, o0);
      assert CodeLen([]) == 0 by { NoCode(); }
      assert BodyCode(p, 0) == [] + BodyCode(p, 0) && Locs(p, 0, |o0.bytes|) == Locs(p, 0, |o0.bytes|) + map[];
      var i := 0;
      while i < |p.insts|
        invariant Valid() && Known(p, 0) == Known(p, i)
        invariant Grows(size, o0, done, Out()) && BodyCode(p, 0) == done + BodyCode(p, i)
        invariant Fits(size, Out()) ==> PcLocsAre(seen)
        invariant forall k :: k in seen ==> k < i
        invariant Locs(p, 0, |o0.bytes|) == Locs(p, i, |o0.bytes| + CodeLen(done)) + seen
      {
        KnownStep(p, i);
        pcLocs[i] := offset;
        ghost var o1 := Out();
        known := TranslateInst(p, i);
        if !known {
          return;
        }
        GrowsChain(size, o0, done, o1, Code(p, i), Out());
        if Fits(size, Out()) {
          GrowsFits(size, o1, Code(p, i), Out());
          GrowsFits(size, o0, done, o1);
        }
        LocsStep(p, i, |o0.bytes| + CodeLen(done), seen);
        CodeLenAppend(done, Code(p, i));
        BodyStep(p, i, done);
        seen := seen[i := |o0.bytes| + CodeLen(done)];
        done := done + Code(p, i);
        i := V.After(p.insts, i);
      }
      KnownStep(p, i);
      BodyEnd(p, i, |o0.bytes| + CodeLen(done), done, seen);
      known := true;
    }

    /** Each string with its NUL. */
    method EmitStringTable(table: seq<string>)
      requires Valid()
      modifies this`offset, this`stream, buf
      ensures Valid() && stream == old(stream) + StringBytes(table)
    {
      hide CString;
      ghost var before := stream;
      assert StringBytes(table[..0]) == [];
      for i := 0 to |table|
        invariant Valid() && stream == before + StringBytes(table[..i])
      {
        hide StringBytes;
        EmitBytes(CString(table[i]));
        StringBytesSnoc(table, i);
        assert before + (StringBytes(table[..i]) + CString(table[i])) ==
          before + StringBytes(table[..i]) + CString(table[i]);
      }
      assert table[..|table|] == table;
    }

    ghost predicate PlacesAre(l: Places)
      reads this, pcLocs
    {
      exitLoc == l.exit && divByZeroLoc == l.divByZero && stringTableLoc == l.strings && PcLocsAre(l.locs)
    }

    /** The whole program: everything emitted and every place recorded, or there was no room. */
    method Translate(p: Source) returns (known: bool)
      requires Valid() && Readable(p) && PcLocsAre(map[]) && Out() == Output([], [], [])
      modifies this, buf, pcLocs
      ensures Valid() && known == Known(p, 0)
      ensures known ==> Out() == Emitted(p) || (!Fits(size, Out()) && !Fits(size, Emitted(p)))
      ensures known && Fits(size, Out()) ==> PlacesAre(PlacesOf(p))
    {
      hide Grows, Fits, Extended, Prologue, BodyCode, Epilogue, DivHandler, Known, Readable, CodeLen, Locs, StringBytes;
      ghost var o0 := Out();
      EmitPrologue();
      ghost var o1 := Out();
      known := TranslateBody(p);
      if !known {
        return;
      }
      ghost var o2 := Out();
      GrowsChain(size, o0, Prologue(), o1, BodyCode(p, 0), o2);
      exitLoc := offset;
      EmitEpilogue();
      ghost var o3 := Out();
      GrowsChain(size, o0, Prologue() + BodyCode(p, 0), o2, Epilogue(), o3);
      divByZeroLoc := offset;
      EmitDivHandler(p);
      ghost var o4 := Out();
      GrowsChain(size, o0, Prologue() + BodyCode(p, 0) + Epilogue(), o3, DivHandler(p), o4);
      stringTableLoc := offset;
      EmitStringTable(STRING_TABLE);
      GrowsStrings(size, p, o4, Out());
      if Fits(size, Out()) {
        assert Fits(size, o4);
        GrowsFits(size, o3, DivHandler(p), o4);
        GrowsFits(size, o2, Epilogue(), o3);
        GrowsFits(size, o1, BodyCode(p, 0), o2);
        GrowsFits(size, o0, Prologue(), o1);
      }
    }

    // ----- back-patching -----

    method ResolveJumps(ghost l: Places)
      requires Valid() && |stream| < size && PlacesAre(l) && JumpsFit(jumps, |stream|) && TargetsExist(jumps)
      modifies this`stream, buf
      ensures Valid() && stream == PatchJumps(old(stream), jumps, l)
    {
      hide Patch, LeBytes;
      for i := 0 to |jumps|
        invariant Valid() && |stream| == |old(stream)| && PlacesAre(l)
        invariant PatchJumps(old(stream), jumps, l) == PatchJumps(stream, jumps[i..], l)
      {
        var jump := jumps[i];
        assert TargetExists(jump);
        var targetLoc;
        if jump.targetPc == TARGET_PC_EXIT {
          targetLoc := exitLoc;
        } else if jump.targetPc == TARGET_PC_DIV_BY_ZERO {
          targetLoc := divByZeroLoc;
        } else {
          targetLoc := pcLocs[jump.targetPc];
        }
        assert targetLoc == PlaceOf(l, jump.targetPc);
        var rel: int := targetLoc - (jump.offsetLoc + 4);
        assert jumps[i..] == [jump] + jumps[i + 1..];
        PatchJumpsHead(stream, jump, jumps[i + 1..], l);
        Overwrite(jump.offsetLoc, rel);
      }
    }

    /** Four bytes, least significant first, at `at`. */
    method Overwrite(at: nat, v: int)
      requires Valid() && |stream| < size && at + 4 <= |stream|
      modifies this`stream, buf
      ensures Valid() && stream == Patch(old(stream), at, v)
    {
      hide LeBytes;
      var bytes := LeBytes(v, 4);
      assert buf[..|stream|] == stream;
      buf[at], buf[at + 1], buf[at + 2], buf[at + 3] := bytes[0], bytes[1], bytes[2], bytes[3];
      assert bytes == [bytes[0], bytes[1], bytes[2], bytes[3]];
      assert buf[..|stream|] == stream[..at] + bytes + stream[at + 4..];
      stream := stream[..at] + bytes + stream[at + 4..];
    }

    method StringOffsetFromId(id: nat) returns (r: nat)
      requires id <= |STRING_TABLE|
      ensures r == stringTableLoc + StringOffset(id)
    {
      r := stringTableLoc;
      assert StringOffset(0) == 0;
      for i := 0 to id
        invariant r == stringTableLoc + StringOffset(i)
      {
        r := r + |STRING_TABLE[i]| + 1;
      }
    }

    method ResolveStrings(ghost l: Places)
      requires Valid() && |stream| < size && PlacesAre(l) && StringsFit(strings, |stream|)
      requires forall i :: 0 <= i < |strings| ==> strings[i].id <= |STRING_TABLE|
      modifies this`stream, buf
      ensures Valid() && stream == PatchStrings(old(stream), strings, l)
    {
      hide Patch, LeBytes, StringOffset;
      for i := 0 to |strings|
        invariant Valid() && |stream| == |old(stream)| && PlacesAre(l)
        invariant PatchStrings(old(stream), strings, l) == PatchStrings(stream, strings[i..], l)
      {
        var ref := strings[i];
        var at := StringOffsetFromId(ref.id);
        var rel: int := at - ref.offsetLoc;
        assert strings[i..][1..] == strings[i + 1..];
        Overwrite(ref.offsetLoc - 4, rel);
      }
    }
  }

  predicate TargetsExist(jumps: seq<Jump>)
  {
    forall i :: 0 <= i < |jumps| ==> TargetExists(jumps[i])
  }

  lemma {:induction false} SitesExist(code: seq<Asm>, off: nat)
    ensures TargetsExist(JumpSites(code, off))
    decreases |code|
  {
    hide AsmLen;
    if code != [] {
      SitesExist(code[1..], off + AsmLen(code[0]));
    }
  }

  /** Everything translation has to emit. */
  function Emitted(p: Source): Output
  {
    var e := Extended(Output([], [], []), AllCode(p));
    Output(e.bytes + StringBytes(STRING_TABLE), e.jumps, e.strings)
  }

  lemma GrowsStrings(size: nat, p: Source, o4: Output, o5: Output)
    requires Grows(size, Output([], [], []), AllCode(p), o4)
    requires o5 == Output(o4.bytes + StringBytes(STRING_TABLE), o4.jumps, o4.strings)
    ensures o5 == Emitted(p) || (!Fits(size, o5) && !Fits(size, Emitted(p)))
    ensures Fits(size, o5) ==> Fits(size, o4) && |o4.bytes| < size
  {
    hide Extended, AllCode, StringBytes;
  }

  lemma LocsStep(p: Source, i: nat, off: nat, seen: map<nat, nat>)
    requires i < |p.insts| && i !in seen
    ensures Locs(p, i, off) + seen == Locs(p, V.After(p.insts, i), off + CodeLen(Code(p, i))) + seen[i := off]
  {
    hide Code, CodeLen;
    var next := Locs(p, V.After(p.insts, i), off + CodeLen(Code(p, i)));
    assert Locs(p, i, off) == next[i := off];
    hide Locs;
  }

  lemma BodyStep(p: Source, i: nat, done: seq<Asm>)
    requires i < |p.insts|
    ensures done + BodyCode(p, i) == done + Code(p, i) + BodyCode(p, V.After(p.insts, i))
  {
    hide Code;
    assert BodyCode(p, i) == Code(p, i) + BodyCode(p, V.After(p.insts, i));
  }

  lemma BodyEnd(p: Source, i: nat, off: nat, done: seq<Asm>, seen: map<nat, nat>)
    requires i >= |p.insts|
    ensures done + BodyCode(p, i) == done && Locs(p, i, off) + seen == seen
  {
  }

  lemma NoPushes()
    ensures Pushes([]) == [] && Pops([]) == []
  {
  }

  lemma {:induction false} PushesSnoc(rs: seq<reg>, i: nat)
    requires i < |rs|
    ensures Pushes(rs[..i + 1]) == Pushes(rs[..i]) + [Plain(Push(rs[i]))]
    decreases i
  {
    var a, b := rs[..i + 1], rs[..i];
    if i > 0 {
      PushesSnoc(rs[1..], i - 1);
      assert a[1..] == rs[1..][..i] && b[1..] == rs[1..][..i - 1];
    } else {
      assert a[1..] == [];
    }
  }

  lemma PopsCons(rs: seq<reg>, i: nat)
    requires i < |rs|
    ensures Pops(rs[i..]) == Pops(rs[i + 1..]) + [Plain(Pop(rs[i]))]
  {
    assert rs[i..][1..] == rs[i + 1..];
  }

  // ----- the entry point -----

  /** Only known instructions, and room for the code and for both tables. */
  predicate Translatable(p: Source, size: nat)
  {
    && Known(p, 0) && |Image(p)| < size
    && |JumpSites(AllCode(p), 0)| < MAX_INSTS && |StringSites(AllCode(p), 0)| < MAX_INSTS
  }

  /**
   * The code generator. It succeeds exactly when everything fits, and then the buffer starts with the finished image:
   * nothing dropped, every displacement patched, every other byte as emitted. The size is cut to 32 bits; sums of
   * offsets never wrap, the whole image being shorter than 2 GiB.
   */
  method UbpfTranslate(p: Source, buffer: array<byte>, size: nat) returns (r: TranslateResult)
    requires Readable(p) && size <= buffer.Length
    modifies buffer
    ensures r.UnknownInstruction? <==> !Known(p, 0)
    ensures r.Translated? <==> Translatable(p, size % TWO32)
    ensures r.Translated? ==> r.size <= size && r.size == |Image(p)| && buffer[..r.size] == Image(p)
  {
    hide Known, Readable, PlacesOf, Image, Emitted, PatchJumps, PatchStrings, AllCode, JumpSites, StringSites;
    var state := new JitState(buffer, size % TWO32);
    var known := state.Translate(p);
    if !known {
      return UnknownInstruction;
    }
    EmittedSizes(p);
    if |state.jumps| == MAX_INSTS {
      return ExcessiveJumps;
    }
    if |state.strings| == MAX_INSTS {
      return ExcessiveStrings;
    }
    if state.offset == state.size {
      return BufferTooSmall;
    }
    assert state.Out() == Emitted(p);
    EmittedFits(p);
    state.ResolveJumps(PlacesOf(p));
    state.ResolveStrings(PlacesOf(p));
    PatchedIsImage(p);
    return Translated(state.offset);
  }

  lemma {:induction false} LinkBlank(code: seq<Asm>, off: nat, l: Places)
    ensures Link(code, off, NoPlaces, Blank) == Link(code, off, l, Blank)
    decreases |code|
  {
    hide Enc, Placed, AsmLen;
    if code != [] {
      LinkBlank(code[1..], off + AsmLen(code[0]), l);
    }
  }

  lemma EmittedSizes(p: Source)
    ensures |Emitted(p).bytes| == |Image(p)|
    ensures Emitted(p).jumps == JumpSites(AllCode(p), 0) && Emitted(p).strings == StringSites(AllCode(p), 0)
  {
    hide AllCode, PlacesOf, Link, StringBytes, JumpSites, StringSites;
    LinkLen(AllCode(p), 0, NoPlaces, Blank);
    LinkLen(AllCode(p), 0, PlacesOf(p), AllDone);
  }

  /** Back-patching what was emitted gives the image. */
  lemma PatchedIsImage(p: Source)
    ensures var e := Emitted(p);
      PatchStrings(PatchJumps(e.bytes, e.jumps, PlacesOf(p)), e.strings, PlacesOf(p)) == Image(p)
  {
    hide AllCode, PlacesOf, Link, StringBytes, JumpSites, StringSites, PatchJumps, PatchStrings;
    var code, l, post := AllCode(p), PlacesOf(p), StringBytes(STRING_TABLE);
    LinkBlank(code, 0, l);
    EmittedSizes(p);
    var empty: seq<byte> := [];
    PatchJumpsLink(empty, code, post, l);
    PatchStringsLink(empty, code, post, l);
    assert Emitted(p).bytes == empty + Link(code, 0, l, Blank) + post;
    assert empty + Link(code, 0, l, AllDone) + post == Link(code, 0, l, AllDone) + post;
  }

  lemma {:induction false} SiteIds(code: seq<Asm>, off: nat)
    requires AllWellFormed(code)
    ensures forall k :: 0 <= k < |StringSites(code, off)| ==> StringSites(code, off)[k].id < |STRING_TABLE|
    decreases |code|
  {
    hide AsmLen, Encodable;
    if code != [] {
      assert WellFormed(code[0]);
      assert forall k :: 0 <= k < |code[1..]| ==> code[1..][k] == code[k + 1];
      SiteIds(code[1..], off + AsmLen(code[0]));
    }
  }

  lemma {:induction false} BodyWellFormed(p: Source, i: nat)
    ensures AllWellFormed(BodyCode(p, i))
    decreases |p.insts| - i
  {
    hide Code, WellFormed;
    if i < |p.insts| {
      CodeWellFormed(p, i);
      BodyWellFormed(p, V.After(p.insts, i));
      AppendWellFormed(Code(p, i), BodyCode(p, V.After(p.insts, i)));
    }
  }

  /** Every recorded jump and string load lies inside the buffer and names something that exists. */
  lemma EmittedFits(p: Source)
    ensures JumpsFit(Emitted(p).jumps, |Emitted(p).bytes|) && TargetsExist(Emitted(p).jumps)
    ensures StringsFit(Emitted(p).strings, |Emitted(p).bytes|)
    ensures forall k :: 0 <= k < |Emitted(p).strings| ==> Emitted(p).strings[k].id < |STRING_TABLE|
  {
    hide Prologue, BodyCode, Epilogue, DivHandler, Link, StringBytes, JumpSites, StringSites, AllWellFormed;
    FrameCodeWellFormed(p);
    BodyWellFormed(p, 0);
    AppendWellFormed(Prologue(), BodyCode(p, 0));
    AppendWellFormed(Prologue() + BodyCode(p, 0), Epilogue());
    AppendWellFormed(Prologue() + BodyCode(p, 0) + Epilogue(), DivHandler(p));
    SiteIds(AllCode(p), 0);
    SitesExist(AllCode(p), 0);
    SitesFit(AllCode(p), 0);
    LinkLen(AllCode(p), 0, NoPlaces, Blank);
  }
}
