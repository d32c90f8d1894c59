/** The AArch64 code generator proper: emitters appending to a buffer, translation, back-patching. */
module JitA64 {
  import opened Words
  import opened Ebpf
  import opened A64
  import opened A64Moves
  import opened A64Patch
  import opened A64Select
  import opened A64Exec
  import opened A64Layout
  import opened A64Output
  import opened N = JitInput
  import S = Select
  import L = Layout
  import V = Validator

  // ----- the moves of a constant, one at a time -----

  /** The move emitted for a piece that differs from the filling. */
  function MoveFor(sf: bool, rd: areg, imm: u64, invert: bool, i: nat, started: bool): A
  {
    if started then MoveWide(sf, MOVK, i, Half(imm, i), rd)
    else if invert then MoveWide(sf, MOVN, i, 0xffff - Half(imm, i), rd)
    else MoveWide(sf, MOVZ, i, Half(imm, i), rd)
  }

  lemma MovesStep(done: seq<Item>, sf: bool, rd: areg, imm: u64, invert: bool, i: nat, started: bool)
    requires i < Pieces(sf)
    ensures done + Lift(Moves(sf, rd, imm, invert, i, started)) ==
      if Half(imm, i) == Skip(invert) then done + Lift(Moves(sf, rd, imm, invert, i + 1, started))
      else (done + [Do(MoveFor(sf, rd, imm, invert, i, started))]) + Lift(Moves(sf, rd, imm, invert, i + 1, true))
  {
    hide Lift, MoveFor;
    MovesUnfold(sf, rd, imm, invert, i, started);
    hide Moves, Half, Skip;
    if Half(imm, i) != Skip(invert) {
      LiftFirst(done, MoveFor(sf, rd, imm, invert, i, started), Moves(sf, rd, imm, invert, i + 1, true));
    }
  }

  lemma MovesUnfold(sf: bool, rd: areg, imm: u64, invert: bool, i: nat, started: bool)
    requires i < Pieces(sf)
    ensures Moves(sf, rd, imm, invert, i, started) ==
      if Half(imm, i) == Skip(invert) then Moves(sf, rd, imm, invert, i + 1, started)
      else [MoveFor(sf, rd, imm, invert, i, started)] + Moves(sf, rd, imm, invert, i + 1, true)
  {
    hide Half, Skip;
  }

  lemma LiftFirst(done: seq<Item>, a: A, rest: seq<A>)
    ensures done + Lift([a] + rest) == (done + [Do(a)]) + Lift(rest)
  {
    assert ([a] + rest)[1..] == rest;
  }

  lemma MovesEnd(sf: bool, rd: areg, imm: u64, invert: bool, started: bool)
    ensures Moves(sf, rd, imm, invert, Pieces(sf), started) ==
      if started then [] else [MoveWide(sf, if invert then MOVN else MOVZ, 0, 0, rd)]
  {
  }

  class ArmState {
    const buf: array<byte>
    const size: nat
    const pcLocs: array<nat>
    var offset: nat
    var exitLoc: nat
    var divByZeroLoc: nat
    var stringTableLoc: nat
    var jumps: seq<L.Jump>
    var strings: seq<L.StringRef>
    /** Everything the emitters were asked for: instructions, and the bytes behind them. */
    ghost var items: seq<Item>
    ghost var tail: seq<byte>

    ghost function Total(): nat
      reads this`items, this`tail
    {
      4 * |items| + |tail|
    }

    ghost predicate Valid()
      reads this`offset, this`jumps, this`strings, this`items, this`tail, buf
    {
      && size <= buf.Length && pcLocs.Length == MAX_INSTS + 1 && AllEncodable(items)
      && |jumps| <= MAX_INSTS && |strings| <= MAX_INSTS
      && offset == (if Total() <= size then Total() else size)
      && (Total() <= size ==>
          (buf[..Total()] == Image(items) + tail
           && jumps == Cut(JumpSites(items, |items|)) && strings == Cut(StringSites(items, |items|))))
    }

    constructor (buffer: array<byte>, n: nat)
      requires n <= buffer.Length
      ensures Valid() && items == [] && tail == [] && jumps == [] && strings == [] && buf == buffer && size == n
      ensures fresh(pcLocs) && PcLocsAre(map[])
    {
      buf, size, offset := buffer, n, 0;
      pcLocs := new nat[MAX_INSTS + 1](_ => 0);
      exitLoc, divByZeroLoc, stringTableLoc := 0, 0, 0;
      jumps, strings, items, tail := [], [], [], [];
    }

    /** Copy bytes into the buffer and nothing else; once they do not fit, the offset stays at the end. */
    method EmitBytes(data: seq<byte>)
      requires Valid()
      modifies this`offset, this`tail, buf
      ensures Valid() && tail == old(tail) + data
      ensures forall k ::
        0 <= k < buf.Length && !(old(offset) <= k < old(offset) + |data| <= size) ==> buf[k] == old(buf[k])
    {
      hide JumpSites, StringSites, Encode, AllEncodable, Cut, Image;
      if offset + |data| > size {
        offset := size;
        tail := tail + data;
        return;
      }
      ghost var all, t := buf[..offset], Total();
      assert t + |data| <= size ==> all == Image(items) + tail;
      Copy(data);
      assert t + |data| <= size ==> all + data == Image(items) + (tail + data);
      offset := offset + |data|;
      tail := tail + data;
    }

    /** Write bytes at the offset. */
    method Copy(data: seq<byte>)
      requires offset + |data| <= size <= buf.Length
      modifies buf
      ensures buf[..offset + |data|] == old(buf[..offset]) + data
      ensures forall k :: 0 <= k < buf.Length && !(offset <= k < offset + |data|) ==> buf[k] == old(buf[k])
    {
      var i := 0;
      while i < |data|
        invariant 0 <= i <= |data|
        invariant buf[..offset + i] == old(buf[..offset]) + data[..i]
        invariant forall k :: 0 <= k < buf.Length && !(offset <= k < offset + i) ==> buf[k] == old(buf[k])
      {
        buf[offset + i] := data[i];
        i := i + 1;
      }
    }

    /** The bytes of one instruction were emitted, and its jump or string noted. */
    ghost method NowItem(item: Item)
      requires Encodable(item) && tail == LeBytes(Encode(Blank(item)), 4)
      requires size <= buf.Length && pcLocs.Length == MAX_INSTS + 1 && AllEncodable(items) && |jumps| <= MAX_INSTS
      requires |strings| <= MAX_INSTS
      requires offset == (if Total() <= size then Total() else size)
      requires Total() <= size ==> buf[..Total()] == Image(items) + tail
      requires Total() <= size ==> jumps == Cut(JumpSites(items, |items|) + JumpOf(item, 4 * |items|))
      requires Total() <= size ==> strings == Cut(StringSites(items, |items|) + StringOf(item, 4 * |items|))
      modifies this`items, this`tail
      ensures Valid() && items == old(items) + [item] && tail == []
    {
      hide Encode, LeBytes;
      Snoc(items, item);
      items := items + [item];
      tail := [];
      assert Image(items) + tail == Image(items);
    }

    method EmitInstruction(a: A)
      requires Valid() && tail == [] && WellFormed(a)
      modifies this`offset, this`items, this`tail, buf
      ensures Valid() && items == old(items) + [Do(a)] && tail == []
    {
      hide JumpSites, StringSites, Encode, LeBytes;
      EmitBytes(LeBytes(Encode(a), 4));
      assert JumpSites(items, |items|) + [] == JumpSites(items, |items|) &&
        StringSites(items, |items|) + [] == StringSites(items, |items|);
      NowItem(Do(a));
    }

    /** Emit a blank jump and note where it is; a full table notes nothing. */
    method EmitBranch(item: Item)
      requires Valid() && tail == [] && IsJump(item)
      modifies this`offset, this`jumps, this`items, this`tail, buf
      ensures Valid() && items == old(items) + [item] && tail == []
    {
      hide JumpSites, StringSites, Encode, LeBytes;
      ghost var sites := JumpSites(items, |items|);
      CutMore(sites, JumpOf(item, 4 * |items|));
      var targetPc := L.TargetPc(item.target);
      var start, had := offset, jumps;
      EmitBytes(LeBytes(Encode(Blank(item)), 4));
      if |had| < MAX_INSTS {
        jumps := had + [L.Jump(start, targetPc)];
      }
      assert StringSites(items, |items|) + [] == StringSites(items, |items|);
      NowItem(item);
    }

    /** Load the address of a string, filled in later; a full table suppresses the instruction too. */
    method EmitStringLoad(rd: areg, ghost value: u64)
      requires Valid() && tail == []
      modifies this`offset, this`strings, this`items, this`tail, buf
      ensures Valid() && tail == []
      ensures items == if |old(strings)| == MAX_INSTS then old(items) else old(items) + [Address(rd, value)]
      ensures |old(strings)| < MAX_INSTS ==> |strings| == |old(strings)| + 1
    {
      hide JumpSites, StringSites, Encode, LeBytes;
      if |strings| == MAX_INSTS {
        return;
      }
      ghost var item := Address(rd, value);
      CutMore(StringSites(items, |items|), StringOf(item, 4 * |items|));
      var start, had := offset, strings;
      EmitBytes(LeBytes(Encode(Adr(0, rd)), 4));
      strings := had + [L.StringRef(start, 0)];
      assert JumpSites(items, |items|) + [] == JumpSites(items, |items|);
      NowItem(item);
    }

    static method CountPieces(sf: bool, imm: u64) returns (count0000: nat, countffff: nat)
      ensures count0000 == Count(imm, 0, Pieces(sf)) && countffff == Count(imm, 0xffff, Pieces(sf))
    {
      hide Half;
      count0000, countffff := 0, 0;
      for i := 0 to Pieces(sf)
        invariant count0000 == Count(imm, 0, i) && countffff == Count(imm, 0xffff, i)
      {
        if Half(imm, i) == 0xffff {
          countffff := countffff + 1;
        }
        if Half(imm, i) == 0 {
          count0000 := count0000 + 1;
        }
      }
    }

    /** Count the pieces, pick the filling, emit a move for every piece that differs from it. */
    method EmitMovewideImmediate(sf: bool, rd: areg, imm: u64)
      requires Valid() && tail == []
      modifies this`offset, this`items, this`tail, buf
      ensures Valid() && tail == [] && items == old(items) + Lift(MoveCode(sf, rd, imm))
    {
      hide Half, Moves, Valid;
      var count0000, countffff := CountPieces(sf, imm);
      var invert := count0000 < countffff;
      var op := if invert then MOVN else MOVZ;
      var started := false;
      ghost var before := items;
      for i := 0 to Pieces(sf)
        invariant Valid() && tail == [] && op == if started then MOVK else if invert then MOVN else MOVZ
        invariant before + Lift(MoveCode(sf, rd, imm)) == items + Lift(Moves(sf, rd, imm, invert, i, started))
      {
        hide MoveCode;
        var imm16 := Half(imm, i);
        MovesStep(items, sf, rd, imm, invert, i, started);
        if imm16 != Skip(invert) {
          if !started && invert {
            imm16 := 0xffff - imm16;
          }
          EmitInstruction(MoveWide(sf, op, i, imm16, rd));
          op, started := MOVK, true;
        }
      }
      MovesEnd(sf, rd, imm, invert, started);
      hide MoveCode;
      if !started {
        EmitInstruction(MoveWide(sf, op, 0, 0, rd));
      }
    }

    /** Division or remainder, with the jump to the handler. */
    method Divmod(pc: u16, mod: bool, sf: bool, rd: areg, rn: areg, rm: areg)
      requires Valid() && tail == []
      modifies this`offset, this`jumps, this`items, this`tail, buf
      ensures Valid() && tail == [] && items == old(items) + DivmodCode(pc, mod, sf, rd, rn, rm)
    {
      hide Valid, MoveCode;
      var divDest := if mod then TEMP_DIV else rd;
      EmitInstruction(Cbnz(sf, 3, rm));
      EmitMovewideImmediate(true, PC_REGISTER, pc);
      EmitBranch(To(S.ToDivByZero));
      EmitInstruction(Udiv(sf, divDest, rn, rm));
      if mod {
        EmitInstruction(Msub(sf, rd, rm, divDest, rn));
      }
    }

    // ----- one instruction -----

    method TranslateAlu(pc: u16, sf: bool, a: AluOp, dst: areg, src: areg)
      requires Valid() && tail == []
      modifies this`offset, this`jumps, this`items, this`tail, buf
      ensures Valid() && tail == [] && items == old(items) + RegisterForm(pc, sf, a, dst, src)
    {
      hide Valid, DivmodCode;
      match a {
        case Add => EmitInstruction(SumReg(sf, ADD, dst, dst, src));
        case Sub => EmitInstruction(SumReg(sf, SUB, dst, dst, src));
        case Mul => EmitInstruction(Madd(sf, dst, dst, src, RZ));
        case Div => Divmod(pc, false, sf, dst, dst, src);
        case Mod => Divmod(pc, true, sf, dst, dst, src);
        case Or => EmitInstruction(LogicReg(sf, ORR, dst, dst, src));
        case And => EmitInstruction(LogicReg(sf, AND, dst, dst, src));
        case Xor => EmitInstruction(LogicReg(sf, EOR, dst, dst, src));
        case Mov => EmitInstruction(LogicReg(sf, ORR, dst, RZ, src));
        case _ => EmitInstruction(ShiftReg(sf, ShiftFor(a), dst, dst, src));
      }
    }

    method TranslateEnd(big: bool, dst: areg, imm: i32)
      requires Valid() && tail == [] && (imm == 16 || imm == 32 || imm == 64)
      modifies this`offset, this`items, this`tail, buf
      ensures Valid() && tail == [] && items == old(items) + EndCode(big, dst, imm)
    {
      hide Valid;
      if big {
        EmitInstruction(Rev(if imm == 16 then S16 else if imm == 32 then S32 else S64, dst, dst));
      }
      if imm == 16 {
        EmitInstruction(Uxth(dst, dst));
      }
    }

    method TranslateMem(load: bool, sz: Size, rt: areg, rn: areg, disp: i16)
      requires Valid() && tail == []
      modifies this`offset, this`items, this`tail, buf
      ensures Valid() && tail == [] && items == old(items) + MemCode(load, sz, rt, rn, disp)
    {
      hide Valid, MoveCode;
      if -256 <= disp < 256 {
        EmitInstruction(MemImm(load, sz, rt, rn, disp % 0x200));
      } else {
        EmitMovewideImmediate(true, OFFSET, Wrap64(disp));
        EmitInstruction(MemReg(load, sz, rt, rn, OFFSET));
      }
    }

    method EmitCall(target: u64)
      requires Valid() && tail == []
      modifies this`offset, this`items, this`tail, buf
      ensures Valid() && tail == [] && items == old(items) + CallCode(target)
    {
      hide Valid, MoveCode;
      EmitMovewideImmediate(true, TEMP, target);
      EmitInstruction(Blr(TEMP));
      EmitInstruction(LogicReg(true, ORR, MapRegister(0), RZ, 0));
    }

    method TranslateCall(target: u64, unwind: bool)
      requires Valid() && tail == []
      modifies this`offset, this`jumps, this`items, this`tail, buf
      ensures Valid() && tail == [] && items == old(items) + HelperCode(target, unwind)
    {
      hide Valid, CallCode;
      EmitCall(target);
      if unwind {
        EmitInstruction(SumImm(true, SUBS, RZ, MapRegister(0), 0));
        EmitBranch(If(EQ, S.ToExit));
      }
    }

    /** The code of one instruction behind the move of its immediate. */
    method TranslateOp(p: S.Source, i: nat, op: Op, dst: areg, src: areg)
      requires Valid() && tail == [] && i < |p.insts| && ReadableAt(p, i) && DecodeOp(p.insts[i].opcode) == Some(op)
      requires op.End? ==> p.insts[i].imm == 16 || p.insts[i].imm == 32 || p.insts[i].imm == 64
      modifies this`offset, this`jumps, this`items, this`tail, buf
      ensures Valid() && tail == [] && items == old(items) + OpCode(p, i, p.insts[i], op, dst, src)
    {
      hide Valid, MoveCode, EndCode, MemCode, HelperCode, RegisterForm, DecodeOp, S.LddwBits, S.SlotTarget;
      var inst := p.insts[i];
      var imm := inst.imm;
      match op {
        case Alu(w, a, o) =>
          if o.Imm? && IsSimpleImm(op, imm) {
            if a.Mov? {
              EmitMovewideImmediate(w.W64?, dst, Wrap64(imm));
            } else {
              EmitInstruction(SumImm(w.W64?, if a.Add? then ADD else SUB, dst, dst, imm));
            }
          } else {
            TranslateAlu(i % TWO16, w.W64?, a, dst, src);
          }
        case Neg(w) => EmitInstruction(SumReg(w.W64?, SUB, dst, RZ, src));
        case End(big) => TranslateEnd(big, dst, imm);
        case Ldx(sz) => TranslateMem(true, sz, dst, src, inst.offset);
        case St(sz) => TranslateMem(false, sz, src, dst, inst.offset);
        case Stx(sz) => TranslateMem(false, sz, src, dst, inst.offset);
        case Lddw => EmitMovewideImmediate(true, dst, S.LddwBits(imm, p.insts[i + 1].imm));
        case Ja => EmitBranch(To(S.SlotTarget(i, inst.offset)));
        case Jmp(c, o) =>
          EmitInstruction(CompareFor(c, o.Imm? && IsSimpleImm(op, imm), dst, src, imm));
          EmitBranch(If(CondFor(c), S.SlotTarget(i, inst.offset)));
        case Exit =>
          if i != |p.insts| - 1 {
            EmitBranch(To(S.ToExit));
          }
        case Call => TranslateCall(p.extFuncs[imm], imm == p.unwindIndex);
      }
    }

    /** An immediate the instruction cannot hold is moved to a register first. */
    method TranslateInst(p: S.Source, i: nat) returns (known: bool)
      requires Valid() && tail == [] && i < |p.insts| && ReadableAt(p, i) && EndReadable(p.insts[i])
      modifies this`offset, this`jumps, this`items, this`tail, buf
      ensures Valid() && tail == [] && known == DecodeOp(p.insts[i].opcode).Some?
      ensures known ==> items == old(items) + Code(p, i)
    {
      hide Valid, MoveCode, DecodeOp, OpCode, IsAlu64, ReadableAt;
      var inst := p.insts[i];
      var decoded := DecodeOp(inst.opcode);
      if decoded.None? {
        return false;
      }
      var op, src := decoded.value, MapRegister(inst.src);
      if ThroughTemp(op, inst.imm) {
        EmitMovewideImmediate(IsAlu64(op), TEMP, Wrap64(inst.imm));
        src := TEMP;
      }
      hide ThroughTemp;
      TranslateOp(p, i, op, MapRegister(inst.dst), src);
      known := true;
    }

    // ----- the whole program -----

    /** The recorded places of the slots in `l`; 0 for all others. */
    ghost predicate PcLocsAre(l: map<nat, nat>)
      reads pcLocs
    {
      forall k :: 0 <= k < pcLocs.Length ==> pcLocs[k] == if k in l then l[k] else 0
    }

    method EmitSavedPairs(load: bool)
      requires Valid() && tail == []
      modifies this`offset, this`items, this`tail, buf
      ensures Valid() && tail == [] && items == old(items) + SavedPairs(load, 1)
    {
      hide Valid, SavedPair;
      for i := 1 to 5
        invariant Valid() && tail == [] && items + SavedPairs(load, i) == old(items) + SavedPairs(load, 1)
      {
        assert SavedPairs(load, i) == [SavedPair(load, i)] + SavedPairs(load, i + 1);
        EmitInstruction(SavedPair(load, i).a);
      }
    }

    method EmitFunctionPrologue()
      requires Valid() && tail == []
      modifies this`offset, this`items, this`tail, buf
      ensures Valid() && tail == [] && items == old(items) + Prologue()
    {
      hide Valid, SavedPair, SavedPairs;
      EmitInstruction(SumImm(true, SUB, SP, SP, FRAME_SIZE));
      EmitInstruction(SavedPair(false, 0).a);
      EmitInstruction(SumImm(true, ADD, FP, SP, 0));
      EmitSavedPairs(false);
      EmitInstruction(SumImm(true, ADD, MapRegister(10), SP, FRAME_SIZE));
    }

    method EmitFunctionEpilogue()
      requires Valid() && tail == []
      modifies this`offset, this`items, this`tail, this`exitLoc, buf
      ensures Valid() && tail == [] && items == old(items) + (Epilogue() + [Do(RetTo(LR))]) && exitLoc == old(offset)
    {
      hide Valid, SavedPair, SavedPairs;
      exitLoc := offset;
      EmitInstruction(LogicReg(true, ORR, 0, RZ, MapRegister(0)));
      EmitSavedPairs(true);
      EmitInstruction(SavedPair(true, 0).a);
      EmitInstruction(SumImm(true, ADD, SP, SP, FRAME_SIZE));
      EmitInstruction(RetTo(LR));
    }

    /** Translate from the first slot on, noting where each instruction starts. */
    method TranslateBody(p: S.Source) returns (known: bool)
      requires Valid() && tail == [] && N.Readable(p) && EndsReadable(p) && PcLocsAre(map[])
      modifies this`offset, this`jumps, this`items, this`tail, buf, pcLocs
      ensures Valid() && tail == [] && known == Known(p, 0)
      ensures known ==> items == old(items) + BodyCode(p, 0)
      ensures known && 4 * |items| <= size ==> PcLocsAre(Locs(p, 0, 4 * |old(items)|))
    {
      hide Code, BodyCode, Locs, ReadableAt, Image, JumpSites, StringSites;
      ghost var before := items;
      ghost var seen: map<nat, nat> := map[];
      assert Locs(p, 0, 4 * |before|) == Locs(p, 0, 4 * |before|) + map[];
      var i := 0;
      while i < |p.insts|
        invariant Valid() && tail == [] && Known(p, 0) == Known(p, i)
        invariant before + BodyCode(p, 0) == items + BodyCode(p, i)
        invariant 4 * |items| <= size ==> PcLocsAre(seen)
        invariant forall k :: k in seen ==> k < i
        invariant Locs(p, 0, 4 * |before|) == Locs(p, i, 4 * |items|) + seen
      {
        ghost var now := items;
        pcLocs[i] := offset;
        assert ReadableAt(p, i) && EndReadable(p.insts[i]);
        known := TranslateInst(p, i);
        if !known {
          return;
        }
        BodyStep(p, i, now, seen);
        seen := seen[i := 4 * |now|];
        i := V.After(p.insts, i);
      }
      BodyEnds(p, i, items, seen);
      known := true;
    }

    /** Each string with its NUL. */
    method EmitStringTable(table: seq<string>)
      requires Valid() && tail == []
      modifies this`offset, this`tail, buf
      ensures Valid() && tail == L.StringBytes(table)
    {
      hide L.CString, Valid;
      assert L.StringBytes(table[..0]) == [];
      for i := 0 to |table|
        invariant Valid() && tail == L.StringBytes(table[..i])
      {
        hide L.StringBytes;
        EmitBytes(L.CString(table[i]));
        StringBytesSnoc(table, i);
      }
      assert table[..|table|] == table;
    }

    /** Prologue, program, epilogue, division handler and string table, noting their places. */
    method Translate(p: S.Source, ghost str: u64) returns (known: bool)
      requires Valid() && items == [] && tail == [] && strings == [] && N.Readable(p) && EndsReadable(p)
      requires PcLocsAre(map[])
      modifies this, buf, pcLocs
      ensures Valid() && known == Known(p, 0)
      ensures known ==> items == AllItems(p, str) && tail == L.StringBytes(L.STRING_TABLE)
      ensures known && Total() <= size ==> PlacesAre(PlacesOf(p))
    {
      hide Prologue, Epilogue, BodyCode, DivHandler, Locs, L.StringBytes, Image, JumpSites, StringSites, Known,
        N.Readable, Cut;
      EmitFunctionPrologue();
      assert items == Prologue();
      known := TranslateBody(p);
      if !known {
        return;
      }
      assert 4 * |items| <= size ==> PcLocsAre(PlacesOf(p).locs);
      EmitFunctionEpilogue();
      divByZeroLoc := offset;
      EmitDivHandler(p, str);
      assert items == AllItems(p, str);
      stringTableLoc := offset;
      PlacesSum(p, str);
      hide PlacesOf, AllItems, AllEncodable;
      assert 4 * |items| <= size ==> PlacesAre(PlacesOf(p));
      EmitStringTable(L.STRING_TABLE);
    }

    method EmitDivHandler(p: S.Source, ghost str: u64)
      requires Valid() && tail == [] && strings == []
      modifies this`offset, this`jumps, this`strings, this`items, this`tail, buf
      ensures Valid() && tail == [] && items == old(items) + DivHandler(p, str)
    {
      hide Valid, CallCode, MoveCode;
      EmitStringLoad(1, str);
      EmitMovewideImmediate(true, 0, p.stderr);
      EmitCall(p.errorPrintf);
      EmitMovewideImmediate(true, MapRegister(0), TWO64 - 1);
      EmitBranch(To(S.ToExit));
    }

    // ----- back-patching -----

    method UpdateBranchImmediate(at: nat, imm: int)
      requires at + 4 <= offset <= buf.Length
      modifies buf
      ensures buf[..offset] == Overwritten(old(buf[..offset]), at, UpdateBranch(WordAt(old(buf[..offset]), at), imm))
    {
      hide UpdateBranch, WordAt, Overwritten;
      Overwrite(at, UpdateBranch(WordAt(buf[..offset], at), imm));
    }

    method UpdateAdrImmediate(at: nat, imm21: int)
      requires at + 4 <= offset <= buf.Length
      modifies buf
      ensures buf[..offset] == Overwritten(old(buf[..offset]), at, UpdateAdr(WordAt(old(buf[..offset]), at), imm21))
    {
      hide UpdateAdr, WordAt, Overwritten;
      Overwrite(at, UpdateAdr(WordAt(buf[..offset], at), imm21));
    }

    method Overwrite(at: nat, instr: u32)
      requires at + 4 <= offset <= buf.Length
      modifies buf
      ensures buf[..offset] == Overwritten(old(buf[..offset]), at, instr)
    {
      hide LeBytes;
      var bytes := LeBytes(instr, 4);
      buf[at], buf[at + 1], buf[at + 2], buf[at + 3] := bytes[0], bytes[1], bytes[2], bytes[3];
      assert bytes == [bytes[0], bytes[1], bytes[2], bytes[3]];
    }

    method TargetLoc(jump: L.Jump, ghost l: L.Places) returns (loc: nat)
      requires pcLocs.Length == MAX_INSTS + 1 && PlacesAre(l) && TargetExists(jump)
      ensures loc == L.PlaceOf(l, jump.targetPc)
    {
      if jump.targetPc == L.TARGET_PC_EXIT {
        return exitLoc;
      } else if jump.targetPc == L.TARGET_PC_DIV_BY_ZERO {
        return divByZeroLoc;
      } else {
        return pcLocs[jump.targetPc];
      }
    }

    /** Every recorded jump gets its distance; nothing else changes. */
    method ResolveJumps(ghost l: L.Places)
      requires pcLocs.Length == MAX_INSTS + 1 && PlacesAre(l) && AllEncodable(items)
      requires jumps == JumpSites(items, |items|)
      requires offset <= buf.Length && Patched(buf[..offset], items, l, 0, 0, tail)
      modifies buf
      ensures Patched(buf[..offset], items, l, |items|, 0, tail)
    {
      hide L.PlaceOf, WordAt, UpdateBranch, Overwritten, Patched, Final, AllEncodable, JumpSites;
      ghost var k := 0;
      assert |JumpSites(items, 0)| == 0 by { NoSites(items); }
      for i := 0 to |jumps|
        invariant k <= |items| && |JumpSites(items, k)| == i && PlacesAre(l)
        invariant Patched(buf[..offset], items, l, k, 0, tail)
      {
        var jump := jumps[i];
        ghost var next := NextJump(items, k, |items|);
        PassOver(buf[..offset], items, l, k, 0, next, 0, tail);
        JumpFixed(buf[..offset], items, l, next, 0, tail);
        var targetLoc := TargetLoc(jump, l);
        var rel: int := targetLoc - jump.offsetLoc;
        PatchOne(buf[..offset], items, l, next, next, 0, tail,
          UpdateBranch(WordAt(buf[..offset], jump.offsetLoc), rel));
        UpdateBranchImmediate(jump.offsetLoc, rel);
        JumpAt(items, next, |items|);
        k := next + 1;
      }
      NoMoreJumps(items, k, |items|);
      PassOver(buf[..offset], items, l, k, 0, |items|, 0, tail);
    }

    method StringOffsetFromId(id: nat) returns (at: nat)
      requires id <= |L.STRING_TABLE|
      ensures at == stringTableLoc + L.StringOffset(id)
    {
      at := stringTableLoc;
      for i := 0 to id
        invariant at == stringTableLoc + L.StringOffset(i)
      {
        at := at + |L.STRING_TABLE[i]| + 1;
      }
    }

    method ResolveStrings(ghost l: L.Places)
      requires stringTableLoc == l.strings && AllEncodable(items) && strings == StringSites(items, |items|)
      requires offset <= buf.Length && Patched(buf[..offset], items, l, |items|, 0, tail)
      modifies buf
      ensures Patched(buf[..offset], items, l, |items|, |items|, tail)
    {
      hide WordAt, UpdateAdr, Overwritten, Patched, Final, AllEncodable, StringSites;
      ghost var k := 0;
      assert |StringSites(items, 0)| == 0 by { NoSites(items); }
      for i := 0 to |strings|
        invariant k <= |items| && |StringSites(items, k)| == i
        invariant Patched(buf[..offset], items, l, |items|, k, tail)
      {
        var ref := strings[i];
        ghost var next := NextString(items, k, |items|);
        PassOver(buf[..offset], items, l, |items|, k, |items|, next, tail);
        AddressFixed(buf[..offset], items, l, next, |items|, tail);
        var at := StringOffsetFromId(ref.id);
        var rel: int := at - ref.offsetLoc;
        PatchOne(buf[..offset], items, l, next, |items|, next, tail,
          UpdateAdr(WordAt(buf[..offset], ref.offsetLoc), rel));
        UpdateAdrImmediate(ref.offsetLoc, rel);
        k := next + 1;
      }
      NoMoreStrings(items, k, |items|);
      PassOver(buf[..offset], items, l, |items|, k, |items|, |items|, tail);
    }

    ghost predicate PlacesAre(l: L.Places)
      reads this`exitLoc, this`divByZeroLoc, this`stringTableLoc, pcLocs
    {
      exitLoc == l.exit && divByZeroLoc == l.divByZero && stringTableLoc == l.strings && PcLocsAre(l.locs)
    }
  }

  /** A byte-order conversion names a width. */
  predicate EndReadable(inst: Inst)
  {
    DecodeOp(inst.opcode).Some? && DecodeOp(inst.opcode).value.End? ==>
      inst.imm == 16 || inst.imm == 32 || inst.imm == 64
  }

  predicate EndsReadable(p: S.Source) { forall i :: 0 <= i < |p.insts| ==> EndReadable(p.insts[i]) }

  /** In a validated program all conversions do. */
  lemma AcceptedEnds(p: S.Source)
    requires |p.extFuncs| == MAX_EXT_FUNCS && V.Accepted(p.insts, p.extFuncs)
    ensures EndsReadable(p)
  {
    forall i | 0 <= i < |p.insts| ensures EndReadable(p.insts[i]) {
      if p.insts[i].opcode != 0 {
        V.AcceptedIsWhole(p.insts, p.extFuncs);
        V.NonzeroIsStart(p.insts, 0, i);
        assert V.InstError(p.insts, p.extFuncs, i).None?;
      }
    }
  }

  lemma BodyStep(p: S.Source, i: nat, now: seq<Item>, seen: map<nat, nat>)
    requires i < |p.insts| && i !in seen
    ensures now + BodyCode(p, i) == (now + Code(p, i)) + BodyCode(p, V.After(p.insts, i))
    ensures Locs(p, i, 4 * |now|) + seen == Locs(p, V.After(p.insts, i), 4 * |now + Code(p, i)|) + seen[i := 4 * |now|]
  {
    hide Code;
    var next := Locs(p, V.After(p.insts, i), 4 * |now| + 4 * |Code(p, i)|);
    assert Locs(p, i, 4 * |now|) == next[i := 4 * |now|];
    assert next[i := 4 * |now|] + seen == next + seen[i := 4 * |now|];
  }

  lemma BodyEnds(p: S.Source, i: nat, items: seq<Item>, seen: map<nat, nat>)
    requires i >= |p.insts|
    ensures items + BodyCode(p, i) == items && Locs(p, i, 4 * |items|) + seen == seen
  {
  }

  lemma NoSites(items: seq<Item>)
    ensures JumpSites(items, 0) == [] && StringSites(items, 0) == []
  {
  }

  // ----- the entry point -----

  /** Only known instructions, and room for the code, the strings and both tables. */
  predicate Translatable(p: S.Source, size: nat) { Known(p, 0) && RoomFor(AllItems(p, 0), size) }

  predicate RoomFor(items: seq<Item>, size: nat)
  {
    && 4 * |items| + |L.StringBytes(L.STRING_TABLE)| < size
    && |JumpSites(items, |items|)| < MAX_INSTS && |StringSites(items, |items|)| < MAX_INSTS
  }

  /**
   * The code generator. It succeeds exactly when everything fits, and then the buffer starts with the program's items
   * in place: no word dropped, every jump and address filled in, every other word as emitted, the string table behind
   * them. The size is cut to 32 bits; sums of offsets never wrap, the whole output being shorter than 2 GiB.
   */
  method UbpfTranslate(p: S.Source, buffer: array<byte>, size: nat, ghost str: u64) returns (r: TranslateResult)
    requires N.Readable(p) && EndsReadable(p) && size <= buffer.Length
    modifies buffer
    ensures r.UnknownInstruction? <==> !Known(p, 0)
    ensures r.Translated? <==> Translatable(p, size % TWO32)
    ensures r.Translated? ==>
      (r.size == 4 * |AllItems(p, str)| + |L.StringBytes(L.STRING_TABLE)| && r.size <= buffer.Length
       && InPlace(buffer[..r.size], 0, AllItems(p, str), PlacesOf(p))
       && buffer[4 * |AllItems(p, str)|..r.size] == L.StringBytes(L.STRING_TABLE))
  {
    hide Known, N.Readable, PlacesOf, Image, AllItems, L.StringBytes, JumpSites, StringSites, Patched, EndsReadable;
    var state := new ArmState(buffer, size % TWO32);
    var known := state.Translate(p, str);
    if !known {
      return UnknownInstruction;
    }
    SameSites(p, str);
    if |state.jumps| == MAX_INSTS {
      return ExcessiveJumps;
    }
    if |state.strings| == MAX_INSTS {
      return ExcessiveStrings;
    }
    if state.offset == state.size {
      return BufferTooSmall;
    }
    UnpatchedImage(state.items, PlacesOf(p), state.tail);
    state.ResolveJumps(PlacesOf(p));
    state.ResolveStrings(PlacesOf(p));
    ghost var image := buffer[..state.offset];
    AllPatched(image, state.items, PlacesOf(p), state.tail);
    assert buffer[4 * |state.items|..state.offset] == image[4 * |state.items|..];
    return Translated(state.offset);
  }

  /** The string's address plays no part in the sizes. */
  lemma SameSites(p: S.Source, str: u64)
    ensures var a, b := AllItems(p, 0), AllItems(p, str);
      |a| == |b| && |JumpSites(a, |a|)| == |JumpSites(b, |b|)| && |StringSites(a, |a|)| == |StringSites(b, |b|)|
  {
    hide Prologue, Epilogue, BodyCode, CallCode, MoveCode, JumpSites, StringSites;
    var a, b := AllItems(p, 0), AllItems(p, str);
    assert |DivHandler(p, 0)| == |DivHandler(p, str)|;
    var k := |Prologue() + BodyCode(p, 0) + (Epilogue() + [Do(RetTo(LR))])|;
    assert forall i :: 0 <= i < |a| && i != k ==> a[i] == b[i];
    assert a[k].Address? && b[k].Address?;
    hide AllItems, DivHandler;
    SitesAlike(a, b, |a|);
  }

  lemma {:induction false} SitesAlike(a: seq<Item>, b: seq<Item>, n: nat)
    requires n <= |a| == |b| && forall i :: 0 <= i < |a| ==> a[i] == b[i] || (a[i].Address? && b[i].Address?)
    ensures |JumpSites(a, n)| == |JumpSites(b, n)| && |StringSites(a, n)| == |StringSites(b, n)|
    decreases n
  {
    if n > 0 {
      SitesAlike(a, b, n - 1);
      assert a[n - 1] == b[n - 1] || (a[n - 1].Address? && b[n - 1].Address?);
    }
  }
}
