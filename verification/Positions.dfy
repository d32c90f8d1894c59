/**
 * Where each instruction's code is in the image, that all of it is encodable, and that every place a jump can name lies
 * inside the image: what the layout theorems need to know about a whole program.
 */
module Positions {
  import opened Words
  import opened Ebpf
  import opened X86
  import opened Select
  import opened Layout
  import opened MachineCode
  import opened Simulation
  import V = Validator

  // ----- encodability -----

  lemma AppendWellFormed(a: seq<Asm>, b: seq<Asm>)
    requires AllWellFormed(a) && AllWellFormed(b)
    ensures AllWellFormed(a + b)
  {
    hide WellFormed;
  }

  lemma LoadImmEncodable(dst: reg, v: i64)
    ensures WellFormed(Plain(LoadImm(dst, v)))
  {
  }

  lemma MulDivModWellFormed(i: nat, w: Width, op: AluOp, src: reg, dst: reg, imm: i32)
    ensures AllWellFormed(MulDivMod(i, w, op, src, dst, imm))
  {
    LoadImmEncodable(RCX, i % TWO16);
    LoadImmEncodable(RCX, imm);
    hide LoadImm;
    assert AllWellFormed(DivGuard(i, w, op, src));
    assert AllWellFormed(SaveRegs(dst));
    assert AllWellFormed([SecondOperand(src, imm), MovReg(dst, RAX)]);
    assert AllWellFormed(Compute(w, op));
    assert AllWellFormed(Deliver(op, dst));
    hide DivGuard, SaveRegs, SecondOperand, Compute, Deliver, WellFormed;
    AppendWellFormed(DivGuard(i, w, op, src), SaveRegs(dst));
    AppendWellFormed(DivGuard(i, w, op, src) + SaveRegs(dst), [SecondOperand(src, imm), MovReg(dst, RAX)]);
    AppendWellFormed(DivGuard(i, w, op, src) + SaveRegs(dst) + [SecondOperand(src, imm), MovReg(dst, RAX)],
      Compute(w, op));
    AppendWellFormed(DivGuard(i, w, op, src) + SaveRegs(dst) + [SecondOperand(src, imm), MovReg(dst, RAX)] +
      Compute(w, op), Deliver(op, dst));
  }

  lemma AluWellFormed(i: nat, w: Width, op: AluOp, o: Operand, dst: reg, src: reg, imm: i32)
    ensures AllWellFormed(Select.AluCode(i, w, op, o, dst, src, imm))
  {
    MulDivModWellFormed(i, w, op, src, dst, imm);
    LoadImmEncodable(dst, imm);
    hide MulDivMod, LoadImm;
  }

  lemma CallWellFormed(target: u64)
    ensures AllWellFormed(CallCode(target))
  {
    LoadImmEncodable(RAX, Signed64(target));
    hide LoadImm;
  }

  lemma OpWellFormed(p: Source, i: nat, inst: Inst, op: Op, dst: reg, src: reg)
    requires i < |p.insts| && dst % 8 != 4 && src % 8 != 4
    ensures AllWellFormed(OpCode(p, i, inst, op, dst, src))
  {
    hide LoadImm, Select.AluCode, CallCode;
    match op
    case Alu(w, a, o) => AluWellFormed(i, w, a, o, dst, src, inst.imm);
    case Lddw => if i + 1 < |p.insts| { LoadImmEncodable(dst, Signed64(LddwBits(inst.imm, p.insts[i + 1].imm))); }
    case Call =>
      if 0 <= inst.imm < |p.extFuncs| {
        CallWellFormed(p.extFuncs[inst.imm]);
        AppendWellFormed([MovReg(R9, RCX)], CallCode(p.extFuncs[inst.imm]));
        AppendWellFormed([MovReg(R9, RCX)] + CallCode(p.extFuncs[inst.imm]),
                         if inst.imm == p.unwindIndex then [Plain(RI(true, CmpRI, MapRegister(0), 0)),
                           JccTo(CcE, ToExit)] else []);
      }
    case _ =>
  }

  lemma CodeWellFormed(p: Source, i: nat)
    requires i < |p.insts|
    ensures AllWellFormed(Code(p, i))
  {
    var inst := p.insts[i];
    MapFacts();
    hide OpCode, DecodeOp;
    if DecodeOp(inst.opcode).Some? {
      OpWellFormed(p, i, inst, DecodeOp(inst.opcode).value, MapRegister(inst.dst), MapRegister(inst.src));
    }
  }

  lemma {:induction false} PushesPopsWellFormed(rs: seq<reg>)
    ensures AllWellFormed(Pushes(rs)) && AllWellFormed(Pops(rs))
  {
    if rs != [] {
      PushesPopsWellFormed(rs[1..]);
      AppendWellFormed([Plain(Push(rs[0]))], Pushes(rs[1..]));
      AppendWellFormed(Pops(rs[1..]), [Plain(Pop(rs[0]))]);
    }
  }

  lemma FrameCodeWellFormed(p: Source)
    ensures AllWellFormed(Prologue()) && AllWellFormed(Epilogue()) && AllWellFormed(DivHandler(p))
  {
    PushesPopsWellFormed(NONVOLATILE);
    var enter := [MovReg(RSP, MapRegister(10)), Plain(RI(true, SubRI, RSP, STACK_SIZE))];
    AppendWellFormed(Pushes(NONVOLATILE), enter);
    AppendWellFormed([Plain(RI(true, AddRI, RSP, STACK_SIZE))], Pops(NONVOLATILE));
    AppendWellFormed([Plain(RI(true, AddRI, RSP, STACK_SIZE))] + Pops(NONVOLATILE), [Plain(Ret)]);
    LoadImmEncodable(RDI, Signed64(p.stderr));
    LoadImmEncodable(MapRegister(0), -1);
    CallWellFormed(p.errorPrintf);
    hide LoadImm, Pushes, Pops, CallCode;
    var a := [MovReg(RCX, RDX), LeaString(RSI, 0), Plain(LoadImm(RDI, Signed64(p.stderr)))];
    var z := [Plain(LoadImm(MapRegister(0), -1)), JmpTo(ToExit)];
    AppendWellFormed(a, CallCode(p.errorPrintf));
    AppendWellFormed(a + CallCode(p.errorPrintf), z);
  }

  // ----- positions -----

  /** The slots with a place are exactly the instruction starts. */
  lemma {:induction false} LocsKeys(p: Source, i: nat, off: nat)
    ensures Locs(p, i, off).Keys == V.Starts(p.insts, i)
    decreases |p.insts| - i
  {
    hide Code, CodeLen;
    if i < |p.insts| {
      var next, end := V.After(p.insts, i), off + CodeLen(Code(p, i));
      LocsKeys(p, next, end);
      hide V.After;
      assert Locs(p, i, off).Keys == Locs(p, next, end).Keys + {i};
    }
  }

  /** The code of slot `k` sits at its place, followed by the code of the next instruction. */
  lemma {:induction false} CodeSplit(p: Source, i: nat, off: nat, k: nat) returns (a: seq<Asm>)
    requires k in V.Starts(p.insts, i) && k < |p.insts|
    ensures k in Locs(p, i, off) && off + CodeLen(a) == Locs(p, i, off)[k]
    ensures BodyCode(p, i) == a + (Code(p, k) + BodyCode(p, V.After(p.insts, k)))
    decreases |p.insts| - i
  {
    hide Code;
    hide CodeLen;
    if k == i {
      a := [];
      assert CodeLen([]) == 0 by { NoCode(); }
      assert [] + BodyCode(p, i) == BodyCode(p, i);
    } else {
      var next := V.After(p.insts, i);
      var b := CodeSplit(p, next, off + CodeLen(Code(p, i)), k);
      a := Code(p, i) + b;
      CodeLenAppend(Code(p, i), b);
      AppendAssoc(Code(p, i), b, Code(p, k) + BodyCode(p, V.After(p.insts, k)));
    }
  }

  lemma NoCode()
    ensures CodeLen([]) == 0
  {
  }

  lemma AppendAssoc(a: seq<Asm>, b: seq<Asm>, c: seq<Asm>)
    ensures a + (b + c) == (a + b) + c
  {
  }

  /** The next instruction's code follows immediately. */
  lemma {:induction false} LocNext(p: Source, i: nat, off: nat, k: nat)
    requires k in V.Starts(p.insts, i) && k < |p.insts| && V.After(p.insts, k) < |p.insts|
    ensures k in Locs(p, i, off) && V.After(p.insts, k) in Locs(p, i, off)
    ensures Locs(p, i, off)[V.After(p.insts, k)] == Locs(p, i, off)[k] + CodeLen(Code(p, k))
    decreases |p.insts| - i
  {
    hide Code, CodeLen;
    var next, len := V.After(p.insts, i), CodeLen(Code(p, i));
    if k == i {
      assert Locs(p, next, off + len)[next] == off + len;
    } else {
      V.StartsBounded(p.insts, next);
      LocNext(p, next, off + len, k);
    }
  }

  /** Where the code for a program counter is; past the last instruction that is the epilogue. */
  function PcPlace(p: Source, pc: nat): nat
  {
    if pc in PlacesOf(p).locs then PlacesOf(p).locs[pc] else PlacesOf(p).exit
  }

  /** The image around the code of slot `k`. */
  lemma ImageAround(p: Source, k: nat) returns (a: seq<Asm>, b: seq<Asm>)
    requires V.IsStart(p.insts, k) && k < |p.insts|
    ensures AllCode(p) == a + Code(p, k) + b && CodeLen(a) == PcPlace(p, k)
  {
    hide Code, Prologue, Epilogue, DivHandler, CodeLen;
    var start := CodeLen(Prologue());
    var body := CodeSplit(p, 0, start, k);
    a := Prologue() + body;
    var rest := BodyCode(p, V.After(p.insts, k));
    b := rest + Epilogue() + DivHandler(p);
    CodeLenAppend(Prologue(), body);
    hide BodyCode, Locs;
    RegroupCode(Prologue(), body, Code(p, k), rest, Epilogue(), DivHandler(p));
  }

  lemma RegroupCode(a: seq<Asm>, b: seq<Asm>, c: seq<Asm>, d: seq<Asm>, e: seq<Asm>, f: seq<Asm>)
    ensures a + (b + (c + d)) + e + f == (a + b) + c + (d + e + f)
  {
  }

  /** Falling through an instruction's code reaches the next instruction's code, or the epilogue. */
  lemma FallPlace(p: Source, k: nat)
    requires V.IsStart(p.insts, k) && k < |p.insts|
    ensures PcPlace(p, k) + CodeLen(Code(p, k)) == PcPlace(p, V.After(p.insts, k))
  {
    hide Code, Prologue, Epilogue, DivHandler, CodeLen;
    var start, next := CodeLen(Prologue()), V.After(p.insts, k);
    LocsKeys(p, 0, start);
    V.StartsBounded(p.insts, 0);
    V.StartsClosed(p.insts, 0, k);
    if next < |p.insts| {
      LocNext(p, 0, start, k);
    } else {
      var body := CodeSplit(p, 0, start, k);
      assert BodyCode(p, next) == [];
      assert body + (Code(p, k) + []) == body + Code(p, k);
      CodeLenAppend(body, Code(p, k));
    }
  }

  /** A piece of the whole code is linked in place. */
  lemma ImageSplit(p: Source, a: seq<Asm>, c: seq<Asm>, b: seq<Asm>) returns (pre: seq<byte>, post: seq<byte>)
    requires AllCode(p) == a + c + b
    ensures |pre| == CodeLen(a) && Image(p) == pre + Link(c, |pre|, PlacesOf(p), AllDone) + post
    ensures CodeLen(a) + CodeLen(c) <= |Image(p)|
  {
    hide Link, AllCode, CodeLen, PlacesOf, StringBytes;
    var l := PlacesOf(p);
    pre := Link(a, 0, l, AllDone);
    LinkLen(a, 0, l, AllDone);
    LinkLen(c, |pre|, l, AllDone);
    LinkAppend(a + c, b, 0, l, AllDone);
    LinkAppend(a, c, 0, l, AllDone);
    post := Link(b, CodeLen(a + c), l, AllDone) + StringBytes(STRING_TABLE);
  }

  /** Every place lies inside the image. */
  lemma {:induction false} LocsBounded(p: Source, i: nat, off: nat)
    ensures forall k :: k in Locs(p, i, off) ==> Locs(p, i, off)[k] <= off + CodeLen(BodyCode(p, i))
    decreases |p.insts| - i
  {
    hide Code, CodeLen;
    if i >= |p.insts| {
      assert Locs(p, i, off) == map[];
    } else {
      LocsBounded(p, V.After(p.insts, i), off + CodeLen(Code(p, i)));
      CodeLenAppend(Code(p, i), BodyCode(p, V.After(p.insts, i)));
    }
  }

  lemma PlacesInside(p: Source)
    requires |Image(p)| < TWO31
    ensures PlacesFit(PlacesOf(p)) && CodeLen(AllCode(p)) < TWO31
  {
    hide Code, Prologue, Epilogue, DivHandler, Link, StringBytes;
    var start := CodeLen(Prologue());
    LocsBounded(p, 0, start);
    LinkLen(AllCode(p), 0, PlacesOf(p), AllDone);
    CodeLenAppend(Prologue(), BodyCode(p, 0));
    CodeLenAppend(Prologue() + BodyCode(p, 0), Epilogue());
    CodeLenAppend(Prologue() + BodyCode(p, 0) + Epilogue(), DivHandler(p));
    assert StringOffset(0) == 0;
  }
}
