/**
 * Placing AArch64 code. Every item becomes one word of four bytes; jumps and addresses are filled in when all places
 * are known; and executing the words of a block does what the block does, wherever in the buffer it is.
 */
module A64Layout {
  import opened Words
  import opened Ebpf
  import opened A64
  import opened A64Moves
  import opened A64Patch
  import opened A64Select
  import opened A64Exec
  import S = Select
  import L = Layout
  import V = Validator

  /** The largest image whose conditional branches all reach. */
  const MAX_IMAGE := 0x10_0000

  // ----- where everything is -----

  /** The code of the program from slot `i` on. */
  function BodyCode(p: S.Source, i: nat): seq<Item>
    decreases |p.insts| - i
  {
    if i >= |p.insts| then [] else Code(p, i) + BodyCode(p, V.After(p.insts, i))
  }

  function AllItems(p: S.Source, str: u64): seq<Item>
  {
    Prologue() + BodyCode(p, 0) + (Epilogue() + [Do(RetTo(LR))]) + DivHandler(p, str)
  }

  /** Where the code of each instruction from slot `i` on starts. */
  function Locs(p: S.Source, i: nat, off: nat): map<nat, nat>
    decreases |p.insts| - i
  {
    if i >= |p.insts| then map[] else Locs(p, V.After(p.insts, i), off + 4 * |Code(p, i)|)[i := off]
  }

  function PlacesOf(p: S.Source): L.Places
  {
    var exit := 4 * |Prologue() + BodyCode(p, 0)|;
    var divByZero := exit + 4 * |Epilogue()| + 4;
    L.Places(Locs(p, 0, 4 * |Prologue()|), exit, divByZero, divByZero + 4 * |DivHandler(p, 0)|)
  }

  // ----- blank and final instructions -----

  function Blank(item: Item): A
  {
    match item
    case Do(a) => a
    case To(_) => Branch(0)
    case If(cond, _) => BranchCond(cond, 0)
    case Address(rd, _) => Adr(0, rd)
  }

  /** The instruction at `at` with its distance filled in. */
  function Final(item: Item, at: nat, l: L.Places): A
  {
    match item
    case Do(a) => a
    case To(t) => WithField(Blank(item), (L.PlaceOf(l, L.TargetPc(t)) - at) / 4)
    case If(_, t) => WithField(Blank(item), (L.PlaceOf(l, L.TargetPc(t)) - at) / 4)
    case Address(rd, _) => Adr((l.strings - at) % 4 + 4 * ((l.strings - at) / 4 % 0x4_0000), rd)
  }

  predicate Encodable(item: Item) { item.Do? ==> WellFormed(item.a) }

  /** All control transfers out of the block are symbolic. */
  predicate Proper(item: Item)
  {
    Encodable(item) && (item.Do? ==> !item.a.Branch? && !item.a.BranchCond? && !item.a.Adr? && !item.a.RetTo?)
  }

  predicate AllProper(items: seq<Item>) { forall i :: 0 <= i < |items| ==> Proper(items[i]) }

  /** The word of an item. */
  ghost predicate ItemAt(code: seq<byte>, at: nat, item: Item, l: L.Places)
  {
    at + 4 <= |code| && Encodable(item) && WordAt(code, at) == Encode(Final(item, at, l))
  }

  /** The items are in place from word `k` of the code on. */
  ghost predicate InPlace(code: seq<byte>, k: nat, items: seq<Item>, l: L.Places)
  {
    4 * (k + |items|) <= |code| && forall i :: 0 <= i < |items| ==> ItemAt(code, 4 * (k + i), items[i], l)
  }

  /** Places are word addresses of the code. */
  predicate GoodTarget(l: L.Places, t: S.Target, n: nat)
  {
    var place := L.PlaceOf(l, L.TargetPc(t));
    place % 4 == 0 && place <= n
  }

  predicate GoodItem(item: Item, l: L.Places, base: u64, n: nat)
  {
    match item
    case To(t) => GoodTarget(l, t, n)
    case If(_, t) => GoodTarget(l, t, n)
    case Address(_, value) => value == Wrap64(base + l.strings) && l.strings <= n
    case _ => true
  }

  predicate GoodItems(items: seq<Item>, l: L.Places, base: u64, n: nat)
  {
    forall i :: 0 <= i < |items| ==> GoodItem(items[i], l, base, n)
  }

  // ----- one word -----

  lemma BranchDistance(a: A, place: nat, at: nat)
    requires IsBlank(a) && place % 4 == 0 && at % 4 == 0 && place < MAX_IMAGE && at < MAX_IMAGE
    ensures Displacement(WithField(a, (place - at) / 4)) == place - at
  {
    var words := (place - at) / 4;
    assert place - at == 4 * words;
    FieldRange(words, if a.Branch? then 0x200_0000 else 0x4_0000);
  }

  lemma AddressDistance(rd: areg, d: nat)
    requires d < MAX_IMAGE
    ensures SignedField(d % 4 + 4 * (d / 4 % 0x4_0000), 0x10_0000) == d
  {
    DivModUnique(d / 4, 0x4_0000, 0, d / 4);
  }

  lemma TickTo(code: seq<byte>, base: u64, ext: External, at: nat, t: S.Target, l: L.Places, st: AState)
    requires ItemAt(code, at, To(t), l) && GoodTarget(l, t, |code|) && at % 4 == 0 && |code| < MAX_IMAGE
    ensures Tick(code, base, ext, At(at, st)) == At(L.PlaceOf(l, L.TargetPc(t)), st)
  {
    hide Encode, Decode, WordAt, L.PlaceOf;
    DecodeEncode(Final(To(t), at, l));
    BranchDistance(Branch(0), L.PlaceOf(l, L.TargetPc(t)), at);
  }

  lemma TickIf(code: seq<byte>, base: u64, ext: External, at: nat, c: nibble, t: S.Target, l: L.Places, st: AState)
    requires ItemAt(code, at, If(c, t), l) && GoodTarget(l, t, |code|) && at % 4 == 0 && |code| < MAX_IMAGE
    requires st.flags.Some?
    ensures Tick(code, base, ext, At(at, st)) ==
      At(if Holds(c, st.flags.value) then L.PlaceOf(l, L.TargetPc(t)) else at + 4, st)
  {
    hide Encode, Decode, WordAt, Holds, L.PlaceOf;
    DecodeEncode(Final(If(c, t), at, l));
    BranchDistance(BranchCond(c, 0), L.PlaceOf(l, L.TargetPc(t)), at);
  }

  lemma TickAddress(code: seq<byte>, base: u64, ext: External, at: nat, rd: areg, value: u64, l: L.Places, st: AState)
    requires ItemAt(code, at, Address(rd, value), l) && at <= l.strings <= |code| < MAX_IMAGE
    requires value == Wrap64(base + l.strings)
    ensures Tick(code, base, ext, At(at, st)) == At(at + 4, WithReg(st, rd, value))
  {
    hide Encode, Decode, WordAt;
    DecodeEncode(Final(Address(rd, value), at, l));
    AddressDistance(rd, l.strings - at);
  }

  lemma TickDo(code: seq<byte>, base: u64, ext: External, at: nat, a: A, l: L.Places, st: AState)
    requires ItemAt(code, at, Do(a), l) && Proper(Do(a))
    ensures Tick(code, base, ext, At(at, st)) ==
      match a
      case Cbnz(sf, imm19, rt) =>
        At(at + (if Narrow(sf, Read(st.regs, rt)) == 0 then 4 else 4 * SignedField(imm19, 0x4_0000)), st)
      case _ => (match Exec(a, ext, st) case None => Crashed case Some(st') => At(at + 4, st'))
  {
    hide Encode, Decode, WordAt, Exec;
    DecodeEncode(a);
  }

  lemma InPlaceTail(code: seq<byte>, k: nat, items: seq<Item>, l: L.Places, n: nat)
    requires InPlace(code, k, items, l) && n <= |items|
    ensures InPlace(code, k + n, items[n..], l)
  {
    hide ItemAt;
    forall i | 0 <= i < |items| - n ensures ItemAt(code, 4 * (k + n + i), items[n..][i], l) {
      assert items[n..][i] == items[n + i] && ItemAt(code, 4 * (k + (n + i)), items[n + i], l);
    }
  }

  // ----- blocks -----

  /** Where the machine is when a block has ended. */
  function EndsAt(b: BlockEnd, next: nat, l: L.Places): Config
  {
    match b
    case Fall(st) => At(next, st)
    case Goto(t, st) => At(L.PlaceOf(l, L.TargetPc(t)), st)
    case Crash => Crashed
  }

  /** The words of a block run as the block does. */
  lemma {:induction false} BlockOnMachine(code: seq<byte>, base: u64, ext: External, k: nat, items: seq<Item>,
                                          l: L.Places, st: AState)
    returns (n: nat)
    requires InPlace(code, k, items, l) && AllProper(items) && GoodItems(items, l, base, |code|) && |code| < MAX_IMAGE
    requires 4 * (k + |items|) <= l.strings
    requires !ExecBlock(items, ext, st).Crash?
    ensures Ticks(code, base, ext, At(4 * k, st), n) == EndsAt(ExecBlock(items, ext, st), 4 * (k + |items|), l)
    decreases |items|
  {
    hide Tick, InPlace, Exec, Holds, L.PlaceOf;
    if items == [] {
      n := 0;
    } else {
      var at := 4 * k;
      assert ItemAt(code, at, items[0], l) by { FirstInPlace(code, k, items, l); }
      assert GoodItem(items[0], l, base, |code|) && Proper(items[0]);
      hide ItemAt;
      var c := Tick(code, base, ext, At(at, st));
      var skip: nat, y := 1, st;
      match items[0] {
        case Do(a) =>
          TickDo(code, base, ext, at, a, l, st);
          if a.Cbnz? {
            skip := if Narrow(a.sf, Read(st.regs, a.rt)) == 0 then 1 else SignedField(a.imm19, 0x4_0000);
          } else {
            y := Exec(a, ext, st).value;
          }
        case To(t) =>
          TickTo(code, base, ext, at, t, l, st);
          assert Ticks(code, base, ext, c, 0) == c;
          return 1;
        case If(cond, t) =>
          TickIf(code, base, ext, at, cond, t, l, st);
          if Holds(cond, st.flags.value) {
            assert Ticks(code, base, ext, c, 0) == c;
            return 1;
          }
        case Address(rd, value) =>
          TickAddress(code, base, ext, at, rd, value, l, st);
          y := WithReg(st, rd, value);
      }
      InPlaceTail(code, k, items, l, skip);
      assert ExecBlock(items, ext, st) == ExecBlock(items[skip..], ext, y);
      assert c == At(4 * (k + skip), y);
      hide GoodItem;
      var m := BlockOnMachine(code, base, ext, k + skip, items[skip..], l, y);
      n := m + 1;
    }
  }

  lemma FirstInPlace(code: seq<byte>, k: nat, items: seq<Item>, l: L.Places)
    requires items != [] && InPlace(code, k, items, l)
    ensures ItemAt(code, 4 * k, items[0], l)
  {
    assert ItemAt(code, 4 * (k + 0), items[0], l);
  }

  /** Code in the middle of code that is in place is in place. */
  lemma InPlacePart(code: seq<byte>, items: seq<Item>, l: L.Places, a: seq<Item>, b: seq<Item>, c: seq<Item>)
    requires InPlace(code, 0, items, l) && items == a + (b + c)
    ensures InPlace(code, |a|, b, l)
  {
    InPlaceTail(code, 0, items, l, |a|);
    assert items[|a|..] == b + c;
    hide ItemAt;
    forall i | 0 <= i < |b| ensures ItemAt(code, 4 * (|a| + i), b[i], l) {
      assert ItemAt(code, 4 * (|a| + i), (b + c)[i], l);
    }
  }

  // ----- places -----

  lemma {:induction false} LocsInside(p: S.Source, i: nat, off: nat, k: nat)
    requires off % 4 == 0 && k in Locs(p, i, off)
    ensures Locs(p, i, off)[k] % 4 == 0 && off <= Locs(p, i, off)[k] <= off + 4 * |BodyCode(p, i)|
    decreases |p.insts| - i
  {
    hide Code;
    if k != i || i >= |p.insts| {
      LocsInside(p, V.After(p.insts, i), off + 4 * |Code(p, i)|, k);
    }
  }

  lemma PlacesSum(p: S.Source, str: u64)
    ensures var l := PlacesOf(p);
      && l.exit == 4 * (|Prologue()| + |BodyCode(p, 0)|) && l.divByZero == l.exit + 4 * |Epilogue()| + 4
      && l.strings == l.divByZero + 4 * |DivHandler(p, str)| == 4 * |AllItems(p, str)|
  {
    hide Prologue, Epilogue, BodyCode, CallCode, MoveCode;
    assert |DivHandler(p, str)| == |DivHandler(p, 0)|;
    hide DivHandler;
  }

  /** Whatever a jump names, it goes to a word of the code. */
  lemma EveryTarget(p: S.Source, str: u64, t: S.Target)
    ensures GoodTarget(PlacesOf(p), t, 4 * |AllItems(p, str)|)
  {
    PlacesSum(p, str);
    hide Prologue, Epilogue, BodyCode, AllItems, DivHandler, Locs;
    var start := 4 * |Prologue()|;
    if t.ToSlot? && t.pc in Locs(p, 0, start) {
      LocsInside(p, 0, start, t.pc);
    }
  }

  /** The code of slot `k` sits at its place, followed by the code of the next instruction. */
  lemma {:induction false} CodeSplit(p: S.Source, i: nat, off: nat, k: nat) returns (a: seq<Item>)
    requires k in V.Starts(p.insts, i) && k < |p.insts|
    ensures k in Locs(p, i, off) && off + 4 * |a| == Locs(p, i, off)[k]
    ensures BodyCode(p, i) == a + (Code(p, k) + BodyCode(p, V.After(p.insts, k)))
    decreases |p.insts| - i
  {
    hide Code;
    var next := V.After(p.insts, i);
    if k == i {
      a := [];
      assert [] + (Code(p, k) + BodyCode(p, next)) == Code(p, k) + BodyCode(p, next);
    } else {
      var rest := CodeSplit(p, next, off + 4 * |Code(p, i)|, k);
      LaterStart(p, i, k);
      a := Code(p, i) + rest;
      assert Code(p, i) + (rest + (Code(p, k) + BodyCode(p, V.After(p.insts, k)))) ==
        a + (Code(p, k) + BodyCode(p, V.After(p.insts, k)));
    }
  }

  lemma LaterStart(p: S.Source, i: nat, k: nat)
    requires i < |p.insts| && k != i && k in V.Starts(p.insts, i)
    ensures k in V.Starts(p.insts, V.After(p.insts, i))
  {
  }

  /** The place of a slot, or of the epilogue past the end. */
  function PcPlace(p: S.Source, pc: nat): nat
  {
    var l := PlacesOf(p);
    if pc in l.locs then l.locs[pc] else l.exit
  }

  /** Where the code of slot `k` is in the whole code, and that the next instruction follows it. */
  lemma SlotPlace(p: S.Source, str: u64, k: nat) returns (a: seq<Item>, c: seq<Item>)
    requires V.IsStart(p.insts, k) && k < |p.insts| < MAX_INSTS
    requires V.After(p.insts, k) == |p.insts| || V.IsStart(p.insts, V.After(p.insts, k))
    ensures AllItems(p, str) == a + (Code(p, k) + c) && PcPlace(p, k) == 4 * |a|
    ensures PcPlace(p, V.After(p.insts, k)) == 4 * (|a| + |Code(p, k)|)
  {
    hide Prologue, Epilogue, BodyCode, DivHandler, Code, Locs, V.Starts, V.After;
    var start, next := 4 * |Prologue()|, V.After(p.insts, k);
    var mid := CodeSplit(p, 0, start, k);
    var tail := (Epilogue() + [Do(RetTo(LR))]) + DivHandler(p, str);
    a, c := Prologue() + mid, BodyCode(p, next) + tail;
    Regroup(Prologue(), mid, Code(p, k), BodyCode(p, next), Epilogue() + [Do(RetTo(LR))], DivHandler(p, str));
    PlacesSum(p, str);
    assert |BodyCode(p, 0)| == |mid| + |Code(p, k)| + |BodyCode(p, next)|;
    if next < |p.insts| {
      var mid' := CodeSplit(p, 0, start, next);
      BodyEnd(p, next);
      assert |mid'| + |BodyCode(p, next)| == |BodyCode(p, 0)|;
    } else {
      assert BodyCode(p, next) == [] by { NoBody(p, next); }
      assert next !in Locs(p, 0, start) by { LocsBelow(p, 0, start, next); }
    }
  }

  lemma {:induction false} LocsBelow(p: S.Source, i: nat, off: nat, k: nat)
    requires k >= |p.insts|
    ensures k !in Locs(p, i, off)
    decreases |p.insts| - i
  {
    hide Code, V.After;
    if i < |p.insts| {
      assert V.After(p.insts, i) > i by { AfterGrows(p, i); }
      LocsBelow(p, V.After(p.insts, i), off + 4 * |Code(p, i)|, k);
    }
  }

  lemma AfterGrows(p: S.Source, i: nat)
    requires i < |p.insts|
    ensures V.After(p.insts, i) > i
  {
  }

  lemma Regroup(a: seq<Item>, b: seq<Item>, c: seq<Item>, d: seq<Item>, e: seq<Item>, g: seq<Item>)
    ensures a + (b + (c + d)) + e + g == (a + b) + (c + (d + (e + g)))
  {
  }

  lemma BodyEnd(p: S.Source, k: nat)
    requires k < |p.insts|
    ensures BodyCode(p, k) == Code(p, k) + BodyCode(p, V.After(p.insts, k))
  {
  }

  lemma NoBody(p: S.Source, k: nat)
    requires k >= |p.insts|
    ensures BodyCode(p, k) == []
  {
  }

  // ----- everything emitted is proper -----

  lemma ProperAppend(a: seq<Item>, b: seq<Item>)
    requires AllProper(a) && AllProper(b)
    ensures AllProper(a + b)
  {
  }

  lemma CodeProper(p: S.Source, k: nat)
    requires k < |p.insts|
    ensures AllProper(Code(p, k))
  {
    var inst := p.insts[k];
    if DecodeOp(inst.opcode).Some? {
      var op := DecodeOp(inst.opcode).value;
      hide DecodeOp, MoveCode, OpCode, AllProper;
      PrefixProper(op, inst.imm);
      OpProper(p, k, inst, op, MapRegister(inst.dst), SourceRegister(inst, op));
      ProperAppend(PrefixCode(op, inst.imm), OpCode(p, k, inst, op, MapRegister(inst.dst), SourceRegister(inst, op)));
    }
  }

  lemma PrefixProper(op: Op, imm: i32)
    ensures AllProper(PrefixCode(op, imm))
  {
    hide MoveCode;
  }

  lemma OpProper(p: S.Source, k: nat, inst: Inst, op: Op, dst: areg, src: areg)
    requires k < |p.insts|
    ensures AllProper(OpCode(p, k, inst, op, dst, src))
  {
    hide MoveCode, RegisterForm, S.LddwBits;
    if op.Alu? {
      RegisterProper(k % TWO16, op.width.W64?, op.alu, dst, src);
    }
  }

  lemma RegisterProper(pc: u16, sf: bool, a: AluOp, dst: areg, src: areg)
    ensures AllProper(RegisterForm(pc, sf, a, dst, src))
  {
    hide MoveCode;
  }

  lemma FrameProper(p: S.Source, str: u64)
    ensures AllProper(Prologue()) && AllProper(Epilogue()) && AllProper(DivHandler(p, str))
  {
    hide Prologue, Epilogue, DivHandler;
    PrologueProper();
    EpilogueProper();
    HandlerProper(p, str);
  }

  lemma PrologueProper()
    ensures AllProper(Prologue())
  {
  }

  lemma EpilogueProper()
    ensures AllProper(Epilogue())
  {
  }

  lemma HandlerProper(p: S.Source, str: u64)
    ensures AllProper(DivHandler(p, str))
  {
    hide MoveCode;
  }
}
