/**
 * The prologue, the epilogue and the division handler of AArch64 code: ten registers are saved below the program's
 * stack on entry and restored from there on return, whatever the program did in between.
 */
module A64Frame {
  import opened Words
  import opened Ebpf
  import opened Memory
  import opened A64
  import opened A64Moves
  import opened A64Select
  import opened A64Exec
  import opened A64Simulation
  import opened A64Steps
  import S = Select
  import I = Interp

  // ----- saved registers -----

  lemma SavedValues()
    ensures |SAVED| == 10 && SAVED[0] == 29 && SAVED[1] == 30 && SAVED[2] == 19 && SAVED[3] == 20 && SAVED[4] == 21
    ensures SAVED[5] == 22 && SAVED[6] == 23 && SAVED[7] == 24 && SAVED[8] == 25 && SAVED[9] == 26
  {
  }

  /** The first `n` saved registers are in their places. */
  ghost predicate SavedIn(m: Mem, sp: int, v: ARegs, n: nat)
    requires n <= 10
  {
    forall j :: 0 <= j < n ==> SlotHolds(m, sp + 8 * j, v[SAVED[j]])
  }

  ghost predicate SlotHolds(m: Mem, a: int, v: u64) { Mapped(m, a, 8) && Load64(m, a) == v }

  ghost predicate SameOutside(m1: Mem, m2: Mem, lo: int, hi: int)
  {
    m2.Keys == m1.Keys && forall a :: a in m1 && !(lo <= a < hi) ==> m2[a] == m1[a]
  }

  ghost predicate AllSaved(m: Mem, sp: int, v: ARegs) { SavedIn(m, sp, v, 10) }

  lemma SlotKept(m1: Mem, m2: Mem, a: int, v: u64)
    requires SlotHolds(m1, a, v) && forall k :: a <= k < a + 8 ==> k in m2 && m2[k] == m1[k]
    ensures SlotHolds(m2, a, v)
  {
    LoadCong(m1, m2, a, 8);
  }

  lemma SlotOutside(m1: Mem, m2: Mem, a: int, v: u64, lo: int, hi: int)
    requires SlotHolds(m1, a, v) && SameOutside(m1, m2, lo, hi) && (a + 8 <= lo || hi <= a)
    ensures SlotHolds(m2, a, v)
  {
    SlotKept(m1, m2, a, v);
  }

  lemma SlotStored(m: Mem, a: int, v: u64)
    requires Mapped(m, a, 8)
    ensures SlotHolds(Store(m, a, 8, v), a, v) && SameOutside(m, Store(m, a, 8, v), a, a + 8)
  {
    hide Store, LeBytes, FromLe, Pow2;
    var n := 8;
    StoreAt(m, a, n, v);
    assert Pow2(8 * n) == TWO64 by { Pow2Values(); }
    LoadStore(m, a, n, v);
  }

  /** One more register is stored above those that are. */
  lemma SaveOne(m: Mem, sp: int, v: ARegs, n: nat)
    requires n < 10 && SavedIn(m, sp, v, n) && Mapped(m, sp + 8 * n, 8)
    ensures SavedIn(Store(m, sp + 8 * n, 8, v[SAVED[n]]), sp, v, n + 1)
    ensures SameOutside(m, Store(m, sp + 8 * n, 8, v[SAVED[n]]), sp + 8 * n, sp + 8 * n + 8)
  {
    hide Store, SlotHolds, SameOutside;
    var m' := Store(m, sp + 8 * n, 8, v[SAVED[n]]);
    SlotStored(m, sp + 8 * n, v[SAVED[n]]);
    forall j | 0 <= j < n + 1 ensures SlotHolds(m', sp + 8 * j, v[SAVED[j]]) {
      if j < n {
        assert SlotHolds(m, sp + 8 * j, v[SAVED[j]]);
        SlotOutside(m, m', sp + 8 * j, v[SAVED[j]], sp + 8 * n, sp + 8 * n + 8);
      }
    }
  }

  /** A pair of registers is stored. */
  lemma SavePair(ext: External, st: AState, v: ARegs, i: nat)
    requires i < 5 && st.sp + 80 < TWO64 && Mapped(st.mem, st.sp, 80) && SavedIn(st.mem, st.sp, v, 2 * i)
    requires st.regs[SAVED[2 * i]] == v[SAVED[2 * i]] && st.regs[SAVED[2 * i + 1]] == v[SAVED[2 * i + 1]]
    ensures var e := Exec(SavedPair(false, i).a, ext, st);
      && e.Some? && e.value.regs == st.regs && e.value.sp == st.sp && SavedIn(e.value.mem, st.sp, v, 2 * i + 2)
      && SameOutside(st.mem, e.value.mem, st.sp, st.sp + 80)
  {
    SavedValues();
    hide Store, SavedIn, Mapped;
    var at := st.sp + 8 * (2 * i);
    assert Wrap64(at) == at && Wrap64(at + 8) == at + 8 && SignedField(2 * i, 0x40) == 2 * i;
    assert SAVED[2 * i] != 31 && SAVED[2 * i + 1] != 31;
    MappedPart(st.mem, st.sp, at);
    SaveOne(st.mem, st.sp, v, 2 * i);
    var m1 := Store(st.mem, at, 8, v[SAVED[2 * i]]);
    MappedPart(m1, st.sp, at + 8) by { SameMapped(st.mem, m1, st.sp); }
    SaveOne(m1, st.sp, v, 2 * i + 1);
    hide SignedField, Wrap64;
  }

  lemma MappedPart(m: Mem, sp: int, a: int)
    requires Mapped(m, sp, 80) && sp <= a && a + 8 <= sp + 80
    ensures Mapped(m, a, 8)
  {
  }

  lemma SameMapped(m1: Mem, m2: Mem, a: int)
    requires Mapped(m1, a, 80) && m2.Keys == m1.Keys
    ensures Mapped(m2, a, 80)
  {
  }

  lemma {:induction false} SavePairsRun(ext: External, st: AState, v: ARegs, i: nat, rest: seq<Item>)
    returns (y: AState)
    requires 1 <= i <= 5 && st.sp + 80 < TWO64 && Mapped(st.mem, st.sp, 80) && SavedIn(st.mem, st.sp, v, 2 * i)
    requires forall r :: 19 <= r < 27 ==> st.regs[r] == v[r]
    ensures ExecBlock(SavedPairs(false, i) + rest, ext, st) == ExecBlock(rest, ext, y)
    ensures y.regs == st.regs && y.sp == st.sp && SavedIn(y.mem, st.sp, v, 10)
    ensures SameOutside(st.mem, y.mem, st.sp, st.sp + 80)
    decreases 5 - i
  {
    hide Exec, SavedIn, Mapped, ExecBlock;
    if i == 5 {
      assert SavedPairs(false, i) + rest == rest;
      y := st;
    } else {
      SavedValues();
      SavePair(ext, st, v, i);
      var a := SavedPair(false, i).a;
      var next := Exec(a, ext, st).value;
      assert SavedPairs(false, i) + rest == [Do(a)] + (SavedPairs(false, i + 1) + rest);
      ExecStep(a, SavedPairs(false, i + 1) + rest, ext, st);
      SameMapped(st.mem, next.mem, st.sp);
      y := SavePairsRun(ext, next, v, i + 1, rest);
    }
  }

  // ----- entering -----

  /** Room for the activation below the stack pointer, apart from the program's memory but for the program's stack. */
  ghost predicate EntryOk(x: AState, m: Mem)
  {
    && FRAME_SIZE <= x.sp && Mapped(x.mem, x.sp - FRAME_SIZE, FRAME_SIZE) && Contains(x.mem, m)
    && forall a :: a in m ==> !(x.sp - FRAME_SIZE <= a < x.sp - STACK_SIZE)
  }

  /** The arguments, and the program's stack at the top of the frame. */
  function CtxOf(x: AState): I.Ctx { I.Ctx(x.regs[0], x.regs[1], Wrap64(x.sp - STACK_SIZE)) }

  /** What the registers the interpreter leaves uninitialised hold. */
  function GarbageOf(x: AState): I.Regs
  {
    var r: seq<u64> := seq(16, i requires 0 <= i < 16 => GarbageReg(x, i));
    r
  }

  function GarbageReg(x: AState, i: nat): u64 { if i <= 10 then x.regs[MapRegister(i)] else 0 }

  function EntryState(x: AState, m: Mem): I.State { I.Initial(CtxOf(x), GarbageOf(x), m) }

  /** The saved registers are in the ten slots from the stack pointer on, and nothing else is kept. */
  ghost predicate OnlySlots(f: Frame)
  {
    forall a :: a in f.saved ==> f.sp <= a < f.sp + 80
  }

  function FrameOf(m: Mem, y: AState): Frame
  {
    Frame(m.Keys, map a | a in y.mem.Keys && y.sp <= a < y.sp + 80 :: y.mem[a], y.sp)
  }

  lemma EntryRegs(x: AState, m: Mem, y: ARegs)
    requires FRAME_SIZE <= x.sp && y == x.regs[FP := y[FP]][23 := x.sp]
    ensures RegsRel(EntryState(x, m).regs, y)
  {
    MapValues();
    MapFacts();
    var r := EntryState(x, m).regs;
    forall i | 0 <= i <= 10 ensures y[REGISTER_MAP[i]] == r[i] {
      assert MapRegister(i) == REGISTER_MAP[i] by { assert i % 11 == i; }
    }
  }

  /** Memory after the saves holds the program's and the saved registers. */
  lemma EntryMem(x: AState, m: Mem, y: AState)
    requires EntryOk(x, m) && y.sp == x.sp - FRAME_SIZE && SameOutside(x.mem, y.mem, y.sp, y.sp + 80)
    requires SavedIn(y.mem, y.sp, x.regs, 10)
    ensures MemRel(FrameOf(m, y), m, y) && SavedIn(FrameOf(m, y).saved, y.sp, x.regs, 10)
  {
    hide SlotHolds, EntryOk, MemRel, SameOutside, FrameOf;
    EntryAround(x, m, y);
    var rest := FrameOf(m, y).saved;
    forall j | 0 <= j < 10 ensures SlotHolds(rest, y.sp + 8 * j, x.regs[SAVED[j]]) {
      SlotBeside(x, m, y, y.sp + 8 * j, x.regs[SAVED[j]]);
    }
  }

  lemma EntryAround(x: AState, m: Mem, y: AState)
    requires EntryOk(x, m) && y.sp == x.sp - FRAME_SIZE && SameOutside(x.mem, y.mem, y.sp, y.sp + 80)
    ensures MemRel(FrameOf(m, y), m, y)
  {
    assert forall a :: a in m ==> a in y.mem && y.mem[a] == m[a];
  }

  lemma SlotBeside(x: AState, m: Mem, y: AState, a: int, v: u64)
    requires EntryOk(x, m) && y.sp == x.sp - FRAME_SIZE && y.sp <= a && a + 8 <= y.sp + 80 && SlotHolds(y.mem, a, v)
    ensures SlotHolds(FrameOf(m, y).saved, a, v)
  {
    SlotKept(y.mem, FrameOf(m, y).saved, a, v);
  }

  lemma LowerExec(ext: External, st: AState)
    requires FRAME_SIZE <= st.sp
    ensures Exec(SumImm(true, SUB, SP, SP, FRAME_SIZE), ext, st) == Some(st.(sp := st.sp - FRAME_SIZE))
  {
  }

  lemma RaiseExec(ext: External, st: AState, rd: areg)
    requires st.sp + FRAME_SIZE < TWO64 && rd < SP
    ensures Exec(SumImm(true, ADD, SP, SP, FRAME_SIZE), ext, st) == Some(st.(sp := st.sp + FRAME_SIZE))
    ensures Exec(SumImm(true, ADD, rd, SP, FRAME_SIZE), ext, st) == Some(WithReg(st, rd, st.sp + FRAME_SIZE))
  {
  }

  lemma PointExec(ext: External, st: AState)
    ensures Exec(SumImm(true, ADD, FP, SP, 0), ext, st) == Some(WithReg(st, FP, st.sp))
  {
  }

  lemma RoomForSaves(m: Mem, sp: int, v: ARegs)
    requires Mapped(m, sp, FRAME_SIZE)
    ensures Mapped(m, sp, 80) && SavedIn(m, sp, v, 0)
  {
  }

  /** The stack pointer is lowered, the link saved, and the frame pointer set. */
  lemma PrologueHead(ext: External, x: AState, tail: seq<Item>) returns (y: AState)
    requires FRAME_SIZE <= x.sp && Mapped(x.mem, x.sp - FRAME_SIZE, FRAME_SIZE)
    ensures ExecBlock([Do(SumImm(true, SUB, SP, SP, FRAME_SIZE)), SavedPair(false, 0),
      Do(SumImm(true, ADD, FP, SP, 0))] + tail, ext, x)
      == ExecBlock(tail, ext, y)
    ensures y.sp == x.sp - FRAME_SIZE && y.regs == x.regs[FP := y.sp] && Mapped(y.mem, y.sp, 80)
    ensures SavedIn(y.mem, y.sp, x.regs, 2) && SameOutside(x.mem, y.mem, y.sp, y.sp + 80)
  {
    hide SavedIn, Mapped, ExecBlock, Exec, SavedPair;
    SavedValues();
    var sp := x.sp - FRAME_SIZE;
    var sub, pair, fp := SumImm(true, SUB, SP, SP, FRAME_SIZE), SavedPair(false, 0).a, SumImm(true, ADD, FP, SP, 0);
    var x1 := x.(sp := sp);
    LowerExec(ext, x);
    RoomForSaves(x.mem, sp, x.regs);
    SavePair(ext, x1, x.regs, 0);
    var x2 := Exec(pair, ext, x1).value;
    y := WithReg(x2, FP, sp);
    PointExec(ext, x2);
    SameMapped(x.mem, y.mem, sp);
    assert [Do(sub), Do(pair), Do(fp)] + tail == [Do(sub)] + ([Do(pair)] + ([Do(fp)] + tail));
    ExecStep(sub, [Do(pair)] + ([Do(fp)] + tail), ext, x);
    ExecStep(pair, [Do(fp)] + tail, ext, x1);
    ExecStep(fp, tail, ext, x2);
  }

  /** The prologue makes the frame and saves the registers; the program starts as the interpreter starts it. */
  lemma PrologueRuns(ext: External, x: AState, m: Mem) returns (y: AState)
    requires EntryOk(x, m)
    ensures ExecBlock(Prologue(), ext, x) == Fall(y)
    ensures var f := FrameOf(m, y);
      Holding(f, EntryState(x, m).regs, m, y) && AllSaved(f.saved, f.sp, x.regs) && f.sp == x.sp - FRAME_SIZE &&
        OnlySlots(f)
  {
    hide SavedIn, Mapped, ExecBlock, Exec, SavedPair;
    MapValues();
    var top := SumImm(true, ADD, MapRegister(10), SP, FRAME_SIZE);
    var tail := SavedPairs(false, 1) + [Do(top)];
    assert Mapped(x.mem, x.sp - FRAME_SIZE, FRAME_SIZE);
    var a := PrologueHead(ext, x, tail);
    var b := SavePairsRun(ext, a, x.regs, 1, [Do(top)]);
    y := WithReg(b, 23, x.sp);
    RaiseExec(ext, b, 23);
    ExecOne(top, ext, b);
    PrologueSplit(tail);
    EntryMem(x, m, y);
    EntryRegs(x, m, y.regs);
  }

  lemma PrologueSplit(tail: seq<Item>)
    requires tail == SavedPairs(false, 1) + [Do(SumImm(true, ADD, MapRegister(10), SP, FRAME_SIZE))]
    ensures Prologue() == [Do(SumImm(true, SUB, SP, SP, FRAME_SIZE)), SavedPair(false, 0),
      Do(SumImm(true, ADD, FP, SP, 0))] + tail
  {
    hide SavedPairs, SavedPair;
  }

  // ----- leaving -----

  function WithPair(st: AState, i: nat, v: ARegs): AState
    requires i < 5
  {
    var a, b := SAVED[2 * i], SAVED[2 * i + 1];
    WithReg(WithReg(st, a, v[a]), b, v[b])
  }

  lemma RestorePair(ext: External, st: AState, rest: Mem, v: ARegs, i: nat)
    requires i < 5 && st.sp + 80 < TWO64 && SavedIn(rest, st.sp, v, 10) && Contains(st.mem, rest)
    ensures Exec(SavedPair(true, i).a, ext, st) == Some(WithPair(st, i, v))
  {
    SavedValues();
    hide Load;
    var at := st.sp + 8 * (2 * i);
    assert Wrap64(at) == at && Wrap64(at + 8) == at + 8 && SignedField(2 * i, 0x40) == 2 * i;
    assert SAVED[2 * i] != 31 && SAVED[2 * i + 1] != 31;
    assert SlotHolds(rest, st.sp + 8 * (2 * i), v[SAVED[2 * i]]) &&
      SlotHolds(rest, st.sp + 8 * (2 * i + 1), v[SAVED[2 * i + 1]]);
    SlotKept(rest, st.mem, at, v[SAVED[2 * i]]);
    SlotKept(rest, st.mem, at + 8, v[SAVED[2 * i + 1]]);
    hide SignedField, Wrap64, SavedIn, Contains;
  }

  /** Registers 19 to 26 from pair `i` on are restored. */
  predicate RestoredFrom(i: nat, x: ARegs, v: ARegs, y: ARegs)
  {
    forall r :: 0 <= r < 32 ==> y[r] == if 17 + 2 * i <= r < 27 then v[r] else x[r]
  }

  lemma {:induction false} RestorePairsRun(ext: External, st: AState, rest: Mem, v: ARegs, i: nat, tail: seq<Item>)
    returns (y: AState)
    requires 1 <= i <= 5 && st.sp + 80 < TWO64 && SavedIn(rest, st.sp, v, 10) && Contains(st.mem, rest)
    ensures ExecBlock(SavedPairs(true, i) + tail, ext, st) == ExecBlock(tail, ext, y)
    ensures y.sp == st.sp && y.mem == st.mem && RestoredFrom(i, st.regs, v, y.regs)
    decreases 5 - i
  {
    hide Exec, SavedIn, ExecBlock, Contains;
    if i == 5 {
      assert SavedPairs(true, i) + tail == tail;
      y := st;
    } else {
      SavedValues();
      RestorePair(ext, st, rest, v, i);
      var a := SavedPair(true, i).a;
      var next := Exec(a, ext, st).value;
      assert SavedPairs(true, i) + tail == [Do(a)] + (SavedPairs(true, i + 1) + tail);
      ExecStep(a, SavedPairs(true, i + 1) + tail, ext, st);
      y := RestorePairsRun(ext, next, rest, v, i + 1, tail);
      assert SAVED[2 * i] == 17 + 2 * i && SAVED[2 * i + 1] == 18 + 2 * i;
    }
  }

  /** The result is in register 0, and every saved register and the stack pointer are as on entry. */
  ghost predicate Restored(f: Frame, x: AState, v: ARegs, y: AState)
  {
    && y.regs[0] == x.regs[5] && y.sp == f.sp + FRAME_SIZE && y.mem == x.mem
    && forall j :: 0 <= j < 10 ==> y.regs[SAVED[j]] == v[SAVED[j]]
  }

  lemma EpilogueRuns(ext: External, f: Frame, m: Mem, x: AState, v: ARegs) returns (y: AState)
    requires MemRel(f, m, x) && AllSaved(f.saved, f.sp, v) && f.sp + FRAME_SIZE < TWO64
    ensures ExecBlock(Epilogue(), ext, x) == Fall(y) && Restored(f, x, v, y)
  {
    assert Contains(x.mem, f.saved);
    assert x.sp == f.sp;
    hide ExecBlock, SavedIn, Contains, MemRel, Exec, SavedPair, SavedPairs, Restored, RestoredFrom;
    var mov, a := LogicReg(true, ORR, 0, RZ, MapRegister(0)), WithReg(x, 0, x.regs[5]);
    MoveExec(ext, x);
    var tail := [Do(SavedPair(true, 0).a)] + [Do(SumImm(true, ADD, SP, SP, FRAME_SIZE))];
    EpilogueSplit();
    ExecStep(mov, SavedPairs(true, 1) + tail, ext, x);
    var b := RestorePairsRun(ext, a, f.saved, v, 1, tail);
    y := EpilogueTail(ext, f, b, v);
    RestoredAll(f, x, v, a, b, y);
  }

  lemma EpilogueTail(ext: External, f: Frame, b: AState, v: ARegs) returns (y: AState)
    requires b.sp == f.sp && Contains(b.mem, f.saved) && SavedIn(f.saved, f.sp, v, 10) && f.sp + FRAME_SIZE < TWO64
    ensures ExecBlock([Do(SavedPair(true, 0).a)] + [Do(SumImm(true, ADD, SP, SP, FRAME_SIZE))], ext, b) == Fall(y)
    ensures y == WithPair(b, 0, v).(sp := f.sp + FRAME_SIZE)
  {
    hide ExecBlock, SavedIn, Contains, Exec, SavedPair;
    RestorePair(ext, b, f.saved, v, 0);
    var pair, add := SavedPair(true, 0).a, SumImm(true, ADD, SP, SP, FRAME_SIZE);
    var c := Exec(pair, ext, b).value;
    RaiseExec(ext, c, 0);
    ExecStep(pair, [Do(add)], ext, b);
    ExecOne(add, ext, c);
    y := c.(sp := f.sp + FRAME_SIZE);
  }

  lemma EpilogueSplit()
    ensures Epilogue() == [Do(LogicReg(true, ORR, 0, RZ, MapRegister(0)))]
      + (SavedPairs(true, 1) + ([Do(SavedPair(true, 0).a)] + [Do(SumImm(true, ADD, SP, SP, FRAME_SIZE))]))
  {
    hide SavedPairs;
  }

  lemma RestoredAll(f: Frame, x: AState, v: ARegs, a: AState, b: AState, y: AState)
    requires a == WithReg(x, 0, x.regs[5]) && b.mem == a.mem && RestoredFrom(1, a.regs, v, b.regs)
    requires f.sp + FRAME_SIZE < TWO64
    requires y == WithPair(b, 0, v).(sp := f.sp + FRAME_SIZE)
    ensures Restored(f, x, v, y)
  {
    MapValues();
    SavedValues();
    forall j | 0 <= j < 10 ensures y.regs[SAVED[j]] == v[SAVED[j]] {
      if j >= 2 {
        assert 19 <= SAVED[j] < 27;
      }
    }
  }

  lemma MoveExec(ext: External, x: AState)
    ensures Exec(LogicReg(true, ORR, 0, RZ, MapRegister(0)), ext, x) == Some(WithReg(x, 0, x.regs[5]))
  {
    MapValues();
    hide Bitwise;
    OrZero(x.regs[5]);
    assert Narrow(true, x.regs[5]) == x.regs[5] && Narrow(true, 0) == 0;
  }

  // ----- the division handler -----

  /** The reporting function leaves the program's memory and the frame alone. */
  ghost predicate PrinterOk(f: Frame, ext: External, addr: u64)
  {
    forall x: AState, m :: MemRel(f, m, x) ==> MemRel(f, m, ext(addr, x))
  }

  /**
   * The handler calls the reporting function, once, with the stream and the message's address in its first two argument
   * registers and no other register changed but the one the call goes through, and goes to the exit with -1.
   */
  lemma HandlerRuns(p: S.Source, str: u64, ext: External, f: Frame, m: Mem, x: AState) returns (y: AState)
    requires MemRel(f, m, x) && PrinterOk(f, ext, p.errorPrintf)
    ensures ExecBlock(DivHandler(p, str), ext, x) == Goto(S.ToExit, y)
    ensures MemRel(f, m, y) && y.regs[5] == TWO64 - 1
    ensures var after := ext(p.errorPrintf, x.(regs := x.regs[0 := p.stderr][1 := str][TEMP := p.errorPrintf]));
      y == after.(regs := after.regs[5 := TWO64 - 1])
  {
    MapValues();
    hide MoveCode, CallCode, PrinterOk, MemRel;
    var last := Lift(MoveCode(true, MapRegister(0), TWO64 - 1)) + [To(S.ToExit)];
    var a := WithReg(x, 1, str);
    var b := WithReg(a, 0, p.stderr);
    var c := WithReg(ext(p.errorPrintf, WithReg(b, TEMP, p.errorPrintf)), 5,
      ext(p.errorPrintf, WithReg(b, TEMP, p.errorPrintf)).regs[0]);
    y := WithReg(c, 5, TWO64 - 1);
    assert WithReg(b, TEMP, p.errorPrintf).regs == x.regs[0 := p.stderr][1 := str][TEMP := p.errorPrintf];
    PrinterKeeps(f, ext, p.errorPrintf, m, x, WithReg(b, TEMP, p.errorPrintf), y);
    assert Narrow(true, p.stderr) == p.stderr && Narrow(true, TWO64 - 1) == TWO64 - 1;
    hide Narrow;
    var call := CallCode(p.errorPrintf) + last;
    var rest := Lift(MoveCode(true, 0, p.stderr)) + call;
    assert DivHandler(p, str) == [Address(1, str)] + rest;
    AddressStep(1, str, rest, ext, x);
    assert ExecBlock([To(S.ToExit)], ext, y) == Goto(S.ToExit, y);
    hide ExecBlock;
    ExecConstant(true, 0, p.stderr, call, ext, a);
    CallRuns(p.errorPrintf, last, ext, b);
    ExecConstant(true, 5, TWO64 - 1, [To(S.ToExit)], ext, c);
  }

  lemma AddressStep(rd: areg, value: u64, rest: seq<Item>, ext: External, x: AState)
    ensures ExecBlock([Address(rd, value)] + rest, ext, x) == ExecBlock(rest, ext, WithReg(x, rd, value))
  {
    assert ([Address(rd, value)] + rest)[1..] == rest;
  }

  lemma PrinterKeeps(f: Frame, ext: External, addr: u64, m: Mem, x: AState, w: AState, y: AState)
    requires MemRel(f, m, x) && PrinterOk(f, ext, addr) && w.sp == x.sp && w.mem == x.mem
    requires y.sp == ext(addr, w).sp && y.mem == ext(addr, w).mem
    ensures MemRel(f, m, y)
  {
    SameMem(f, m, x, w);
    assert MemRel(f, m, ext(addr, w));
    hide PrinterOk;
    SameMem(f, m, ext(addr, w), y);
  }
}
