/** The prologue, the epilogue and the division handler: stack discipline of generated code. */
module CallFrame {
  import opened Words
  import opened Ebpf
  import opened Memory
  import opened X86
  import opened X86Exec
  import opened Select
  import opened Blocks
  import opened Simulation
  import I = Interp

  predicate Distinct(rs: seq<reg>)
  {
    forall i, j :: 0 <= i < j < |rs| ==> rs[i] != rs[j]
  }

  /** Register `rs[i]` is saved in the i-th 8-byte slot below `top`. */
  ghost predicate SavedBelow(rs: seq<reg>, v: Regs, m: Mem, top: int)
  {
    && Mapped(m, top - 8 * |rs|, 8 * |rs|)
    && forall i :: 0 <= i < |rs| ==> Load64(m, top - 8 * (i + 1)) == v[rs[i]]
  }

  ghost predicate SameOutside(m1: Mem, m2: Mem, lo: int, hi: int)
  {
    m2.Keys == m1.Keys && forall a :: a in m1 && !(lo <= a < hi) ==> m2[a] == m1[a]
  }

  lemma {:induction false} PushesRun(rs: seq<reg>, ext: External, str: u64, st: XState, top: int)
    requires st.regs[RSP] == top && top >= 8 * |rs| && Mapped(st.mem, top - 8 * |rs|, 8 * |rs|) && RSP !in rs
    ensures var e := ExecBlock(Pushes(rs), ext, str, st);
      && e.Fall? && e.st.regs == st.regs[RSP := top - 8 * |rs|] && SavedBelow(rs, st.regs, e.st.mem, top)
      && SameOutside(st.mem, e.st.mem, top - 8 * |rs|, top)
    decreases |rs|
  {
    hide Load64, Store, Exec, ExecBlock;
    if rs == [] {
      assert ExecBlock([], ext, str, st) == Fall(st) by { EmptyBlock(ext, str, st); }
    } else {
      var r, rest := rs[0], rs[1..];
      PushPushes(r, ext, st, top);
      var st1 := Exec(Push(r), ext, 0, st).st;
      StoreAt(st.mem, top - 8, 8, st.regs[r]);
      Load64Store(st.mem, top - 8, st.regs[r]);
      PushesRun(rest, ext, str, st1, top - 8);
      ExecStep(Push(r), Pushes(rest), ext, str, st);
      var e := ExecBlock(Pushes(rs), ext, str, st);
      assert e == ExecBlock(Pushes(rest), ext, str, st1);
      var m := e.st.mem;
      Load64Same(st1.mem, m, top - 8);
      forall i | 0 <= i < |rs| ensures Load64(m, top - 8 * (i + 1)) == st.regs[rs[i]] {
        if i > 0 {
          assert rest[i - 1] == rs[i];
          assert rs[i] in rs;
          assert Load64(m, (top - 8) - 8 * ((i - 1) + 1)) == st1.regs[rest[i - 1]];
          assert (top - 8) - 8 * ((i - 1) + 1) == top - 8 * (i + 1);
        }
      }
    }
  }

  lemma EmptyBlock(ext: External, str: u64, st: XState)
    ensures ExecBlock([], ext, str, st) == Fall(st)
  {
  }

  lemma Load64Same(m1: Mem, m2: Mem, a: int)
    requires Mapped(m1, a, 8) && Mapped(m2, a, 8) && forall k :: a <= k < a + 8 ==> m1[k] == m2[k]
    ensures Load64(m1, a) == Load64(m2, a)
  {
    LoadCong(m1, m2, a, 8);
  }

  /** Popping restores every saved register and changes no other one. */
  lemma {:induction false} PopsRun(rs: seq<reg>, v: Regs, ext: External, str: u64, st: XState, top: int)
    requires st.regs[RSP] == top - 8 * |rs| && 0 <= top - 8 * |rs| && top < TWO64
    requires SavedBelow(rs, v, st.mem, top) && RSP !in rs && Distinct(rs)
    ensures var e := ExecBlock(Pops(rs), ext, str, st);
      && e.Fall? && e.st.mem == st.mem && e.st.regs[RSP] == top
      && (forall r: reg :: r in rs ==> e.st.regs[r] == v[r])
      && (forall r: reg :: r !in rs && r != RSP ==> e.st.regs[r] == st.regs[r])
    decreases |rs|
  {
    hide Load64, Exec, ExecBlock;
    if rs == [] {
      EmptyBlock(ext, str, st);
    } else {
      var r, rest := rs[0], rs[1..];
      forall i | 0 <= i < |rest| ensures Load64(st.mem, (top - 8) - 8 * (i + 1)) == v[rest[i]] {
        assert Load64(st.mem, top - 8 * ((i + 1) + 1)) == v[rs[i + 1]];
        assert (top - 8) - 8 * (i + 1) == top - 8 * ((i + 1) + 1);
      }
      PopsRun(rest, v, ext, str, st, top - 8);
      ExecAppend(Pops(rest), [Plain(Pop(r))], ext, str, st);
      var st1 := ExecBlock(Pops(rest), ext, str, st).st;
      assert Load64(st.mem, top - 8 * (0 + 1)) == v[r];
      PopOne(r, ext, str, st1, top - 8);
      assert forall q: reg :: q in rs <==> q == r || q in rest;
      assert r !in rest;
    }
  }

  // ----- the frame of one activation -----

  const SAVED := 40

  lemma NonvolatileFacts()
    ensures |NONVOLATILE| == 5 && RSP !in NONVOLATILE && Distinct(NONVOLATILE)
    ensures forall r: reg :: r in NONVOLATILE <==> r in {RBP, RBX, R13, R14, R15}
  {
  }

  /** Room for the activation below the stack pointer: saved registers, the program's stack, two scratch slots. */
  ghost predicate EntryOk(x: XState, m: Mem)
  {
    var e := x.regs[RSP];
    && SAVED + STACK_SIZE + 16 <= e && Mapped(x.mem, e - SAVED - STACK_SIZE - 16, SAVED + STACK_SIZE + 16)
    && Contains(x.mem, m)
    && forall a :: a in m ==> !(e - SAVED - STACK_SIZE - 16 <= a < e - SAVED - STACK_SIZE) && !(e - SAVED <= a < e)
  }

  /** Where the interpreter's stack is when it is compared with generated code. */
  function CtxOf(x: XState): I.Ctx
  {
    I.Ctx(x.regs[RDI], x.regs[RSI], Wrap64(x.regs[RSP] as int - SAVED - STACK_SIZE))
  }

  /** The values generated code finds in registers it does not set are the interpreter's uninitialised ones. */
  function GarbageOf(x: XState): I.Regs
  {
    var r: seq<u64> := seq(16, i requires 0 <= i < 16 => GarbageReg(x, i));
    r
  }

  function GarbageReg(x: XState, i: nat): u64 { if i <= 10 then x.regs[REGISTER_MAP[i]] else 0 }

  function EntryState(x: XState, m: Mem): I.State { I.Initial(CtxOf(x), GarbageOf(x), m) }

  /** The prologue establishes the relation that every instruction keeps, and saves the nonvolatile registers. */
  lemma PrologueRuns(ext: External, str: u64, x: XState, m: Mem) returns (f: Frame)
    requires EntryOk(x, m)
    ensures var e := ExecBlock(Prologue(), ext, str, x);
      && e.Fall? && FrameOk(f) && f.sp == x.regs[RSP] - SAVED - STACK_SIZE && f.dom == m.Keys
      && Holding(f, EntryState(x, m).regs, m, e.st)
      && SavedBelow(NONVOLATILE, x.regs, e.st.mem, x.regs[RSP])
  {
    hide Exec, ExecBlock, Load64, Store, Mapped, ReadBytes, EntryState, FrameOk, MemRel, RegsRel;
    NonvolatileFacts();
    var top: int := x.regs[RSP];
    var sp: int := top - SAVED - STACK_SIZE;
    EntryMapped(x, m);
    PushesRun(NONVOLATILE, ext, str, x, top);
    var st1 := ExecBlock(Pushes(NONVOLATILE), ext, str, x).st;
    f := Frame(sp, ReadBytes(st1.mem, top - SAVED, SAVED), m.Keys);
    EnterRuns(ext, str, st1, top);
    var enter := [MovReg(RSP, MapRegister(10)), Plain(RI(true, SubRI, RSP, STACK_SIZE))];
    ExecAppend(Pushes(NONVOLATILE), enter, ext, str, x);
    var e := ExecBlock(Prologue(), ext, str, x);
    EntryRegs(x, m, e.st.regs);
    EntryMem(f, x, m, e.st);
  }

  lemma EntryMapped(x: XState, m: Mem)
    requires EntryOk(x, m)
    ensures Mapped(x.mem, x.regs[RSP] - SAVED, SAVED)
  {
  }

  lemma EnterRuns(ext: External, str: u64, st: XState, top: int)
    requires st.regs[RSP] == top - SAVED && SAVED + STACK_SIZE <= top < TWO64
    ensures var e := ExecBlock([MovReg(RSP, MapRegister(10)), Plain(RI(true, SubRI, RSP, STACK_SIZE))], ext, str, st);
      e.Fall? && e.st.mem == st.mem && e.st.regs == st.regs[RBP := top - SAVED][RSP := top - SAVED - STACK_SIZE]
  {
    MapValues();
    var sub := RI(true, SubRI, RSP, STACK_SIZE);
    MovMoves(RSP, RBP, ext, st);
    var st1 := Exec(RR(true, RROp.MovRR, RSP, RBP), ext, 0, st).st;
    ExecStep(RR(true, RROp.MovRR, RSP, RBP), [Plain(sub)], ext, str, st);
    ExecOne(sub, ext, str, st1);
    assert [MovReg(RSP, MapRegister(10)), Plain(sub)] == [Plain(RR(true, RROp.MovRR, RSP, RBP))] + [Plain(sub)];
  }

  lemma EntryRegs(x: XState, m: Mem, r: Regs)
    requires x.regs[RSP] >= SAVED + STACK_SIZE
    requires r == x.regs[RBP := x.regs[RSP] - SAVED][RSP := x.regs[RSP] - SAVED - STACK_SIZE]
    ensures RegsRel(EntryState(x, m).regs, r)
  {
    MapValues();
    MapFacts();
    var s := EntryState(x, m).regs;
    assert Wrap64(CtxOf(x).stack + STACK_SIZE) == x.regs[RSP] - SAVED;
    forall i | 0 <= i <= 10 ensures r[REGISTER_MAP[i]] == s[i] {
      if i < 10 {
        assert REGISTER_MAP[i] != REGISTER_MAP[10];
      }
    }
  }

  lemma EntryMem(f: Frame, x: XState, m: Mem, y: XState)
    requires EntryOk(x, m) && f.sp == x.regs[RSP] - SAVED - STACK_SIZE && f.dom == m.Keys
    requires y.regs[RSP] == f.sp && SameOutside(x.mem, y.mem, x.regs[RSP] - SAVED, x.regs[RSP])
    requires Mapped(y.mem, x.regs[RSP] - SAVED, SAVED) && f.saved == ReadBytes(y.mem, x.regs[RSP] - SAVED, SAVED)
    ensures FrameOk(f) && MemRel(f, m, y)
  {
    ReadBytesAt(y.mem, x.regs[RSP] - SAVED, SAVED);
    hide ReadBytes;
  }

  /** The epilogue returns the result with the stack pointer and the nonvolatile registers as they were on entry. */
  lemma EpilogueRuns(ext: External, str: u64, f: Frame, m: Mem, st: XState, v: Regs)
    requires FrameOk(f) && MemRel(f, m, st)
    requires SavedBelow(NONVOLATILE, v, st.mem, f.sp + STACK_SIZE + SAVED)
    ensures var e := ExecBlock(Epilogue(), ext, str, st);
      && e.Return? && e.st.mem == st.mem && e.st.regs[RAX] == st.regs[RAX] &&
        e.st.regs[RSP] == f.sp + STACK_SIZE + SAVED
      && forall r: reg :: r in NONVOLATILE ==> e.st.regs[r] == v[r]
  {
    hide Exec, ExecBlock, Load64;
    NonvolatileFacts();
    var top: int := f.sp + STACK_SIZE + SAVED;
    var add := RI(true, AddRI, RSP, STACK_SIZE);
    AddRuns(ext, st, f.sp);
    var st1 := Exec(add, ext, 0, st).st;
    ExecOne(add, ext, str, st);
    PopsRun(NONVOLATILE, v, ext, str, st1, top);
    var st2 := ExecBlock(Pops(NONVOLATILE), ext, str, st1).st;
    RetRuns(ext, str, st2);
    ExecAppend([Plain(add)], Pops(NONVOLATILE), ext, str, st);
    ExecAppend([Plain(add)] + Pops(NONVOLATILE), [Plain(Ret)], ext, str, st);
  }

  lemma AddRuns(ext: External, st: XState, sp: int)
    requires st.regs[RSP] == sp && sp + STACK_SIZE < TWO64
    ensures Exec(RI(true, AddRI, RSP, STACK_SIZE), ext, 0, st) ==
      Continue(XState(st.regs[RSP := sp + STACK_SIZE], Unknown, st.mem))
  {
  }

  lemma RetRuns(ext: External, str: u64, st: XState)
    ensures ExecBlock([Plain(Ret)], ext, str, st) == Return(st)
  {
  }

  /** The saved registers survive as long as the frame does. */
  lemma StillSaved(f: Frame, m1: Mem, st1: XState, m2: Mem, st2: XState, v: Regs)
    requires FrameOk(f) && MemRel(f, m1, st1) && MemRel(f, m2, st2)
    requires SavedBelow(NONVOLATILE, v, st1.mem, f.sp + STACK_SIZE + SAVED)
    ensures SavedBelow(NONVOLATILE, v, st2.mem, f.sp + STACK_SIZE + SAVED)
  {
    hide Load64;
    NonvolatileFacts();
    var top := f.sp + STACK_SIZE + SAVED;
    forall i | 0 <= i < 5 ensures Load64(st2.mem, top - 8 * (i + 1)) == v[NONVOLATILE[i]] {
      Load64Same(st1.mem, st2.mem, top - 8 * (i + 1));
    }
  }

  // ----- the division handler -----

  /** The error printer leaves the frame and the program's memory alone. */
  ghost predicate PrinterCallOk(f: Frame, ext: External, addr: u64, x: XState, m: Mem)
  {
    MemRel(f, m, x) ==> MemRel(f, m, ext(addr, x))
  }

  ghost predicate PrinterOk(f: Frame, ext: External, addr: u64)
  {
    forall x, m :: PrinterCallOk(f, ext, addr, x, m)
  }

  /**
   * The handler calls the printer, once, with the stream, the message's address and the slot number in the registers of
   * its three arguments and nothing else changed, and leaves for the epilogue with the result -1.
   */
  lemma HandlerRuns(p: Source, ext: External, str: u64, f: Frame, m: Mem, st: XState)
    requires FrameOk(f) && MemRel(f, m, st) && PrinterOk(f, ext, p.errorPrintf)
    ensures var e := ExecBlock(DivHandler(p), ext, str, st);
      var args := st.regs[RDI := p.stderr][RSI := str][RDX := st.regs[RCX]][RAX := p.errorPrintf];
      var after := ext(p.errorPrintf, XState(args, st.flags, st.mem));
      && e == Goto(ToExit, XState(after.regs[RAX := TWO64 - 1], after.flags, after.mem))
      && MemRel(f, m, e.st)
  {
    hide Exec, ExecBlock, LoadImm, FrameOk, Mapped;
    MapValues();
    var x1 := XState(st.regs[RDX := st.regs[RCX]], st.flags, st.mem);
    var x2 := XState(x1.regs[RSI := str], x1.flags, x1.mem);
    var x3 := XState(x2.regs[RDI := Wrap64(Signed64(p.stderr))], x2.flags, x2.mem);
    var x4 := XState(x3.regs[RAX := p.errorPrintf], x3.flags, x3.mem);
    var x5 := ext(p.errorPrintf, x4);
    assert Wrap64(Signed64(p.stderr)) == p.stderr;
    assert x4.regs == st.regs[RDI := p.stderr][RSI := str][RDX := st.regs[RCX]][RAX := p.errorPrintf];
    var args := [MovReg(RCX, RDX), LeaString(RSI, 0), Plain(LoadImm(RDI, Signed64(p.stderr)))];
    var leave := [Plain(LoadImm(MapRegister(0), -1)), JmpTo(ToExit)];
    ArgsRun(p, ext, str, st);
    CallOnly(p.errorPrintf, ext, str, x3);
    assert MemRel(f, m, x4);
    assert PrinterCallOk(f, ext, p.errorPrintf, x4, m);
    LeaveRuns(ext, str, x5);
    ExecAppend(args, CallCode(p.errorPrintf), ext, str, st);
    ExecAppend(args + CallCode(p.errorPrintf), leave, ext, str, st);
  }

  lemma ArgsRun(p: Source, ext: External, str: u64, st: XState)
    ensures ExecBlock([MovReg(RCX, RDX), LeaString(RSI, 0), Plain(LoadImm(RDI, Signed64(p.stderr)))], ext, str, st) ==
      Fall(XState(st.regs[RDX := st.regs[RCX]][RSI := str][RDI := Wrap64(Signed64(p.stderr))], st.flags, st.mem))
  {
    hide Exec, LoadImm;
    var load := LoadImm(RDI, Signed64(p.stderr));
    var x1 := XState(st.regs[RDX := st.regs[RCX]], st.flags, st.mem);
    var x2 := XState(x1.regs[RSI := str], x1.flags, x1.mem);
    MovMoves(RCX, RDX, ext, st);
    LoadImmLoads(RDI, Signed64(p.stderr), ext, x2);
    ExecStep(RR(true, RROp.MovRR, RCX, RDX), [LeaString(RSI, 0), Plain(load)], ext, str, st);
    ExecOne(load, ext, str, x2);
    assert [LeaString(RSI, 0), Plain(load)][1..] == [Plain(load)];
    assert [MovReg(RCX, RDX), LeaString(RSI, 0), Plain(load)]
        == [Plain(RR(true, RROp.MovRR, RCX, RDX))] + [LeaString(RSI, 0), Plain(load)];
  }

  lemma CallOnly(target: u64, ext: External, str: u64, st: XState)
    ensures ExecBlock(CallCode(target), ext, str, st) ==
      Fall(ext(target, XState(st.regs[RAX := target], st.flags, st.mem)))
  {
    hide LoadImm;
    var load := LoadImm(RAX, Signed64(target));
    LoadImmLoads(RAX, Signed64(target), ext, st);
    assert Wrap64(Signed64(target)) == target;
    ExecStep(load, [Plain(CallRax)], ext, str, st);
    ExecOne(CallRax, ext, str, Exec(load, ext, 0, st).st);
    assert CallCode(target) == [Plain(load)] + [Plain(CallRax)];
  }

  lemma LeaveRuns(ext: External, str: u64, st: XState)
    ensures ExecBlock([Plain(LoadImm(MapRegister(0), -1)), JmpTo(ToExit)], ext, str, st) ==
      Goto(ToExit, XState(st.regs[RAX := TWO64 - 1], st.flags, st.mem))
  {
    hide Exec, LoadImm;
    MapValues();
    var load := LoadImm(RAX, -1);
    LoadImmLoads(RAX, -1, ext, st);
    ExecStep(load, [JmpTo(ToExit)], ext, str, st);
    assert [Plain(LoadImm(MapRegister(0), -1)), JmpTo(ToExit)] == [Plain(load)] + [JmpTo(ToExit)];
  }
}
