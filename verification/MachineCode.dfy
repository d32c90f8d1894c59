/**
 * Running the linked bytes does what the symbolic code does: one tick of the machine for each instruction, and a jump,
 * once patched, leads to the place of its target.
 */
module MachineCode {
  import opened Words
  import opened Ebpf
  import opened X86
  import opened X86Codec
  import opened X86Exec
  import opened Select
  import opened Blocks
  import opened Layout

  /** What the generator emits: encodable, with all control transfers symbolic. */
  predicate WellFormed(a: Asm)
  {
    match a
    case Plain(x) => Encodable(x) && !x.Jcc? && !x.JmpRel? && !x.Lea?
    case LeaString(dst, id) => dst < 8 && id < |STRING_TABLE|
    case _ => true
  }

  predicate AllWellFormed(code: seq<Asm>)
  {
    forall i :: 0 <= i < |code| ==> WellFormed(code[i])
  }

  /** One tick at the start of an encoded instruction. */
  lemma TickAt(pre: seq<byte>, x: X, post: seq<byte>, base: u64, ext: External, st: XState)
    requires Encodable(x)
    ensures var next := |pre| + |Enc(x)|;
      Tick(pre + Enc(x) + post, base, ext, At(|pre|, st)) ==
        match Exec(x, ext, base + next, st)
        case Continue(st') => At(next, st')
        case Branch(st', rel) => At(next + rel, st')
        case Finish(st') => Halted(st')
        case Fault => Crashed
  {
    hide Dec, Enc, Exec;
    DecEnc(x, post);
    var code := pre + Enc(x) + post;
    assert code[|pre|..] == Enc(x) + post;
    assert |pre| < |code|;
  }

  lemma TickOne(code: seq<byte>, base: u64, ext: External, c: Config)
    ensures Ticks(code, base, ext, c, 1) == Tick(code, base, ext, c)
  {
    hide Tick;
    assert Ticks(code, base, ext, Tick(code, base, ext, c), 0) == Tick(code, base, ext, c);
  }

  /** Only the RIP-relative load looks at the address of the next instruction. */
  lemma NextIrrelevant(x: X, ext: External, next: int, st: XState)
    requires !x.Lea?
    ensures Exec(x, ext, next, st) == Exec(x, ext, 0, st)
    ensures !x.Jcc? && !x.JmpRel? ==> !Exec(x, ext, 0, st).Branch?
  {
    hide Binary, Multiply, Divide, ExecLoad, ExecStore, ExecPush, ExecPop, Shift, RotateWord, Swapped;
    match x
    case Un(w, DivR, dst) => assert !Divide(w, st,
      Narrow(w, st.regs[dst])).Branch? by { DivideEnds(w, st, Narrow(w, st.regs[dst])); }
    case Push(r) => PushEnds(r, st);
    case Pop(r) => PushEnds(r, st);
    case Ld(sz, b, r, d) => AccessEnds(sz, b, r, d, 0, st);
    case Str(sz, r, b, d) => AccessEnds(sz, b, 0, d, st.regs[r], st);
    case StrI(sz, b, d, bits) => AccessEnds(sz, b, 0, d, Signed32(bits), st);
    case _ =>
  }

  lemma DivideEnds(w: bool, st: XState, a: u64)
    ensures !Divide(w, st, a).Branch?
  {
  }

  lemma PushEnds(r: reg, st: XState)
    ensures !ExecPush(st, r).Branch? && !ExecPop(st, r).Branch?
  {
  }

  lemma AccessEnds(sz: Size, b: reg, r: reg, d: i32, v: int, st: XState)
    ensures !ExecLoad(st, sz, b, r, d).Branch? && !ExecStore(st, sz, b, d, v).Branch?
  {
  }

  /** Offsets that fit a signed 32-bit displacement. */
  predicate PlacesFit(l: Places)
  {
    && l.exit < TWO31 && l.divByZero < TWO31 && l.strings + StringOffset(0) < TWO31
    && forall pc :: pc in l.locs ==> l.locs[pc] < TWO31
  }

  lemma Wrap32Exact(v: int)
    requires -TWO31 <= v < TWO31
    ensures Wrap32(v) == v
  {
  }

  /** The end of a block, on the machine. */
  function EndConfig(b: BlockEnd, l: Places, fall: nat): Config
  {
    match b
    case Fall(st) => At(fall, st)
    case Goto(t, st) => At(PlaceOf(l, TargetPc(t)), st)
    case Return(st) => Halted(st)
    case Crash => Crashed
  }

  /** A linked jump lands on the place of its target. */
  lemma JumpLands(a: Asm, end: nat, l: Places)
    requires (a.JmpTo? || a.JccTo?) && PlacesFit(l) && end < TWO31
    ensures end + RelAt(a, end, l, AllDone) == PlaceOf(l, TargetPc(a.target))
  {
    assert PlaceOf(l, TargetPc(a.target)) < TWO31;
    Wrap32Exact(PlaceOf(l, TargetPc(a.target)) - end);
    hide TargetPc, PlaceOf, Wrap32;
  }

  /** A linked string load computes the address of its string. */
  lemma StringLands(id: nat, dst: reg, end: nat, l: Places, base: u64)
    requires id < |STRING_TABLE| && PlacesFit(l) && end < TWO31
    ensures base + end + RelAt(LeaString(dst, id), end, l, AllDone) == base + l.strings
  {
    assert id == 0 && StringOffset(0) == 0;
    Wrap32Exact(l.strings - end);
    hide Wrap32;
  }

  /** Running the bytes of a block from its start reaches the configuration its symbolic execution ends in. */
  lemma {:induction false} BlockRuns(pre: seq<byte>, code: seq<Asm>, post: seq<byte>, l: Places, base: u64,
                                     ext: External, st: XState)
    returns (n: nat)
    requires AllWellFormed(code) && PlacesFit(l) && |pre| + CodeLen(code) < TWO31
    requires !ExecBlock(code, ext, Wrap64(base + l.strings), st).Crash?
    ensures Ticks(pre + Link(code, |pre|, l, AllDone) + post, base, ext, At(|pre|, st), n)
      == EndConfig(ExecBlock(code, ext, Wrap64(base + l.strings), st), l, |pre| + CodeLen(code))
    decreases |code|
  {
    hide Enc, Exec, RelAt, Tick, TargetPc, PlaceOf, Holds;
    if code == [] {
      n := 0;
    } else {
      var str := Wrap64(base + l.strings);
      var a, rest := code[0], code[1..];
      var end := |pre| + AsmLen(a);
      var rel := RelAt(a, end, l, AllDone);
      var x := Placed(a, rel);
      var tail := Link(rest, end, l, AllDone);
      var image := pre + Link(code, |pre|, l, AllDone) + post;
      PlacedLen(a, rel);
      Regroup(pre, Enc(x), tail, post);
      assert image == pre + Enc(x) + (tail + post) && image == (pre + Enc(x)) + tail + post;
      assert WellFormed(a);
      assert Encodable(x);
      TickAt(pre, x, tail + post, base, ext, st);
      TickOne(image, base, ext, At(|pre|, st));
      var b := ExecBlock(code, ext, str, st);
      hide Link, Placed, AsmLen;
      match a {
        case Plain(_) =>
          assert x == a.x by { PlacedPlain(a, rel); }
          NextIrrelevant(x, ext, base + end, st);
          if b == ExecBlock(rest, ext, str, Exec(x, ext, 0, st).st) && Exec(x, ext, 0, st).Continue? {
            n := BlockRuns(pre + Enc(x), rest, post, l, base, ext, Exec(x, ext, 0, st).st);
            TicksAdd(image, base, ext, At(|pre|, st), 1, n);
            n := n + 1;
          } else {
            n := 1;
          }
        case JmpTo(t) =>
          PlacedJump(a, rel, ext, base + end, st);
          JumpLands(a, end, l);
          n := 1;
        case JccTo(c, t) =>
          PlacedJump(a, rel, ext, base + end, st);
          JumpLands(a, end, l);
          if Holds(c, st.flags) {
            n := 1;
          } else {
            n := BlockRuns(pre + Enc(x), rest, post, l, base, ext, st);
            TicksAdd(image, base, ext, At(|pre|, st), 1, n);
            n := n + 1;
          }
        case LeaString(dst, id) =>
          PlacedJump(a, rel, ext, base + end, st);
          StringLands(id, dst, end, l, base);
          var st' := XState(st.regs[dst := str], st.flags, st.mem);
          n := BlockRuns(pre + Enc(x), rest, post, l, base, ext, st');
          TicksAdd(image, base, ext, At(|pre|, st), 1, n);
          n := n + 1;
      }
    }
  }

  lemma PlacedPlain(a: Asm, rel: i32)
    requires a.Plain?
    ensures Placed(a, rel) == a.x
  {
  }

  /** What a placed symbolic instruction does. */
  lemma PlacedJump(a: Asm, rel: i32, ext: External, next: int, st: XState)
    ensures a.JmpTo? ==> Exec(Placed(a, rel), ext, next, st) == Branch(st, rel)
    ensures a.JccTo? && st.flags.Flags? ==>
      Exec(Placed(a, rel), ext, next, st) == if Holds(a.cc, st.flags) then Branch(st, rel) else Continue(st)
    ensures a.LeaString? ==>
      Exec(Placed(a, rel), ext, next, st) == Continue(XState(st.regs[a.dst := Wrap64(next + rel)], st.flags, st.mem))
  {
    hide Holds;
  }
}
