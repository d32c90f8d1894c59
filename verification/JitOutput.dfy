/** What the x86-64 emitters have produced: bytes with blank jump slots, and the recorded jumps and string loads. */
module JitOutput {
  import opened Words
  import opened Ebpf
  import opened X86
  import opened Select
  import opened Layout

  /** Places play no part in code that is not patched yet. */
  const NoPlaces := Places(map[], 0, 0, 0)

  /** What has been emitted: the bytes, and the recorded jumps and string loads. */
  datatype Output = Output(bytes: seq<byte>, jumps: seq<Jump>, strings: seq<StringRef>)

  function BlankCode(code: seq<Asm>, off: nat): seq<byte> { Link(code, off, NoPlaces, Blank) }

  /** `o` followed by the code `c`, jump slots still blank. */
  function Extended(o: Output, c: seq<Asm>): Output
  {
    Output(o.bytes + BlankCode(c, |o.bytes|), o.jumps + JumpSites(c, |o.bytes|), o.strings + StringSites(c, |o.bytes|))
  }

  lemma ExtendedAppend(o: Output, a: seq<Asm>, b: seq<Asm>)
    ensures Extended(Extended(o, a), b) == Extended(o, a + b)
  {
    hide Link, JumpSites, StringSites, CodeLen;
    LinkLen(a, |o.bytes|, NoPlaces, Blank);
    LinkAppend(a, b, |o.bytes|, NoPlaces, Blank);
    JumpSitesAppend(a, b, |o.bytes|);
  }

  lemma ExtendedNone(o: Output)
    ensures Extended(o, []) == o
  {
  }

  lemma ExtendedPlain(o: Output, x: X)
    ensures Extended(o, [Plain(x)]) == Output(o.bytes + Enc(x), o.jumps, o.strings)
  {
    hide Enc, Link, JumpSites, StringSites;
    LinkOne(Plain(x), |o.bytes|, NoPlaces, Blank);
  }

  lemma ExtendedJmp(o: Output, t: Target)
    ensures Extended(o, [JmpTo(t)]) ==
      Output(o.bytes + ([0xe9] + LeBytes(0, 4)), o.jumps + [Jump(|o.bytes| + 1, TargetPc(t))], o.strings)
  {
    hide Enc, Link, JumpSites, StringSites, LeBytes;
    LinkOne(JmpTo(t), |o.bytes|, NoPlaces, Blank);
    EncHead(JmpTo(t), 0);
  }

  lemma ExtendedJcc(o: Output, cc: CC, t: Target)
    ensures Extended(o, [JccTo(cc, t)]) ==
      Output(o.bytes + ([0x0f, CcByte(cc)] + LeBytes(0, 4)), o.jumps + [Jump(|o.bytes| + 2, TargetPc(t))], o.strings)
  {
    hide Enc, Link, JumpSites, StringSites, LeBytes, CcByte;
    LinkOne(JccTo(cc, t), |o.bytes|, NoPlaces, Blank);
    EncHead(JccTo(cc, t), 0);
  }

  lemma ExtendedLea(o: Output, dst: reg, id: nat)
    ensures var bytes := [RexByte(true, 5, dst), 0x8d, ModRM(0, dst, 5)] + LeBytes(0, 4);
      Extended(o, [LeaString(dst, id)]) == Output(o.bytes + bytes, o.jumps, o.strings + [StringRef(|o.bytes| + 7, id)])
  {
    hide Enc, Link, JumpSites, StringSites, LeBytes, RexByte, ModRM;
    LinkOne(LeaString(dst, id), |o.bytes|, NoPlaces, Blank);
    EncHead(LeaString(dst, id), 0);
  }

  /** Room for everything: the buffer is not full and neither table is. */
  predicate Fits(size: nat, o: Output)
  {
    |o.bytes| < size && |o.jumps| < MAX_INSTS && |o.strings| < MAX_INSTS
  }

  /** Emitting `c` turned `o` into `o'`, or there was no room for it. */
  predicate Grows(size: nat, o: Output, c: seq<Asm>, o': Output)
  {
    o' == Extended(o, c) || (!Fits(size, o') && !Fits(size, Extended(o, c)))
  }

  lemma GrowsChain(size: nat, o: Output, a: seq<Asm>, o1: Output, b: seq<Asm>, o2: Output)
    requires Grows(size, o, a, o1) && Grows(size, o1, b, o2)
    ensures Grows(size, o, a + b, o2)
  {
    ExtendedAppend(o, a, b);
    hide JumpSites, StringSites, BlankCode;
  }

  /** If everything fits, everything was emitted. */
  lemma GrowsFits(size: nat, o: Output, c: seq<Asm>, o': Output)
    requires Grows(size, o, c, o') && Fits(size, o')
    ensures o' == Extended(o, c) && Fits(size, o) && |o.bytes| < size && |o'.bytes| == |o.bytes| + CodeLen(c)
  {
    hide JumpSites, StringSites, Link;
    LinkLen(c, |o.bytes|, NoPlaces, Blank);
  }

  lemma GrowsNone(size: nat, o: Output)
    ensures Grows(size, o, [], o)
  {
    ExtendedNone(o);
  }

  lemma GrowsPlain(size: nat, o: Output, x: X)
    ensures Grows(size, o, [Plain(x)], Output(o.bytes + Enc(x), o.jumps, o.strings))
  {
    ExtendedPlain(o, x);
    hide Extended;
  }

  lemma JumpOut(size: nat, o: Output, head: seq<byte>, blank: seq<byte>, targetPc: u32, offset: nat, o': Output)
    requires offset == if |o.bytes| + |head| <= size then |o.bytes| + |head| else size
    requires o'.strings == o.strings && |blank| == 4
    requires |o.jumps| < MAX_INSTS ==>
      o'.bytes == o.bytes + head + blank && o'.jumps == o.jumps + [Jump(offset, targetPc)]
    requires |o.jumps| >= MAX_INSTS ==> o'.jumps == o.jumps
    ensures var e := Output(o.bytes + (head + blank), o.jumps + [Jump(|o.bytes| + |head|, targetPc)], o.strings);
      o' == e || (!Fits(size, o') && !Fits(size, e))
  {
    if |o.jumps| < MAX_INSTS {
      assert o.bytes + head + blank == o.bytes + (head + blank);
    }
  }

  lemma GrowsJump(size: nat, o: Output, a: Asm, offset: nat, o': Output)
    requires a.JmpTo? || a.JccTo?
    requires offset == if |o.bytes| + |Head(a)| <= size then |o.bytes| + |Head(a)| else size
    requires o'.strings == o.strings
    requires |o.jumps| < MAX_INSTS ==>
      o'.bytes == o.bytes + Head(a) + LeBytes(0, 4) && o'.jumps == o.jumps + [Jump(offset, TargetPc(a.target))]
    requires |o.jumps| >= MAX_INSTS ==> o'.jumps == o.jumps
    ensures Grows(size, o, [a], o')
  {
    hide LeBytes, CcByte, TargetPc, Extended, Fits;
    JumpOut(size, o, Head(a), LeBytes(0, 4), TargetPc(a.target), offset, o');
    if a.JmpTo? {
      ExtendedJmp(o, a.target);
    } else {
      ExtendedJcc(o, a.cc, a.target);
    }
  }

  lemma GrowsLea(size: nat, o: Output, dst: reg, id: nat, offset: nat, o': Output)
    requires offset == if |o.bytes| + 7 <= size then |o.bytes| + 7 else size
    requires o'.jumps == o.jumps
    requires |o.strings| < MAX_INSTS ==>
      o'.bytes == o.bytes + Head(LeaString(dst, id)) + LeBytes(0, 4) &&
        o'.strings == o.strings + [StringRef(offset, id)]
    requires |o.strings| >= MAX_INSTS ==> o'.strings == o.strings
    ensures Grows(size, o, [LeaString(dst, id)], o')
  {
    hide LeBytes, RexByte, ModRM;
    ExtendedLea(o, dst, id);
    hide Extended;
    assert o.bytes + Head(LeaString(dst, id)) + LeBytes(0, 4) == o.bytes + (Head(LeaString(dst, id)) + LeBytes(0, 4));
  }
}
