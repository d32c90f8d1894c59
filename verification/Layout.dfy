/** Placing selected code in a buffer: blank jump slots first, patched afterwards. */
module Layout {
  import opened Words
  import opened Ebpf
  import opened X86
  import opened Select
  import V = Validator

  const TARGET_PC_EXIT: u32 := 0xffff_ffff
  const TARGET_PC_DIV_BY_ZERO: u32 := 0xffff_fffe

  /** A recorded jump: where its displacement is, and the slot number or special value it goes to. */
  datatype Jump = Jump(offsetLoc: nat, targetPc: u32)

  /** A recorded string load: the end of the instruction, and the string. */
  datatype StringRef = StringRef(offsetLoc: nat, id: nat)

  /** The offsets jumps are resolved against. */
  datatype Places = Places(locs: map<nat, nat>, exit: nat, divByZero: nat, strings: nat)

  function TargetPc(t: Target): u32
  {
    match t
    case ToSlot(pc) => pc
    case ToExit => TARGET_PC_EXIT
    case ToDivByZero => TARGET_PC_DIV_BY_ZERO
  }

  /** The offset a recorded target stands for; a slot that was never placed counts as 0. */
  function PlaceOf(l: Places, targetPc: u32): nat
  {
    if targetPc == TARGET_PC_EXIT then l.exit
    else if targetPc == TARGET_PC_DIV_BY_ZERO then l.divByZero
    else if targetPc in l.locs then l.locs[targetPc]
    else 0
  }

  /** A symbolic instruction with its displacement filled in. */
  function Placed(a: Asm, rel: i32): X
  {
    match a
    case Plain(x) => x
    case JmpTo(_) => JmpRel(rel)
    case JccTo(c, _) => Jcc(c, rel)
    case LeaString(dst, _) => Lea(dst, rel)
  }

  function AsmLen(a: Asm): nat { |Enc(Placed(a, 0))| }

  function CodeLen(code: seq<Asm>): nat
  {
    if code == [] then 0 else AsmLen(code[0]) + CodeLen(code[1..])
  }

  /** How far back-patching has got: not begun, jumps done, or jumps and strings done. */
  datatype Stage = Blank | JumpsDone | AllDone

  function Wrap32(v: int): i32 { Signed32(Low32(v)) }

  /** The displacement of an instruction that ends at `end`. */
  function RelAt(a: Asm, end: nat, l: Places, g: Stage): i32
  {
    match a
    case Plain(_) => 0
    case JmpTo(t) => if g.Blank? then 0 else Wrap32(PlaceOf(l, TargetPc(t)) - end)
    case JccTo(_, t) => if g.Blank? then 0 else Wrap32(PlaceOf(l, TargetPc(t)) - end)
    case LeaString(_, id) => if g.AllDone? then Wrap32(l.strings + StringOffset(id) - end) else 0
  }

  /** The bytes of a piece of code that starts at `off`. */
  function Link(code: seq<Asm>, off: nat, l: Places, g: Stage): seq<byte>
  {
    if code == [] then []
    else
      var end := off + AsmLen(code[0]);
      Enc(Placed(code[0], RelAt(code[0], end, l, g))) + Link(code[1..], end, l, g)
  }

  function JumpsOf(a: Asm, off: nat): seq<Jump>
  {
    match a
    case JmpTo(t) => [Jump(off + 1, TargetPc(t))]
    case JccTo(_, t) => [Jump(off + 2, TargetPc(t))]
    case _ => []
  }

  function StringsOf(a: Asm, off: nat): seq<StringRef>
  {
    if a.LeaString? then [StringRef(off + AsmLen(a), a.id)] else []
  }

  function JumpSites(code: seq<Asm>, off: nat): seq<Jump>
  {
    if code == [] then [] else JumpsOf(code[0], off) + JumpSites(code[1..], off + AsmLen(code[0]))
  }

  function StringSites(code: seq<Asm>, off: nat): seq<StringRef>
  {
    if code == [] then [] else StringsOf(code[0], off) + StringSites(code[1..], off + AsmLen(code[0]))
  }

  // ----- the string table -----

  const STRING_TABLE: seq<string> := ["uBPF error: division by zero at PC %u\n"]

  function CString(s: string): seq<byte>
  {
    if s == [] then [0] else [s[0] as int % 0x100] + CString(s[1..])
  }

  function StringBytes(table: seq<string>): seq<byte>
  {
    if table == [] then [] else CString(table[0]) + StringBytes(table[1..])
  }

  /** The offset of a string in the table: the lengths, with their NULs, of those before it. */
  function StringOffset(id: nat): nat
  {
    if id == 0 || id > |STRING_TABLE| then 0 else |STRING_TABLE[id - 1]| + 1 + StringOffset(id - 1)
  }

  // ----- the whole program -----

  /** The code of the program from slot `i` on. */
  function BodyCode(p: Source, i: nat): seq<Asm>
    decreases |p.insts| - i
  {
    if i >= |p.insts| then [] else Code(p, i) + BodyCode(p, V.After(p.insts, i))
  }

  /** Where the code of each instruction from slot `i` on starts. */
  function Locs(p: Source, i: nat, off: nat): map<nat, nat>
    decreases |p.insts| - i
  {
    if i >= |p.insts| then map[] else Locs(p, V.After(p.insts, i), off + CodeLen(Code(p, i)))[i := off]
  }

  function AllCode(p: Source): seq<Asm>
  {
    Prologue() + BodyCode(p, 0) + Epilogue() + DivHandler(p)
  }

  function PlacesOf(p: Source): Places
  {
    var start := CodeLen(Prologue());
    var exit := start + CodeLen(BodyCode(p, 0));
    var divByZero := exit + CodeLen(Epilogue());
    Places(Locs(p, 0, start), exit, divByZero, divByZero + CodeLen(DivHandler(p)))
  }

  /** The finished machine code. */
  function Image(p: Source): seq<byte>
  {
    Link(AllCode(p), 0, PlacesOf(p), AllDone) + StringBytes(STRING_TABLE)
  }

  // ----- lengths -----

  /** The bytes of a symbolic instruction before its displacement. */
  function Head(a: Asm): seq<byte>
    requires !a.Plain?
  {
    match a
    case JmpTo(_) => [0xe9]
    case JccTo(c, _) => [0x0f, CcByte(c)]
    case LeaString(dst, _) => [RexByte(true, 5, dst), 0x8d, ModRM(0, dst, 5)]
  }

  lemma EncHead(a: Asm, rel: i32)
    requires !a.Plain?
    ensures Enc(Placed(a, rel)) == Head(a) + LeBytes(rel, 4) && AsmLen(a) == |Head(a)| + 4
  {
    hide LeBytes, RexByte, ModRM, CcByte;
  }

  lemma PlacedLen(a: Asm, rel: i32)
    ensures |Enc(Placed(a, rel))| == AsmLen(a)
  {
    if !a.Plain? {
      EncHead(a, rel);
      EncHead(a, 0);
    }
  }

  lemma {:induction false} LinkLen(code: seq<Asm>, off: nat, l: Places, g: Stage)
    ensures |Link(code, off, l, g)| == CodeLen(code)
    decreases |code|
  {
    hide Enc, Placed, RelAt, AsmLen;
    if code != [] {
      var end := off + AsmLen(code[0]);
      PlacedLen(code[0], RelAt(code[0], end, l, g));
      LinkLen(code[1..], end, l, g);
    }
  }

  lemma {:induction false} CodeLenAppend(a: seq<Asm>, b: seq<Asm>)
    ensures CodeLen(a + b) == CodeLen(a) + CodeLen(b)
    decreases |a|
  {
    hide AsmLen;
    if a == [] {
      assert a + b == b;
    } else {
      assert (a + b)[1..] == a[1..] + b;
      CodeLenAppend(a[1..], b);
    }
  }

  lemma {:induction false} LinkAppend(a: seq<Asm>, b: seq<Asm>, off: nat, l: Places, g: Stage)
    ensures Link(a + b, off, l, g) == Link(a, off, l, g) + Link(b, off + CodeLen(a), l, g)
    decreases |a|
  {
    hide Enc, Placed, RelAt, AsmLen;
    if a == [] {
      assert a + b == b;
    } else {
      assert (a + b)[1..] == a[1..] + b;
      LinkAppend(a[1..], b, off + AsmLen(a[0]), l, g);
    }
  }

  lemma LinkOne(a: Asm, off: nat, l: Places, g: Stage)
    ensures Link([a], off, l, g) == Enc(Placed(a, RelAt(a, off + AsmLen(a), l, g)))
    ensures JumpSites([a], off) == JumpsOf(a, off) && StringSites([a], off) == StringsOf(a, off)
  {
    hide Enc, Placed, RelAt, AsmLen, JumpsOf, StringsOf;
    var end := off + AsmLen(a);
    assert [a][1..] == [];
    assert Link([], end, l, g) == [] && JumpSites([], end) == [] && StringSites([], end) == [];
  }

  lemma Associate<T>(a: seq<T>, b: seq<T>, c: seq<T>)
    ensures a + (b + c) == (a + b) + c
  {
  }

  lemma NoSites(off: nat)
    ensures JumpSites([], off) == [] && StringSites([], off) == [] && CodeLen([]) == 0
  {
  }

  lemma SitesStep(code: seq<Asm>, off: nat)
    requires code != []
    ensures JumpSites(code, off) == JumpsOf(code[0], off) + JumpSites(code[1..], off + AsmLen(code[0]))
    ensures StringSites(code, off) == StringsOf(code[0], off) + StringSites(code[1..], off + AsmLen(code[0]))
    ensures CodeLen(code) == AsmLen(code[0]) + CodeLen(code[1..])
  {
    hide AsmLen, JumpsOf, StringsOf;
  }

  lemma {:induction false} JumpSitesAppend(a: seq<Asm>, b: seq<Asm>, off: nat)
    ensures JumpSites(a + b, off) == JumpSites(a, off) + JumpSites(b, off + CodeLen(a))
    ensures StringSites(a + b, off) == StringSites(a, off) + StringSites(b, off + CodeLen(a))
    decreases |a|
  {
    hide JumpSites, StringSites, CodeLen, AsmLen;
    if a == [] {
      assert a + b == b;
      NoSites(off);
    } else {
      var next := off + AsmLen(a[0]);
      assert (a + b)[0] == a[0] && (a + b)[1..] == a[1..] + b;
      JumpSitesAppend(a[1..], b, next);
      SitesStep(a + b, off);
      SitesStep(a, off);
      Associate(JumpsOf(a[0], off), JumpSites(a[1..], next), JumpSites(b, off + CodeLen(a)));
      Associate(StringsOf(a[0], off), StringSites(a[1..], next), StringSites(b, off + CodeLen(a)));
    }
  }

  // ----- back-patching -----

  /** Overwrite four bytes at `at`, if they are there. */
  function Patch(s: seq<byte>, at: int, v: int): (r: seq<byte>)
    ensures |r| == |s|
  {
    if 0 <= at && at + 4 <= |s| then s[..at] + LeBytes(v, 4) + s[at + 4..] else s
  }

  predicate JumpsFit(jumps: seq<Jump>, n: nat)
  {
    forall i :: 0 <= i < |jumps| ==> jumps[i].offsetLoc + 4 <= n
  }

  function PatchJumps(s: seq<byte>, jumps: seq<Jump>, l: Places): (r: seq<byte>)
    ensures |r| == |s|
    decreases |jumps|
  {
    if jumps == [] then s
    else
      var j := jumps[0];
      PatchJumps(Patch(s, j.offsetLoc, PlaceOf(l, j.targetPc) - (j.offsetLoc + 4)), jumps[1..], l)
  }

  predicate StringsFit(refs: seq<StringRef>, n: nat)
  {
    forall i :: 0 <= i < |refs| ==> 4 <= refs[i].offsetLoc <= n
  }

  function PatchStrings(s: seq<byte>, refs: seq<StringRef>, l: Places): (r: seq<byte>)
    ensures |r| == |s|
    decreases |refs|
  {
    if refs == [] then s
    else
      var f := refs[0];
      PatchStrings(Patch(s, f.offsetLoc - 4, l.strings + StringOffset(f.id) - f.offsetLoc), refs[1..], l)
  }

  lemma SitesOfOneFit(a: Asm, off: nat)
    ensures JumpsFit(JumpsOf(a, off), off + AsmLen(a)) && StringsFit(StringsOf(a, off), off + AsmLen(a))
  {
    hide Enc, Placed, LeBytes;
    if !a.Plain? {
      EncHead(a, 0);
    }
  }

  lemma {:induction false} SitesFit(code: seq<Asm>, off: nat)
    ensures JumpsFit(JumpSites(code, off), off + CodeLen(code))
    ensures StringsFit(StringSites(code, off), off + CodeLen(code))
    decreases |code|
  {
    hide AsmLen, JumpsOf, StringsOf;
    if code != [] {
      SitesOfOneFit(code[0], off);
      SitesFit(code[1..], off + AsmLen(code[0]));
    }
  }

  lemma Wrap32Bytes(v: int)
    ensures LeBytes(Wrap32(v), 4) == LeBytes(v, 4)
  {
    hide LeBytes;
    LeBytesMod(v, 4);
    LeBytesMod(Wrap32(v), 4);
    assert Pow2(32) == TWO32 by { Pow2Values(); }
    assert Wrap32(v) % TWO32 == v % TWO32;
  }

  lemma PatchMiddle(pre: seq<byte>, head: seq<byte>, old4: seq<byte>, post: seq<byte>, v: int)
    requires |old4| == 4
    ensures Patch(pre + (head + old4) + post, |pre| + |head|, v) == pre + (head + LeBytes(Wrap32(v), 4)) + post
  {
    hide LeBytes;
    Wrap32Bytes(v);
    var s, at := pre + (head + old4) + post, |pre| + |head|;
    assert s[..at] == pre + head && s[at + 4..] == post;
  }

  lemma PatchOne(a: Asm, pre: seq<byte>, post: seq<byte>, rel: i32, v: int)
    requires !a.Plain?
    ensures |Enc(Placed(a, rel))| == AsmLen(a) >= 4
    ensures Patch(pre + Enc(Placed(a, rel)) + post, |pre| + AsmLen(a) - 4, v) == pre + Enc(Placed(a, Wrap32(v))) + post
  {
    hide Enc, Placed, LeBytes, Head, AsmLen;
    EncHead(a, rel);
    EncHead(a, Wrap32(v));
    PatchMiddle(pre, Head(a), LeBytes(rel, 4), post, v);
  }

  lemma Regroup(pre: seq<byte>, a: seq<byte>, b: seq<byte>, post: seq<byte>)
    ensures pre + (a + b) + post == (pre + a) + b + post
    ensures pre + (a + b) + post == pre + a + (b + post)
  {
  }

  /** Patching one piece and then the pieces after it. */
  lemma PatchPiece(pre: seq<byte>, blank: seq<byte>, done: seq<byte>, tail: seq<byte>, tail': seq<byte>,
                   post: seq<byte>, js: seq<Jump>, rest: seq<Jump>, l: Places)
    requires PatchJumps((pre + done) + tail + post, rest, l) == (pre + done) + tail' + post
    requires js == [] ==> blank == done
    requires js != [] ==> |js| == 1
    requires js != [] ==>
      (Patch(pre + blank + (tail + post), js[0].offsetLoc, PlaceOf(l, js[0].targetPc) - (js[0].offsetLoc + 4))
        == pre + done + (tail + post))
    ensures PatchJumps(pre + (blank + tail) + post, js + rest, l) == pre + (done + tail') + post
  {
    hide Patch, PlaceOf, PatchJumps;
    Regroup(pre, blank, tail, post);
    Regroup(pre, done, tail, post);
    Regroup(pre, done, tail', post);
    if js != [] {
      PatchJumpsHead(pre + blank + (tail + post), js[0], rest, l);
      assert js == [js[0]];
    } else {
      assert js + rest == rest;
    }
  }

  /** Patching every recorded jump fills in exactly the jump displacements; no other byte changes. */
  lemma {:induction false} PatchJumpsLink(pre: seq<byte>, code: seq<Asm>, post: seq<byte>, l: Places)
    ensures PatchJumps(pre + Link(code, |pre|, l, Blank) + post, JumpSites(code, |pre|), l)
      == pre + Link(code, |pre|, l, JumpsDone) + post
    decreases |code|
  {
    hide Enc, Placed, AsmLen, RelAt, Patch, PlaceOf, JumpsOf, TargetPc;
    if code != [] {
      var a, rest := code[0], code[1..];
      var end := |pre| + AsmLen(a);
      var blank, done := Enc(Placed(a, RelAt(a, end, l, Blank))), Enc(Placed(a, RelAt(a, end, l, JumpsDone)));
      var tail, tail' := Link(rest, end, l, Blank), Link(rest, end, l, JumpsDone);
      PlacedLen(a, RelAt(a, end, l, JumpsDone));
      PatchJumpsLink(pre + done, rest, post, l);
      StepJump(a, end, l);
      JumpsOfOne(a, |pre|);
      if a.JmpTo? || a.JccTo? {
        PatchOne(a, pre, tail + post, RelAt(a, end, l, Blank), PlaceOf(l, TargetPc(a.target)) - end);
      }
      hide PatchJumps;
      PatchPiece(pre, blank, done, tail, tail', post, JumpsOf(a, |pre|), JumpSites(rest, end), l);
    }
  }

  lemma PatchJumpsHead(s: seq<byte>, j: Jump, rest: seq<Jump>, l: Places)
    ensures PatchJumps(s, [j] + rest, l) ==
      PatchJumps(Patch(s, j.offsetLoc, PlaceOf(l, j.targetPc) - (j.offsetLoc + 4)), rest, l)
  {
    hide Patch, PlaceOf;
    assert ([j] + rest)[1..] == rest;
  }

  /** A jump is recorded at the last four bytes of its instruction. */
  lemma JumpsOfOne(a: Asm, off: nat)
    ensures if a.JmpTo? || a.JccTo? then AsmLen(a) >= 4 &&
      JumpsOf(a, off) == [Jump(off + AsmLen(a) - 4, TargetPc(a.target))]
      else JumpsOf(a, off) == []
  {
    hide Enc, Placed;
    if a.JmpTo? || a.JccTo? {
      EncHead(a, 0);
    }
  }

  /** The displacement the patch writes is the linked one; other instructions do not change at this stage. */
  lemma StepJump(a: Asm, end: nat, l: Places)
    ensures a.JmpTo? || a.JccTo? ==> RelAt(a, end, l, JumpsDone) == Wrap32(PlaceOf(l, TargetPc(a.target)) - end)
    ensures !(a.JmpTo? || a.JccTo?) ==> RelAt(a, end, l, JumpsDone) == RelAt(a, end, l, Blank)
    ensures a.LeaString? ==> RelAt(a, end, l, AllDone) == Wrap32(l.strings + StringOffset(a.id) - end)
    ensures !a.LeaString? ==> RelAt(a, end, l, AllDone) == RelAt(a, end, l, JumpsDone)
  {
  }

  /** The second pass fills in the string displacements. */
  lemma {:induction false} PatchStringsLink(pre: seq<byte>, code: seq<Asm>, post: seq<byte>, l: Places)
    ensures PatchStrings(pre + Link(code, |pre|, l, JumpsDone) + post, StringSites(code, |pre|), l)
      == pre + Link(code, |pre|, l, AllDone) + post
    decreases |code|
  {
    hide Enc, Placed, AsmLen, RelAt, Patch, StringOffset;
    if code != [] {
      var a, rest := code[0], code[1..];
      var end := |pre| + AsmLen(a);
      var blank, done := Enc(Placed(a, RelAt(a, end, l, JumpsDone))), Enc(Placed(a, RelAt(a, end, l, AllDone)));
      PlacedLen(a, RelAt(a, end, l, AllDone));
      var tail, tail' := Link(rest, end, l, JumpsDone), Link(rest, end, l, AllDone);
      PatchStringsLink(pre + done, rest, post, l);
      Regroup(pre, blank, tail, post);
      Regroup(pre, done, tail, post);
      Regroup(pre, done, tail', post);
      assert Link(code, |pre|, l, JumpsDone) == blank + tail && Link(code, |pre|, l, AllDone) == done + tail';
      hide Link;
      StepJump(a, end, l);
      if a.LeaString? {
        var f := StringRef(end, a.id);
        PatchOne(a, pre, tail + post, RelAt(a, end, l, JumpsDone), l.strings + StringOffset(a.id) - end);
        assert StringSites(code, |pre|) == [f] + StringSites(rest, end);
        assert StringSites(code, |pre|)[1..] == StringSites(rest, end);
      } else {
        assert StringSites(code, |pre|) == StringSites(rest, end);
      }
    }
  }
}
