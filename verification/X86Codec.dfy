/** Decoding undoes encoding: the emitted byte stream determines the instructions and their operands. */
module X86Codec {
  import opened Words
  import opened Ebpf
  import opened X86

  lemma ModRMFields(mode: nat, r: reg, m: reg)
    requires mode < 4
    ensures var b := ModRM(mode, r, m); b / 64 == mode && b / 8 % 8 == r % 8 && b % 8 == m % 8
  {
    var b, lo := ModRM(mode, r, m), 8 * (r % 8) + m % 8;
    DivModUnique(b, 64, mode, lo);
    DivModUnique(b, 8, 8 * mode + r % 8, m % 8);
    DivModUnique(8 * mode + r % 8, 8, mode, r % 8);
  }

  lemma RexBitsOf(wide: bool, r: reg, b: reg)
    ensures var x := RexByte(wide, r, b);
      0x40 <= x < 0x50 && x / 2 % 2 == 0 && (x / 8 % 2 == 1 <==> wide) && x / 4 % 2 == r / 8 && x % 2 == b / 8
  {
    var w, hr, hb := if wide then 1 else 0, r / 8, b / 8;
    var x := RexByte(wide, r, b);
    DivModUnique(x, 8, 8 + w, 4 * hr + hb);
    DivModUnique(x, 4, 16 + 2 * w + hr, hb);
    DivModUnique(x, 2, 32 + 4 * w + 2 * hr, hb);
  }

  lemma FromLeFour(v: int)
    ensures FromLe(LeBytes(v, 4)) == v % TWO32
  {
    FromLeBytes(v, 4);
    Pow2Values();
  }

  lemma ReadI32Of(v: i32, rest: seq<byte>)
    ensures ReadI32(LeBytes(v, 4) + rest) == Some((v, rest))
  {
    hide LeBytes, FromLe;
    var bs := LeBytes(v, 4) + rest;
    assert bs[..4] == LeBytes(v, 4) && bs[4..] == rest;
    FromLeFour(v);
  }

  lemma FromLeOf(v: nat, n: nat, rest: seq<byte>)
    requires v < Pow2(8 * n)
    ensures var bs := LeBytes(v, n) + rest; FromLe(bs[..n]) == v && bs[n..] == rest
  {
    var bs := LeBytes(v, n) + rest;
    assert bs[..n] == LeBytes(v, n) && bs[n..] == rest;
    FromLeBytes(v, n);
    ModSmall(v, Pow2(8 * n));
  }

  lemma ModSmall(v: nat, p: int)
    requires v < p
    ensures v % p == v
  {
    DivModUnique(v, p, 0, v);
  }

  /** The high bits an instruction's registers leave in the prefix. */
  ghost predicate Carries(rex: RexBits, r: reg, b: reg)
  {
    rex.r == r / 8 && rex.b == b / 8
  }

  lemma ReadMemOf(rex: RexBits, r: reg, m: reg, d: i32, rest: seq<byte>)
    requires Carries(rex, r, m) && m % 8 != 4
    ensures ReadMem(rex, MemOperand(r, m, d) + rest) == Some((r, m, d, rest))
  {
    var bs := MemOperand(r, m, d) + rest;
    hide ModRM, LeBytes, ReadI32;
    if d == 0 && m % 8 != 5 {
      ModRMFields(0, r, m);
      assert bs == [ModRM(0, r, m)] + rest;
    } else if -128 <= d <= 127 {
      ModRMFields(1, r, m);
      assert bs == [ModRM(1, r, m), d % 0x100] + rest;
      assert Signed8(d % 0x100) == d;
    } else {
      ModRMFields(2, r, m);
      assert bs[1..] == LeBytes(d, 4) + rest;
      ReadI32Of(d, rest);
    }
  }

  /** The prefix bits seen by the body decoder. */
  ghost predicate Prefixed(rex: RexBits, x: X)
  {
    var (w, r, b) := RexFields(x);
    rex.wide == w && Carries(rex, r, b) && (x.Str? && x.size.S8? ==> rex.present)
  }

  lemma SplitRexOf(x: X, body: seq<byte>)
    requires body != [] && !(0x40 <= body[0] < 0x50)
    ensures var (rex, rest) := SplitRex(RexOf(x) + body); Prefixed(rex, x) && rest == body
  {
    var (w, r, b) := RexFields(x);
    RexBitsOf(w, r, b);
    hide RexByte;
    if RexOf(x) == [] {
      assert RexOf(x) + body == body;
    } else {
      assert RexOf(x) == [RexByte(w, r, b)];
      assert (RexOf(x) + body)[1..] == body;
    }
  }

  // ----- one lemma per shape of body -----

  lemma DecRR(rex: RexBits, x: X, rest: seq<byte>)
    requires x.RR? && Prefixed(rex, x)
    ensures DecBody(rex, Body(x) + rest) == Some((x, rest))
  {
    var m := ModRM(3, x.src, x.dst);
    ModRMFields(3, x.src, x.dst);
    assert RROfByte(RRByte(x.rr)) == Some(x.rr);
    assert Body(x) + rest == [RRByte(x.rr), m] + rest;
    assert ([RRByte(x.rr), m] + rest)[1..] == [m] + rest;
    assert ([m] + rest)[1..] == rest;
    hide ModRM, RROfByte;
    assert DecBody(rex, Body(x) + rest) == DecReg(rex, RRByte(x.rr), m, rest);
  }

  lemma RIOfExt(op: RIOp)
    ensures RIOf(RIByte(op), RIExt(op) % 8) == Some(op)
    ensures RIByte(op) == 0xf7 ==> UnOf(RIExt(op) % 8).None?
  {
  }

  lemma DecRI(rex: RexBits, x: X, rest: seq<byte>)
    requires x.RI? && Prefixed(rex, x)
    ensures DecBody(rex, Body(x) + rest) == Some((x, rest))
  {
    var op, m, tail := RIByte(x.ri), ModRM(3, RIExt(x.ri), x.dst), LeBytes(x.imm, 4) + rest;
    ModRMFields(3, RIExt(x.ri), x.dst);
    RIOfExt(x.ri);
    ReadI32Of(x.imm, rest);
    assert Body(x) + rest == [op, m] + tail;
    assert ([op, m] + tail)[1..] == [m] + tail;
    assert ([m] + tail)[1..] == tail;
    hide ModRM, RIOf, LeBytes, ReadI32;
    assert DecBody(rex, Body(x) + rest) == DecReg(rex, op, m, tail);
  }

  lemma DecShUn(rex: RexBits, x: X, rest: seq<byte>)
    requires x.ShI? || x.ShCl? || x.Un?
    requires Prefixed(rex, x)
    ensures DecBody(rex, Body(x) + rest) == Some((x, rest))
  {
    var op := if x.ShI? then 0xc1 else if x.ShCl? then 0xd3 else 0xf7;
    var ext := if x.Un? then UnExt(x.un) else ShExt(x.sh);
    var m, tail := ModRM(3, ext, x.dst), (if x.ShI? then [x.n] else []) + rest;
    ModRMFields(3, ext, x.dst);
    hide ModRM;
    assert Body(x) + rest == [op, m] + tail;
    assert x.ShI? ==> tail[0] == x.n && tail[1..] == rest;
    DecRegBody(rex, op, m, tail);
  }

  lemma DecRegBody(rex: RexBits, op: byte, m: byte, tail: seq<byte>)
    requires (op == 0xc1 || op == 0xd3 || op == 0xf7) && m / 64 == 3 && rex.r <= 1 && rex.b <= 1
    ensures DecBody(rex, [op, m] + tail) == DecReg(rex, op, m, tail)
  {
    hide DecReg;
    assert ([op, m] + tail)[1..] == [m] + tail;
    assert ([m] + tail)[1..] == tail;
  }

  lemma DecShort(rex: RexBits, x: X, rest: seq<byte>)
    requires x.Push? || x.Pop? || x.Bswap? || x.Ret? || x.CallRax?
    requires Prefixed(rex, x)
    ensures DecBody(rex, Body(x) + rest) == Some((x, rest))
  {
    hide LeBytes, FromLe, DecReg, DecLoad, DecStore, DecStoreImm, ReadI32, Pow2;
    var bs := Body(x) + rest;
    if x.Bswap? {
      assert bs[1..] == [0xc8 + x.dst % 8] + rest;
      assert bs[1..][1..] == rest;
    } else if x.CallRax? {
      DecCall(rex, rest);
    } else {
      assert bs[1..] == rest;
    }
  }

  lemma DecCall(rex: RexBits, rest: seq<byte>)
    requires rex.r <= 1 && rex.b <= 1
    ensures DecBody(rex, [0xff, 0xd0] + rest) == Some((CallRax, rest))
  {
    hide LeBytes, FromLe, Dec0F, DecLoad, DecStore, DecStoreImm, ReadI32, Pow2;
    var bs := [0xff, 0xd0] + rest;
    assert bs[1..] == [0xd0] + rest;
    assert bs[1..][1..] == rest;
  }

  lemma DecMovAbs(rex: RexBits, x: X, rest: seq<byte>)
    requires x.MovAbs? && Prefixed(rex, x)
    ensures DecBody(rex, Body(x) + rest) == Some((x, rest))
  {
    hide LeBytes, FromLe, Dec0F, DecReg, DecLoad, DecStore, DecStoreImm, ReadI32, Pow2;
    var bs := Body(x) + rest;
    assert bs[1..] == LeBytes(x.imm64, 8) + rest;
    assert Pow2(64) == TWO64 by { Pow2Values(); }
    FromLeOf(x.imm64, 8, rest);
  }

  lemma DecBranch(rex: RexBits, x: X, rest: seq<byte>)
    requires x.Jcc? || x.JmpRel?
    requires Prefixed(rex, x)
    ensures DecBody(rex, Body(x) + rest) == Some((x, rest))
  {
    hide LeBytes, FromLe, DecReg, DecLoad, DecStore, DecStoreImm, ReadI32, CcOf;
    var bs, tail := Body(x) + rest, LeBytes(x.rel, 4) + rest;
    ReadI32Of(x.rel, rest);
    if x.Jcc? {
      CcOfByte(x.cc);
      assert bs[1..] == [CcByte(x.cc)] + tail;
      assert bs[1..][1..] == tail;
    } else {
      assert bs[1..] == tail;
    }
  }

  lemma CcOfByte(c: CC)
    ensures CcOf(CcByte(c)) == Some(c)
  {
  }

  lemma DecLea(rex: RexBits, x: X, rest: seq<byte>)
    requires x.Lea? && Encodable(x)
    requires Prefixed(rex, x)
    ensures DecBody(rex, Body(x) + rest) == Some((x, rest))
  {
    hide LeBytes, FromLe, Dec0F, DecReg, DecLoad, DecStore, DecStoreImm, ReadI32, ModRM;
    var bs, m, tail := Body(x) + rest, ModRM(0, x.dst, 5), LeBytes(x.rel, 4) + rest;
    ModRMFields(0, x.dst, 5);
    ReadI32Of(x.rel, rest);
    assert bs[1..] == [m] + tail;
    assert bs[1..][1..] == tail;
  }

  lemma MemOperandHead(r: reg, m: reg, d: i32)
    ensures MemOperand(r, m, d) != [] && MemOperand(r, m, d)[0] / 64 != 3
  {
    ModRMFields(0, r, m);
    ModRMFields(1, r, m);
    ModRMFields(2, r, m);
    hide ModRM;
  }

  lemma DecLd(rex: RexBits, x: X, rest: seq<byte>)
    requires x.Ld? && Encodable(x) && Prefixed(rex, x)
    ensures DecBody(rex, Body(x) + rest) == Some((x, rest))
  {
    hide MemOperand, ReadMem, LeBytes, FromLe, DecReg, DecStore, DecStoreImm, ReadI32, CcOf;
    var bs, mem := Body(x) + rest, MemOperand(x.dst, x.base, x.disp);
    ReadMemOf(rex, x.dst, x.base, x.disp, rest);
    if x.size.S8? || x.size.S16? {
      assert bs[1..] == [if x.size.S8? then 0xb6 else 0xb7] + (mem + rest);
      assert bs[1..][1..] == mem + rest;
    } else {
      assert bs[1..] == mem + rest;
    }
  }

  lemma DecStr(rex: RexBits, x: X, rest: seq<byte>)
    requires x.Str? && Encodable(x) && Prefixed(rex, x)
    ensures var bs := Body(x) + rest;
      (if x.size.S16? then DecWord(rex, bs) else DecBody(rex, bs)) == Some((x, rest))
  {
    hide MemOperand, ReadMem, LeBytes, FromLe, Dec0F, DecReg, DecLoad, DecStoreImm, ReadI32;
    var bs, mem := Body(x) + rest, MemOperand(x.src, x.base, x.disp);
    ReadMemOf(rex, x.src, x.base, x.disp, rest);
    MemOperandHead(x.src, x.base, x.disp);
    assert bs[1..] == mem + rest;
  }

  lemma DecStoreImmOf(rex: RexBits, x: X, rest: seq<byte>)
    requires x.StrI? && Encodable(x) && Prefixed(rex, x)
    ensures DecStoreImm(x.size, rex, MemOperand(0, x.base, x.disp) + (LeBytes(x.bits, ImmBytes(x.size)) + rest))
      == Some((x, rest))
  {
    var n := ImmBytes(x.size);
    ReadMemOf(rex, 0, x.base, x.disp, LeBytes(x.bits, n) + rest);
    Pow2Values();
    FromLeOf(x.bits, n, rest);
    hide MemOperand, ReadMem, LeBytes;
  }

  lemma DecStrI(rex: RexBits, x: X, rest: seq<byte>)
    requires x.StrI? && Encodable(x) && Prefixed(rex, x)
    ensures var bs := Body(x) + rest;
      (if x.size.S16? then DecWord(rex, bs) else DecBody(rex, bs)) == Some((x, rest))
  {
    hide MemOperand, DecStoreImm, LeBytes, FromLe, Dec0F, DecReg, DecLoad, DecStore, ReadMem, ReadI32;
    var mem, imm := MemOperand(0, x.base, x.disp), LeBytes(x.bits, ImmBytes(x.size));
    DecStoreImmOf(rex, x, rest);
    MemOperandHead(0, x.base, x.disp);
    assert (Body(x) + rest)[1..] == mem + (imm + rest);
  }

  lemma DecRol(rex: RexBits, x: X, rest: seq<byte>)
    requires x.Rol16? && Prefixed(rex, x)
    ensures DecWord(rex, Body(x) + rest) == Some((x, rest))
  {
    var bs := Body(x) + rest;
    ModRMFields(3, 0, x.dst);
    hide ModRM;
    assert bs == [0xc1, ModRM(3, 0, x.dst), x.n] + rest;
    assert bs[3..] == rest;
  }

  lemma DecBodyOf(rex: RexBits, x: X, rest: seq<byte>)
    requires Encodable(x) && Prefixed(rex, x)
    ensures var bs := Body(x) + rest;
      (if Prefix66(x) then DecWord(rex, bs) else DecBody(rex, bs)) == Some((x, rest))
  {
    hide Body, DecBody, DecWord;
    match x
    case RR(_, _, _, _) => DecRR(rex, x, rest);
    case RI(_, _, _, _) => DecRI(rex, x, rest);
    case ShI(_, _, _, _) => DecShUn(rex, x, rest);
    case ShCl(_, _, _) => DecShUn(rex, x, rest);
    case Un(_, _, _) => DecShUn(rex, x, rest);
    case Rol16(_, _) => DecRol(rex, x, rest);
    case Bswap(_, _) => DecShort(rex, x, rest);
    case Push(_) => DecShort(rex, x, rest);
    case Pop(_) => DecShort(rex, x, rest);
    case MovAbs(_, _) => DecMovAbs(rex, x, rest);
    case Ld(_, _, _, _) => DecLd(rex, x, rest);
    case Str(_, _, _, _) => DecStr(rex, x, rest);
    case StrI(_, _, _, _) => DecStrI(rex, x, rest);
    case Jcc(_, _) => DecBranch(rex, x, rest);
    case JmpRel(_) => DecBranch(rex, x, rest);
    case CallRax => DecShort(rex, x, rest);
    case Ret => DecShort(rex, x, rest);
    case Lea(_, _) => DecLea(rex, x, rest);
  }

  lemma BodyHead(x: X)
    ensures Body(x) != [] && Body(x)[0] != 0x66 && !(0x40 <= Body(x)[0] < 0x50)
  {
  }

  /** Prefixes come off; what is left is decoding the body. */
  lemma DecIsBody(x: X, rest: seq<byte>) returns (rex: RexBits)
    ensures Prefixed(rex, x) && Body(x) != []
    ensures Dec(Enc(x) + rest) == if Prefix66(x) then DecWord(rex, Body(x) + rest) else DecBody(rex, Body(x) + rest)
  {
    hide Body, DecBody, DecWord, SplitRex, RexByte, RexOf;
    BodyHead(x);
    var tail := Body(x) + rest;
    SplitRexOf(x, tail);
    rex := SplitRex(RexOf(x) + tail).0;
    var bs := Enc(x) + rest;
    if Prefix66(x) {
      assert bs[0] == 0x66 && bs[1..] == RexOf(x) + tail;
    } else {
      assert bs == RexOf(x) + tail;
      RexOfHead(x, tail);
    }
  }

  /**
   * Decoding an encoded instruction, whatever follows it, gives the instruction back and consumes exactly its bytes.
   */
  lemma DecEnc(x: X, rest: seq<byte>)
    requires Encodable(x)
    ensures Enc(x) != [] && Dec(Enc(x) + rest) == Some((x, rest))
  {
    hide Body, DecBody, DecWord, Dec;
    var rex := DecIsBody(x, rest);
    DecBodyOf(rex, x, rest);
  }

  /** A base register RSP or R12 selects a SIB byte, which is not there. */
  lemma NoSib(rex: RexBits, r: reg, m: reg, d: i32, rest: seq<byte>)
    requires Carries(rex, r, m) && m % 8 == 4
    ensures ReadMem(rex, MemOperand(r, m, d) + rest) == None
  {
    ModRMFields(0, r, m);
    ModRMFields(1, r, m);
    ModRMFields(2, r, m);
    hide ModRM, LeBytes;
  }

  lemma BadLd(rex: RexBits, x: X, rest: seq<byte>)
    requires x.Ld? && !Encodable(x) && Prefixed(rex, x)
    ensures DecBody(rex, Body(x) + rest) == None
  {
    hide MemOperand, ReadMem, LeBytes, FromLe, DecReg, DecStore, DecStoreImm, ReadI32, CcOf;
    var bs, mem := Body(x) + rest, MemOperand(x.dst, x.base, x.disp);
    NoSib(rex, x.dst, x.base, x.disp, rest);
    if x.size.S8? || x.size.S16? {
      assert bs[1..] == [if x.size.S8? then 0xb6 else 0xb7] + (mem + rest);
      assert bs[1..][1..] == mem + rest;
    } else {
      assert bs[1..] == mem + rest;
    }
  }

  lemma BadStr(rex: RexBits, x: X, rest: seq<byte>)
    requires x.Str? && !Encodable(x) && Prefixed(rex, x)
    ensures var bs := Body(x) + rest;
      (if x.size.S16? then DecWord(rex, bs) else DecBody(rex, bs)) == None
  {
    hide MemOperand, ReadMem, LeBytes, FromLe, Dec0F, DecReg, DecLoad, DecStoreImm, ReadI32;
    var bs, mem := Body(x) + rest, MemOperand(x.src, x.base, x.disp);
    NoSib(rex, x.src, x.base, x.disp, rest);
    MemOperandHead(x.src, x.base, x.disp);
    assert bs[1..] == mem + rest;
  }

  /** An immediate store from such a base does not decode; bits beyond the operand are lost. */
  lemma BadStoreImm(rex: RexBits, x: X, rest: seq<byte>)
    requires x.StrI? && !Encodable(x) && Prefixed(rex, x)
    ensures DecStoreImm(x.size, rex, MemOperand(0, x.base, x.disp) + (LeBytes(x.bits, ImmBytes(x.size)) + rest))
      != Some((x, rest))
  {
    var n := ImmBytes(x.size);
    if x.base % 8 == 4 {
      NoSib(rex, 0, x.base, x.disp, LeBytes(x.bits, n) + rest);
    } else {
      ReadMemOf(rex, 0, x.base, x.disp, LeBytes(x.bits, n) + rest);
      Pow2Values();
      FromLeBound((LeBytes(x.bits, n) + rest)[..n]);
    }
    hide MemOperand, ReadMem, LeBytes, FromLe;
  }

  lemma BadStrI(rex: RexBits, x: X, rest: seq<byte>)
    requires x.StrI? && !Encodable(x) && Prefixed(rex, x)
    ensures var bs := Body(x) + rest;
      (if x.size.S16? then DecWord(rex, bs) else DecBody(rex, bs)) != Some((x, rest))
  {
    hide MemOperand, DecStoreImm, LeBytes, FromLe, Dec0F, DecReg, DecLoad, DecStore, ReadMem, ReadI32;
    var mem, imm := MemOperand(0, x.base, x.disp), LeBytes(x.bits, ImmBytes(x.size));
    BadStoreImm(rex, x, rest);
    MemOperandHead(0, x.base, x.disp);
    assert (Body(x) + rest)[1..] == mem + (imm + rest);
  }

  /** The destination of a RIP-relative load keeps only its low three bits. */
  lemma BadLea(rex: RexBits, x: X, rest: seq<byte>)
    requires x.Lea? && !Encodable(x) && Prefixed(rex, x)
    ensures DecBody(rex, Body(x) + rest) != Some((x, rest))
  {
    hide LeBytes, FromLe, Dec0F, DecReg, DecLoad, DecStore, DecStoreImm, ReadI32, ModRM;
    var bs, m, tail := Body(x) + rest, ModRM(0, x.dst, 5), LeBytes(x.rel, 4) + rest;
    ModRMFields(0, x.dst, 5);
    ReadI32Of(x.rel, rest);
    assert bs[1..] == [m] + tail;
    assert bs[1..][1..] == tail;
  }

  /** The exact reach of the emitters: an encoding decodes to its instruction if and only if that is `Encodable`. */
  lemma DecodesExactly(x: X, rest: seq<byte>)
    ensures Dec(Enc(x) + rest) == Some((x, rest)) <==> Encodable(x)
  {
    if Encodable(x) {
      DecEnc(x, rest);
    } else {
      hide Body, DecBody, DecWord, Dec, Enc;
      var rex := DecIsBody(x, rest);
      match x {
        case Ld(_, _, _, _) => BadLd(rex, x, rest);
        case Str(_, _, _, _) => BadStr(rex, x, rest);
        case StrI(_, _, _, _) => BadStrI(rex, x, rest);
        case Lea(_, _) => BadLea(rex, x, rest);
      }
    }
  }

  lemma RexOfHead(x: X, body: seq<byte>)
    requires body != [] && body[0] != 0x66
    ensures (RexOf(x) + body)[0] != 0x66
  {
    var (w, r, b) := RexFields(x);
    RexBitsOf(w, r, b);
    hide RexByte;
  }

  function EncAll(xs: seq<X>): seq<byte>
  {
    if xs == [] then [] else Enc(xs[0]) + EncAll(xs[1..])
  }

  /** Decoding instruction after instruction. */
  function DecAll(bs: seq<byte>): Option<seq<X>>
    decreases |bs|
  {
    if bs == [] then Some([])
    else match Dec(bs)
      case None => None
      case Some((x, rest)) =>
        if |rest| >= |bs| then None
        else match DecAll(rest)
          case None => None
          case Some(xs) => Some([x] + xs)
  }

  /** A whole stream of emitted instructions decodes to exactly that sequence. */
  lemma {:induction false} DecEncAll(xs: seq<X>)
    requires forall x :: x in xs ==> Encodable(x)
    ensures DecAll(EncAll(xs)) == Some(xs)
  {
    if xs != [] {
      DecEnc(xs[0], EncAll(xs[1..]));
      DecEncAll(xs[1..]);
      hide Dec, Enc;
      assert [xs[0]] + xs[1..] == xs;
    }
  }
}
