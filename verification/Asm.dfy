/** The textual assembler and disassembler. */
module Asm {
  import opened Words
  import opened Ebpf
  import opened Numerals

  // ----- statements -----

  /** A parsed statement. Operands the operation does not take are 0; the others are whatever integer was written. */
  datatype Stmt = Stmt(op: Op, dst: int, src: int, offset: int, imm: int)

  predicate UsesDst(op: Op) { op.Alu? || op.Neg? || op.End? || op.Ldx? || op.St? || op.Stx? || op.Lddw? || op.Jmp? }

  predicate UsesSrc(op: Op) { op.Ldx? || op.Stx? || ((op.Alu? || op.Jmp?) && op.operand.Reg?) }

  predicate UsesOffset(op: Op) { op.Ldx? || op.St? || op.Stx? || op.Jmp? || op.Ja? }

  predicate UsesImm(op: Op) { op.St? || op.Lddw? || op.Call? || op.End? || ((op.Alu? || op.Jmp?) && op.operand.Imm?) }

  predicate Shaped(s: Stmt)
  {
    && (!UsesDst(s.op) ==> s.dst == 0) && (!UsesSrc(s.op) ==> s.src == 0)
    && (!UsesOffset(s.op) ==> s.offset == 0) && (!UsesImm(s.op) ==> s.imm == 0)
    && (s.op.End? ==> s.imm == 16 || s.imm == 32 || s.imm == 64)
  }

  // ----- assembling -----

  /** Both register numbers in one byte: or-ed together and cut to 8 bits. */
  function RegByte(dst: int, src: int): byte
  {
    var a, b := dst % 0x100, 16 * src % 0x100;
    assert Bitwise(BitOr, a, b) < 0x100 by {
      Pow2Values();
      BitwiseBound(BitOr, a, b, 8);
    }
    Bitwise(BitOr, a, b)
  }

  /** One 8-byte slot; every field is cut to its width. */
  function Pack(opcode: byte, dst: int, src: int, offset: int, imm: int): (bs: seq<byte>)
    ensures |bs| == 8
  {
    [opcode, RegByte(dst, src)] + LeBytes(offset, 2) + LeBytes(imm, 4)
  }

  function AssembleOne(s: Stmt): (bs: seq<byte>)
    ensures |bs| == if s.op.Lddw? then 16 else 8
  {
    Pack(Opcode(s.op), s.dst, s.src, s.offset, s.imm)
    + (if s.op.Lddw? then Pack(0, 0, 0, 0, s.imm / TWO32) else [])
  }

  function AssembleAll(stmts: seq<Stmt>): (bs: seq<byte>)
    ensures |bs| % 8 == 0
  {
    if stmts == [] then [] else AssembleOne(stmts[0]) + AssembleAll(stmts[1..])
  }

  /** The output loop of the assembler. */
  method Assemble(stmts: seq<Stmt>) returns (output: seq<byte>)
    ensures output == AssembleAll(stmts)
  {
    output := [];
    for i := 0 to |stmts|
      invariant AssembleAll(stmts) == output + AssembleAll(stmts[i..])
    {
      hide AssembleOne, AssembleAll;
      AssembleNext(stmts, i, output);
      output := output + AssembleOne(stmts[i]);
    }
  }

  lemma AssembleNext(stmts: seq<Stmt>, i: nat, output: seq<byte>)
    requires i < |stmts|
    ensures output + AssembleAll(stmts[i..]) == (output + AssembleOne(stmts[i])) + AssembleAll(stmts[i + 1..])
  {
    hide AssembleOne;
    assert stmts[i..][1..] == stmts[i + 1..];
  }

  // ----- names -----

  function AluName(code: nat): string
  {
    match code
    case 0 => "add" case 1 => "sub" case 2 => "mul" case 3 => "div" case 4 => "or" case 5 => "and" case 6 => "lsh"
    case 7 => "rsh" case 8 => "neg" case 9 => "mod" case 10 => "xor" case 11 => "mov" case 12 => "arsh"
    case 13 => "(endian)" case _ => "None"
  }

  function JmpName(code: nat): string
  {
    match code
    case 0 => "ja" case 1 => "jeq" case 2 => "jgt" case 3 => "jge" case 4 => "jset" case 5 => "jne" case 6 => "jsgt"
    case 7 => "jsge" case 8 => "call" case 9 => "exit" case 10 => "jlt" case 11 => "jle" case 12 => "jslt"
    case 13 => "jsle" case _ => "None"
  }

  function SizeName(code: nat): string
  {
    match code
    case 0 => "w"
    case 1 => "h"
    case 2 => "b"
    case _ => "dw"
  }

  // ----- operands -----

  function R(reg: nat): string { "r" + Numeral(reg, 10) }

  function I(imm: nat): string { "0x" + Numeral(imm, 16) }

  /** An unsigned 16-bit offset, shown signed. */
  function O(off: u16): string
  {
    var v: int := off;
    if v <= 32767 then "+" + Numeral(v, 10) else "-" + Numeral(65536 - v, 10)
  }

  function M(base: nat, off: u16): string
  {
    if off != 0 then "[" + R(base) + O(off) + "]" else "[" + R(base) + "]"
  }

  // ----- disassembling -----

  /** A line, nothing for the second slot of a two-slot load, or an exception. */
  datatype Line = Line(text: string) | Silent | Raises

  function DisassembleOne(data: seq<byte>, offset: nat): Line
  {
    if offset + 8 > |data| then Raises
    else
      var inst := DecodeInst(data[offset..offset + 8]);
      var code, dst, src, off, imm := inst.opcode, inst.dst, inst.src, inst.offset % TWO16, Low32(inst.imm);
      var cls := code % 8;
      if cls == CLS_ALU || cls == CLS_ALU64 then AluLine(code, dst, src, imm)
      else if cls == CLS_JMP then Line(JmpLine(code, dst, src, off, imm))
      else if cls == CLS_LD || cls == CLS_LDX || cls == CLS_ST || cls == CLS_STX then
        if code == 0x18 then
          if offset + 16 > |data| then Raises
          else
            var imm2 := Low32(DecodeInst(data[offset + 8..offset + 16]).imm);
            Line("lddw " + R(dst) + ", " + I(TWO32 * imm2 + imm))
        else if code == 0 then Silent
        else Line(MemLine(code, dst, src, off, imm))
      else Line("unknown instruction " + I(code))
  }

  function AluLine(code: byte, dst: nat, src: nat, imm: nat): Line
  {
    var source, opcode, alu32 := code / 8 % 2, code / 16, code % 8 == CLS_ALU;
    if alu32 && opcode > 13 then Raises
    else
      var name := AluName(opcode) + (if alu32 then "32" else "");
      if opcode == 13 then Line((if source == 1 then "be" else "le") + Numeral(imm, 10) + " " + R(dst))
      else if opcode == 8 then Line(name + " " + R(dst))
      else if source == 0 then Line(name + " " + R(dst) + ", " + I(imm))
      else Line(name + " " + R(dst) + ", " + R(src))
  }

  function JmpLine(code: byte, dst: nat, src: nat, off: u16, imm: nat): string
  {
    var source, opcode := code / 8 % 2, code / 16;
    var name := JmpName(opcode);
    if opcode == 9 then name
    else if opcode == 8 then name + " " + I(imm)
    else if opcode == 0 then name + " " + O(off)
    else if source == 0 then name + " " + R(dst) + ", " + I(imm) + ", " + O(off)
    else name + " " + R(dst) + ", " + R(src) + ", " + O(off)
  }

  function MemLine(code: byte, dst: nat, src: nat, off: u16, imm: nat): string
  {
    var cls, size := code % 8, SizeName(code / 8 % 4);
    if cls == CLS_LDX then "ldx" + size + " " + R(dst) + ", " + M(src, off)
    else if cls == CLS_ST then "st" + size + " " + M(dst, off) + ", " + I(imm)
    else if cls == CLS_STX then "stx" + size + " " + M(dst, off) + ", " + R(src)
    else "unknown mem instruction " + I(code)
  }

  /** The text from `offset` on, or nothing if an instruction raises an exception. */
  function DisassembleFrom(data: seq<byte>, offset: nat): Option<string>
    decreases |data| - offset
  {
    if offset >= |data| then Some("")
    else match (DisassembleOne(data, offset), DisassembleFrom(data, offset + 8))
      case (Line(text), Some(rest)) => Some(text + "\n" + rest)
      case (Silent, Some(rest)) => Some(rest)
      case _ => None
  }

  /** The output loop of the disassembler. */
  method Disassemble(data: seq<byte>) returns (ok: bool, output: string)
    ensures ok <==> DisassembleFrom(data, 0).Some?
    ensures ok ==> DisassembleFrom(data, 0) == Some(output)
  {
    hide DisassembleOne;
    output := "";
    var offset := 0;
    assert Prefixed("", DisassembleFrom(data, 0)) ==
      DisassembleFrom(data, 0) by { PrefixedNone(DisassembleFrom(data, 0)); }
    while offset < |data|
      invariant DisassembleFrom(data, 0) == Prefixed(output, DisassembleFrom(data, offset))
      decreases |data| - offset
    {
      var s := DisassembleOne(data, offset);
      if s.Raises? {
        return false, output;
      }
      PrefixedTwice(output, if s.Line? then s.text + "\n" else "", DisassembleFrom(data, offset + 8));
      if s.Line? {
        output := output + (s.text + "\n");
      } else {
        assert output + "" == output;
      }
      offset := offset + 8;
    }
    assert output + "" == output;
    ok := true;
  }

  function Prefixed(a: string, b: Option<string>): Option<string>
  {
    if b.Some? then Some(a + b.value) else None
  }

  lemma PrefixedNone(b: Option<string>)
    ensures Prefixed("", b) == b
  {
    if b.Some? {
      assert "" + b.value == b.value;
    }
  }

  lemma PrefixedTwice(a: string, b: string, c: Option<string>)
    ensures Prefixed(a, Prefixed(b, c)) == Prefixed(a + b, c)
  {
    if c.Some? {
      assert a + (b + c.value) == a + b + c.value;
    }
  }
}
