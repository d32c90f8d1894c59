/** What a code generator is given and gives back, whatever the machine. */
module JitInput {
  import opened Words
  import opened Ebpf
  import opened Select
  import opened Layout
  import V = Validator

  datatype TranslateResult =
    | Translated(size: nat)
    | UnknownInstruction
    | ExcessiveJumps
    | ExcessiveStrings
    | BufferTooSmall

  /** Every opcode the translation loop meets from slot `i` on is known. */
  predicate Known(p: Source, i: nat)
    decreases |p.insts| - i
  {
    i >= |p.insts| || (DecodeOp(p.insts[i].opcode).Some? && Known(p, V.After(p.insts, i)))
  }

  lemma KnownStep(p: Source, i: nat)
    ensures Known(p, i) <==> i >= |p.insts| || (DecodeOp(p.insts[i].opcode).Some? && Known(p, V.After(p.insts, i)))
  {
  }

  /** What translation reads without checking: second slots of two-slot loads, helper entries, jump targets. */
  predicate Readable(p: Source)
  {
    && |p.insts| <= MAX_INSTS
    && forall i :: 0 <= i < |p.insts| ==> ReadableAt(p, i)
  }

  predicate ReadableAt(p: Source, i: nat)
    requires i < |p.insts|
  {
    var inst := p.insts[i];
    match DecodeOp(inst.opcode)
    case Some(Lddw) => i + 1 < |p.insts|
    case Some(Ja) => 0 <= i + 1 + inst.offset < |p.insts|
    case Some(Jmp(_, _)) => 0 <= i + 1 + inst.offset < |p.insts|
    case Some(Call) => 0 <= inst.imm < |p.extFuncs|
    case _ => true
  }

  /** The unsigned 32-bit target of a readable jump is its slot. */
  lemma SlotIsTarget(p: Source, i: nat)
    requires Readable(p) && i < |p.insts| && DecodeOp(p.insts[i].opcode).Some?
    ensures var op := DecodeOp(p.insts[i].opcode).value;
      ((op.Ja? || op.Jmp?) ==> TargetPc(SlotTarget(i, p.insts[i].offset)) == (i + p.insts[i].offset + 1) % TWO32)
      && (op.Lddw? ==> i + 1 < |p.insts|) && (op.Call? ==> 0 <= p.insts[i].imm < |p.extFuncs|)
    ensures TargetPc(ToExit) == TARGET_PC_EXIT
  {
    assert ReadableAt(p, i);
  }

  /** A validated program is readable. */
  lemma AcceptedIsReadable(p: Source)
    requires |p.extFuncs| == MAX_EXT_FUNCS && V.Accepted(p.insts, p.extFuncs)
    ensures Readable(p)
  {
    forall i | 0 <= i < |p.insts|
      ensures ReadableAt(p, i)
    {
      if p.insts[i].opcode != 0 {
        V.AcceptedIsWhole(p.insts, p.extFuncs);
        V.NonzeroIsStart(p.insts, 0, i);
        assert V.InstError(p.insts, p.extFuncs, i).None?;
      }
    }
  }

  /** The loop meets only known opcodes in a validated program. */
  lemma {:induction false} AcceptedIsKnown(p: Source, i: nat)
    requires |p.extFuncs| == MAX_EXT_FUNCS && V.Accepted(p.insts, p.extFuncs)
    requires i in V.Starts(p.insts, 0) || i >= |p.insts|
    ensures Known(p, i)
    decreases |p.insts| - i
  {
    hide DecodeOp;
    if i < |p.insts| {
      assert V.InstError(p.insts, p.extFuncs, i).None?;
      V.StartsClosed(p.insts, 0, i);
      AcceptedIsKnown(p, V.After(p.insts, i));
    }
  }

  predicate TargetExists(j: Jump)
  {
    j.targetPc == TARGET_PC_EXIT || j.targetPc == TARGET_PC_DIV_BY_ZERO || j.targetPc <= MAX_INSTS
  }

  lemma {:induction false} StringBytesSnoc(table: seq<string>, i: nat)
    requires i < |table|
    ensures StringBytes(table[..i + 1]) == StringBytes(table[..i]) + CString(table[i])
    decreases i
  {
    hide CString;
    var a, b := table[..i + 1], table[..i];
    if i > 0 {
      StringBytesSnoc(table[1..], i - 1);
      assert a[1..] == table[1..][..i] && b[1..] == table[1..][..i - 1];
    } else {
      assert a[1..] == [];
    }
  }
}
