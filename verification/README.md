# Verified model of the json patch runtime

This project models, in Dafny, the parts of the repository that turn a small eBPF program into a hot patch and run it,
and proves what they promise.

* **The eBPF virtual machine** (`jsonPatch_writer/ubpf/vm`): the validator, the interpreter, and both code generators,
  x86-64 and AArch64. The generators are proved in three layers that compose: the instructions selected for each eBPF
  instruction simulate the interpreter; layout and back-patching put every jump where it belongs; and a decoder reads
  the emitted bytes back as the instructions they were meant for. The two main theorems, `JitCorrect.JitPreservesMeaning`
  and `A64Correct.A64PreservesMeaning`, speak about executing the bytes in the buffer, from the entry to the return.
* **cJSON** (`jsonPatch_writer/cJSON.c`): the two-pass string decoder, the mutually recursive parser, the printer with
  its growing buffer, and the doubly linked child list.
* **The assembler and the disassembler** (`jsonPatch_writer/ubpf/ubpf`): grammar, encoder, printer and their round trip.
* **Name anonymisation** (`patch/pahole.patch`) and **the patch payload** from `gen_patch.py` to the loader in
  `main_test.c`.

Code that changes things step by step is modelled by classes and methods with loops (the emitters and back-patching
loops, the interpreter loop, the parse and print buffers, the child list, the string section, the tokenizer); each method
is proved against a function, and the theorems are lemmas about those functions. Machine words are integers with every
truncation, wrap-around and sign change written out; memory is a finite map, so that touching an unmapped address is
visible; behaviour that C leaves undefined is the outcome `Undefined` and claims nothing.

The functions the methods are proved against are themselves tied down by laws that say what they mean without naming
them: `Meaning` gives every interpreter step in quotients, remainders, single bytes and binary digits; `Validator` has
acceptance as a condition on each slot; `JsonMeaning` and `AsmMeaning` are declarative grammars with the proofs that the
two parsers decide them, in both directions; `PrintMeaning`, `PythonMeaning` and `PayloadMeaning` say how each byte,
number, token and line is written and read. The machines have their own shifts and byte reversals, so that the
simulation theorems compare two definitions, and their encodings agree with known instruction bytes.

## What the proofs found

Where a promise does not hold of the code, the code is modelled as it is, and the exact condition under which the promise
holds is proved, in both directions.

* x86-64 code differs from the interpreter: multiplication and division take the source register exactly when the
  immediate is 0 and test it for zero even when they do not use it; a 32-bit register move copies 64 bits; 32-bit left
  shifts mask their amount; little-endian conversions emit nothing; unsigned comparisons sign-extend their immediate.
* Neither code generator emits bounds checks: with checking on, an access that the interpreter refuses with -1 is made.
* AArch64 code differs in other places: a negation reads the source register; an 8-byte store of an immediate does not
  sign-extend it; the result of a call also lands in the register of r1; shifts, 32-bit little-endian conversions and
  unsigned comparisons differ as on x86-64. The address fix-up is right for forward distances only.
* Neither generator saves r1 to r5 around calls, which a C function may change; the interpreter keeps them. What is
  proved is that programs which do not use such a register before setting it again cannot tell.
* Validation accepts programs that run off their end.
* cJSON's round trip ends at a nesting of 1000, where its parser refuses what its printer writes.
* Assembling, disassembling and assembling again gives other bytes where a register number above 15 spills into the
  other half of the register byte, as in "neg r16".
* A comment in `pahole.patch` (lines 269-272) says how a known name finds its hash; with two hashes in common it finds
  another name's. A name whose text was added as another string before cannot be added: one whose first hash is 0
  clashes with the string "0" that stands for ignored names.
* The stored payload length is one too large; what is loaded is right unless the code ends one byte short of a slot.

## Model

| member | source | states |
|---|---|---|
| `Ebpf.DecodeEncodeInst` | jsonPatch_writer/ubpf/vm/ebpf.h:24-30 | The 8-byte instruction layout loses nothing: every instruction is read back from its bytes, signed offset and immediate included |
| `Ebpf.EncodeDecodeInst` | jsonPatch_writer/ubpf/vm/ebpf.h:24-30 | and every 8 bytes are the bytes of the instruction read from them, so slots and instructions correspond one to one |
| `Ebpf.InstLayout` | jsonPatch_writer/ubpf/vm/ebpf.h:24-30 | Byte by byte: opcode, both registers in one byte, the offset and the immediate with the lowest byte first |
| `Ebpf.OpcodeTable` | jsonPatch_writer/ubpf/vm/ebpf.h:32-139 | The opcode table is a bijection between operations and the opcode bytes the `case` labels name, in both directions |
| `Ebpf.OpcodeBytes` | jsonPatch_writer/ubpf/vm/ebpf.h:32-139 | The opcode bytes written out: class, operand bit and operation code of every operation |
| `Validator.Validate` | jsonPatch_writer/ubpf/vm/ubpf_vm.c:629-803 | The walk over slots accepts exactly the programs whose slots all fit, said of each slot by itself: fewer than 65536; a zero opcode only behind a two-slot load; otherwise a known opcode, a source register up to 10, a destination up to 9 or, for a store, 10, and the condition on immediate, second slot, jump or helper of its operation, nonzero constant divisors included. Otherwise it reports the first error |
| `Validator.CheckInst` | jsonPatch_writer/ubpf/vm/ubpf_vm.c:640-800 | One iteration reports the error of this instruction, if any, whose conditions the two rows below spell out, and moves on by one slot or by two |
| `Validator.InstPasses` | jsonPatch_writer/ubpf/vm/ubpf_vm.c:641-799 | An instruction passes if and only if its opcode is known, its registers exist and may be written, and its immediate, second slot, jump target or helper is as its operation demands |
| `Validator.ErrorExactly` | jsonPatch_writer/ubpf/vm/ubpf_vm.c:641-799 | Each error of an operation is reported under its own condition and no other; the register errors come after them, the source first, with the last slot of the instruction |
| `Validator.FirstErrorExactly` | jsonPatch_writer/ubpf/vm/ubpf_vm.c:637-800 | The error reported for a program is that of an instruction before which all others pass |
| `Validator.AcceptedExactly` | jsonPatch_writer/ubpf/vm/ubpf_vm.c:629-803 | Acceptance without the walk, in both directions: every slot fits |
| `Validator.StartsExactly` | jsonPatch_writer/ubpf/vm/ubpf_vm.c:717-760 | In an accepted program a slot starts an instruction exactly when its opcode is not 0 |
| `Validator.CheckJump` | jsonPatch_writer/ubpf/vm/ubpf_vm.c:725-760 | The check looks only at the opcode in the target slot. If the other checks of the program pass, it is passed exactly by the jumps that do not go to themselves and do go to the start of an instruction |
| `Validator.JumpFacts` | jsonPatch_writer/ubpf/vm/ubpf_vm.c:725-760 | In an accepted program every jump lands on an instruction start, and the 16-bit sum the interpreter computes equals the integer the validator computed |
| `Validator.StepKeepsGood` | jsonPatch_writer/ubpf/vm/ubpf_vm.c:210-626 | Every step of an accepted program keeps: the program counter is an instruction start or the end, and r10 is the frame pointer |
| `Runs.RunKeepsGood` | jsonPatch_writer/ubpf/vm/ubpf_vm.c:184-626 | The same in every state of every run of an accepted program, of any length |
| `Runs.RunStaysInside` | jsonPatch_writer/ubpf/vm/ubpf_vm.c:184-626 | If the last instruction is EXIT or JA, the program counter of every run stays below the number of instructions |
| `Runs.RunsOffEnd` | jsonPatch_writer/ubpf/vm/ubpf_vm.c:629-803 | A concrete program that is accepted and runs off its end: the condition of the previous row is needed |
| `Runs.RunConfined` | jsonPatch_writer/ubpf/vm/ubpf_vm.c:432-494 | With bounds checking and no calls, no run of any program, accepted or not, changes a byte outside the context buffer and the 512-byte stack |
| `Runs.ForwardRunsStop` | jsonPatch_writer/ubpf/vm/ubpf_vm.c:210-626 | An accepted program whose jumps all go forward and which ends in EXIT or JA stops within the number of its instructions |
| `UbpfVm.UbpfVm.Register` | jsonPatch_writer/ubpf/vm/ubpf_vm.c:96-106 | Sets one helper entry if the index is in range, changes no other, and keeps an accepted program accepted |
| `UbpfVm.UbpfVm.LookupRegisteredFunction` | jsonPatch_writer/ubpf/vm/ubpf_vm.c:119-129 | The first helper of a name, or all ones exactly when there is none |
| `UbpfVm.UbpfVm.SetUnwindFunctionIndex` | jsonPatch_writer/ubpf/vm/ubpf_vm.c:108-116 | Succeeds once; later calls change nothing |
| `UbpfVm.UbpfVm.LoadCode` | jsonPatch_writer/ubpf/vm/ubpf_vm.c:132-160 | Loads only whole instructions, only once, and only code that is accepted; every refusal leaves the machine as it was |
| `UbpfVm.UbpfVm.BoundsCheck` | jsonPatch_writer/ubpf/vm/ubpf_vm.c:806-820 | True exactly for accesses that lie in the context buffer or in the stack, or when checking is off; byte by byte in the row `Meaning.InBoundsExactly` |
| `UbpfVm.UbpfVm.ExecInst` | jsonPatch_writer/ubpf/vm/ubpf_vm.c:210-620 | The register array, memory and program counter after one instruction are those of the step relation all theorems are about; the `Meaning` rows say what that step is |
| `UbpfVm.UbpfVm.Exec` | jsonPatch_writer/ubpf/vm/ubpf_vm.c:184-626 | The loop over registers and memory in place is the iterated step from the initial state, to its outcome and final memory; see `Meaning.StartMeans` and `Meaning.RunMeans` |
| `Meaning.SumMeans` | jsonPatch_writer/ubpf/vm/ubpf_vm.c:215-419 | Additions, subtractions, multiplications and moves, at either width and from a register or a signed immediate: the destination is below 2^32 or 2^64 and differs from the exact result by a multiple of it; no other register and no memory changes |
| `Meaning.LogicMeans` | jsonPatch_writer/ubpf/vm/ubpf_vm.c:251-413 | OR, AND and XOR: each binary digit of the result from the same digit of both operands, an immediate being sign-extended |
| `Meaning.DivisionMeans` | jsonPatch_writer/ubpf/vm/ubpf_vm.c:239-407 | Division and remainder, unsigned at the width: the quotient q with q * y <= x < (q + 1) * y, the remainder below y; a zero register stops the program with -1; only an operand that is zero at its width but not as a register has no meaning |
| `Meaning.ShiftMeans` | jsonPatch_writer/ubpf/vm/ubpf_vm.c:267-425 | Shifts: left, the product with 2^n modulo the width; right, the v with v * 2^n <= x < (v + 1) * 2^n, for the arithmetic shift of signed numbers; exactly the amounts C does not define have no meaning |
| `Meaning.NegMeans` | jsonPatch_writer/ubpf/vm/ubpf_vm.c:283-397 | Negation: the destination and its old value add up to a multiple of the width |
| `Meaning.EndMeans` | jsonPatch_writer/ubpf/vm/ubpf_vm.c:323-340 | Byte order: to big endian byte k of the result is byte n - 1 - k; to little endian the number is cut |
| `Meaning.InBoundsExactly` | jsonPatch_writer/ubpf/vm/ubpf_vm.c:806-820 | With checking on an access is allowed if and only if every byte of it lies in the context buffer, or every byte in the 512 bytes of the stack |
| `Meaning.LoadMeans` | jsonPatch_writer/ubpf/vm/ubpf_vm.c:432-460 | Loads: exactly the accesses not allowed stop the program with -1; byte k of the destination is the byte at the address plus k, the rest is zero |
| `Meaning.StoreMeans` | jsonPatch_writer/ubpf/vm/ubpf_vm.c:462-494 | Stores: the same refusals; the bytes from the address on become those of the register or sign-extended immediate, and no other byte changes |
| `Meaning.LddwMeans` | jsonPatch_writer/ubpf/vm/ubpf_vm.c:496-498 | The two-slot load: low half from the first slot, high half from the second, and both are passed |
| `Meaning.JumpMeans` | jsonPatch_writer/ubpf/vm/ubpf_vm.c:503-612 | Conditional jumps: taken exactly when the unsigned, signed or bit condition holds of the register and the operand, unsigned orders taking an immediate modulo 2^32 |
| `Meaning.CallMeans` | jsonPatch_writer/ubpf/vm/ubpf_vm.c:616-623 | Calls: the helper at the index gets r1 to r5 and the memory, its result is r0, and 0 from the unwinding helper returns 0 |
| `Meaning.StartMeans` | jsonPatch_writer/ubpf/vm/ubpf_vm.c:186-208 | A run starts at slot 0 with r1, r2 and r10 set and memory as it was |
| `Meaning.RunMeans` | jsonPatch_writer/ubpf/vm/ubpf_vm.c:210-212 | and goes on from where it was by one step at a time until it is over |
| `Meaning.UndefinedExactly` | jsonPatch_writer/ubpf/vm/ubpf_vm.c:210-626 | The steps of an accepted program to which C gives no meaning, in both directions: running off the end, shift amounts out of range, 32-bit divisors whose low half only is zero, allowed accesses to unmapped memory |
| `Meaning.ConstantDivisionDefined` | jsonPatch_writer/ubpf/vm/ubpf_vm.c:776-784 | so a division or remainder by a constant goes through in every accepted program |
| `X86Codec.DecEnc` | jsonPatch_writer/ubpf/vm/ubpf_jit_x86_64.h:126-365 | A decoder of ModR/M and REX prefixes recovers every encodable instruction, whatever follows it |
| `X86Codec.DecodesExactly` | jsonPatch_writer/ubpf/vm/ubpf_jit_x86_64.h:126-365 | exactly: the bytes written decode to the operation and operands they were meant for, consuming exactly them, if and only if the operands are encodable (no base register that needs a SIB byte, displacements in range) |
| `X86Codec.DecEncAll` | jsonPatch_writer/ubpf/vm/ubpf_jit_x86_64.h:126-365 | and a whole sequence of emitted instructions decodes to that sequence |
| `X86.KnownSums` | jsonPatch_writer/ubpf/vm/ubpf_jit_x86_64.h:126-365 | The bytes of one instruction of each form as the architecture defines them, here register operations; `X86.KnownShifts` to `X86.KnownStoreImmediate` have the other forms |
| `X86.KnownConditions` | jsonPatch_writer/ubpf/vm/ubpf_jit_x86_64.h:257-268 | The condition byte of every conditional jump |
| `X86Exec.CmpOrders` | jsonPatch_writer/ubpf/vm/ubpf_jit_x86_64.h:257-268 | The ten condition codes after a comparison order the operands, signed and unsigned, at either width |
| `X86Exec.MultiplyMeans` | jsonPatch_writer/ubpf/vm/ubpf_jit_x86_64.c:518-577 | The multiplication of the machine: both halves of the product |
| `JitX86.JitState.EmitBytes` | jsonPatch_writer/ubpf/vm/ubpf_jit_x86_64.h:79-88 | Appends the bytes and changes no other byte of the buffer; when they do not fit, the buffer is left alone and the offset stays at its end |
| `JitX86.JitState.EmitJumpOffset` | jsonPatch_writer/ubpf/vm/ubpf_jit_x86_64.h:115-124 | Records the place and the target of a jump before its four blank bytes; a full table suppresses both |
| `JitX86.JitState.EmitModRMAndDisplacement` | jsonPatch_writer/ubpf/vm/ubpf_jit_x86_64.h:140-151 | Writes the memory operand in its shortest form: no displacement, one byte or four |
| `JitX86.JitState.EmitLoad` | jsonPatch_writer/ubpf/vm/ubpf_jit_x86_64.h:272-286 | The bytes written are the encoding of the load |
| `JitX86.JitState.EmitStore` | jsonPatch_writer/ubpf/vm/ubpf_jit_x86_64.h:304-315 | The bytes written are the encoding of the store |
| `JitX86.JitState.EmitStoreImm32` | jsonPatch_writer/ubpf/vm/ubpf_jit_x86_64.h:319-334 | The bytes written are the encoding of the store of an immediate |
| `JitX86.JitState.EmitLoadImm` | jsonPatch_writer/ubpf/vm/ubpf_jit_x86_64.h:290-300 | The bytes written are those of the 32-bit sign-extended form if the constant fits it, else of the 64-bit form |
| `JitX86.JitState.EmitStringLoad` | jsonPatch_writer/ubpf/vm/ubpf_jit_x86_64.h:369-382 | Records the string and emits the blank address load |
| `JitX86.JitState.EmitCall` | jsonPatch_writer/ubpf/vm/ubpf_jit_x86_64.h:337-358 | The bytes written load the address and call it |
| `JitX86.JitState.EmitMulDivMod` | jsonPatch_writer/ubpf/vm/ubpf_jit_x86_64.c:518-577 | Emits the multiplication, division or remainder sequence whose effect is stated by the next row, jump to the handler recorded |
| `Blocks.MulDivModRuns` | jsonPatch_writer/ubpf/vm/ubpf_jit_x86_64.c:518-577 | For every choice of source and destination outside RCX and RSP, aliasing included: the destination gets the product, quotient or remainder, all registers but RCX and the stack pointer are restored, a zero divisor goes to the handler, and no divide fault can happen when the tested divisor is not zero |
| `StackDiscipline.CodeLevel` | jsonPatch_writer/ubpf/vm/ubpf_jit_x86_64.c:129-515 | The code of every instruction leaves the stack pointer where it was, at its end and at every jump out of it |
| `StackDiscipline.StackStaysLevel` | jsonPatch_writer/ubpf/vm/ubpf_jit_x86_64.c:133-148 | In every execution of the selected code, block by block, agreeing with the interpreter or not, the stack pointer is the same at each instruction boundary, at each jump to the exit and at each jump to the division handler |
| `StackRestored.BlocksOnMachine` | jsonPatch_writer/ubpf/vm/ubpf_jit_x86_64.c:129-673 | and the machine executing the image bytes comes to every one of these boundaries, at its place, in its state |
| `StackRestored.ExitRestores` | jsonPatch_writer/ubpf/vm/ubpf_jit_x86_64.c:473-489 | so any execution of the image of an accepted program that comes to its exit with the five saved registers still in their slots, whatever else it wrote, returns with the stack pointer and the nonvolatile registers as on entry |
| `StackRestored.HandlerRestores` | jsonPatch_writer/ubpf/vm/ubpf_jit_x86_64.c:491-503 | and one that comes to the division handler returns -1 with them as on entry, if the printer leaves the frame alone |
| `Untouched.TwelveStays` | jsonPatch_writer/ubpf/vm/ubpf_jit_x86_64.c:72-82 | The one nonvolatile register that is not saved, R12, has the same value at every boundary of every block-by-block execution of every program, if callees keep it: no code emitted writes it |
| `Untouched.TwelveKept` | jsonPatch_writer/ubpf/vm/ubpf_jit_x86_64.c:473-503 | nor does prologue, epilogue or division handler |
| `JitX86.JitState.TranslateInst` | jsonPatch_writer/ubpf/vm/ubpf_jit_x86_64.c:150-471 | Emits exactly the code selected for the instruction, or runs out of room |
| `JitX86.JitState.TranslateBody` | jsonPatch_writer/ubpf/vm/ubpf_jit_x86_64.c:150-471 | Emits the code of all instructions in order and notes where each starts; stops at an unknown opcode |
| `JitX86.JitState.Translate` | jsonPatch_writer/ubpf/vm/ubpf_jit_x86_64.c:129-515 | Prologue, program, epilogue, division handler and string table, with their places noted |
| `JitX86.JitState.ResolveJumps` | jsonPatch_writer/ubpf/vm/ubpf_jit_x86_64.c:580-601 | Patches every recorded jump and no other byte |
| `JitX86.JitState.ResolveStrings` | jsonPatch_writer/ubpf/vm/ubpf_jit_x86_64.c:615-625 | Patches every recorded string load and no other byte |
| `Layout.PatchJumpsLink` | jsonPatch_writer/ubpf/vm/ubpf_jit_x86_64.c:580-601 | Back-patching the recorded jumps of blank code gives the code with every displacement leading to its target |
| `Layout.PatchStringsLink` | jsonPatch_writer/ubpf/vm/ubpf_jit_x86_64.c:604-625 | and back-patching the strings gives the finished code |
| `JitX86.UbpfTranslate` | jsonPatch_writer/ubpf/vm/ubpf_jit_x86_64.c:629-673 | For every buffer, its size cut to 32 bits: succeeds exactly when all opcodes are known and the code and both tables have room; then the buffer starts with the finished image, byte for byte |
| `ImageSize.ImageBounded` | jsonPatch_writer/ubpf/vm/ubpf_jit_x86_64.c:580-601 | The image of any program of at most 65536 slots is below 2 GiB, so that every displacement fits its 32 bits |
| `JitInput.AcceptedIsKnown` | jsonPatch_writer/ubpf/vm/ubpf_vm.c:629-803 | The translation of an accepted program never meets an unknown opcode |
| `JitInput.AcceptedIsReadable` | jsonPatch_writer/ubpf/vm/ubpf_vm.c:629-803 | An accepted program satisfies what translation takes for granted: jump targets are slots, two-slot loads have both, helper indices exist |
| `StepSimulation.SimShift` | jsonPatch_writer/ubpf/vm/ubpf_jit_x86_64.c:191-226 | Shifts: code and interpreter agree exactly unless a 32-bit left shift by 32 to 63 loses bits |
| `StepSimulation.SimMov` | jsonPatch_writer/ubpf/vm/ubpf_jit_x86_64.c:214-219 | Moves: they agree exactly unless a 32-bit register move carries high bits along |
| `StepSimulation.SimMulDiv` | jsonPatch_writer/ubpf/vm/ubpf_jit_x86_64.c:518-577 | Multiplication and division: they agree exactly when the operand the code takes gives the same result and the source register is not zero where the code tests it |
| `StepSimulation.SimEnd` | jsonPatch_writer/ubpf/vm/ubpf_jit_x86_64.c:228-244 | Byte order: they agree exactly when a little-endian conversion has nothing to cut off |
| `StepSimulation.SimJump` | jsonPatch_writer/ubpf/vm/ubpf_jit_x86_64.c:319-405 | Conditional jumps: they agree exactly unless a negative immediate of an unsigned comparison separates its two extensions |
| `StepSimulation.SimLoad` | jsonPatch_writer/ubpf/vm/ubpf_jit_x86_64.c:422-433 | Loads of every size and offset agree exactly when the interpreter does not refuse the access; the code has no bounds check |
| `StepSimulation.SimStore` | jsonPatch_writer/ubpf/vm/ubpf_jit_x86_64.c:435-459 | Stores of every size and offset, immediates included, agree exactly when the interpreter does not refuse the access |
| `StepSimulation.SimCall` | jsonPatch_writer/ubpf/vm/ubpf_jit_x86_64.c:407-415 | With registered helpers that keep the registers of r1 to r10, the code of every call does what the interpreter does, the unwinding helper included |
| `StepSimulation.CallEnds` | jsonPatch_writer/ubpf/vm/ubpf_jit_x86_64.c:407-415 | With helpers that may change any set of registers: the code leaves with 0 for a zero result of the unwinding helper, and otherwise goes on with the result in r0, the memory the helper left, and all other registers kept |
| `Calls.ExecuteAlike` | jsonPatch_writer/ubpf/vm/ubpf_vm.c:210-620 | An instruction that uses none of the registers in which two states differ has the same outcome in both but for those registers |
| `Calls.GoesToSuccessor` | jsonPatch_writer/ubpf/vm/ubpf_vm.c:210-620 | In a program that keeps to a convention every step goes to a slot in front of which every register still counts as dead that was dead and not set by the step, or that the step, as a call, may have changed; and the step uses no dead register |
| `Calls.KeepingHelpers` | jsonPatch_writer/ubpf/vm/ubpf_vm.c:96-106 | Every program and every helper table keep to the convention that calls change no register |
| `Calls.NoCallsFollow` | jsonPatch_writer/ubpf/vm/ubpf_vm.c:210-620 | A program without calls keeps to every convention about them |
| `Calls.TwoCallsFollow` | jsonPatch_writer/ubpf/vm/ubpf_vm.c:210-620 | A concrete program with two calls that keeps to the convention of C, in which a call may change r1 to r5 |
| `StepSimulation.Disagreements` | jsonPatch_writer/ubpf/vm/ubpf_jit_x86_64.c:217-228 | One concrete input for each difference between x86-64 code and interpreter, a refused load included |
| `JitCorrect.RefusedLoad` | jsonPatch_writer/ubpf/vm/ubpf_jit_x86_64.c:422-433 | A concrete accepted program whose load the interpreter refuses and the code makes |
| `JitCorrect.StepMatches` | jsonPatch_writer/ubpf/vm/ubpf_jit_x86_64.c:129-515 | For every instruction of an accepted program, registered helpers keeping the registers, the selected code answers the interpreter step, refused accesses included, if and only if the stated condition on operands and address holds; only undefined steps are excepted |
| `JitCorrect.StepAnswers` | jsonPatch_writer/ubpf/vm/ubpf_jit_x86_64.c:129-515 | For programs that keep to a calling convention: every step on which code and interpreter agree is answered, whatever the registers without a useful value hold, calls to helpers that change them included |
| `MachineCode.BlockRuns` | jsonPatch_writer/ubpf/vm/ubpf_jit_x86_64.c:580-673 | Executing the linked bytes of a block does what its symbolic code does, jumps ending at their places |
| `CallFrame.PrologueRuns` | jsonPatch_writer/ubpf/vm/ubpf_jit_x86_64.c:133-148 | The prologue saves the registers, makes the frame, and starts the program as the interpreter starts it |
| `CallFrame.EpilogueRuns` | jsonPatch_writer/ubpf/vm/ubpf_jit_x86_64.c:473-489 | The epilogue returns r0 with the stack pointer and all nonvolatile registers as on entry |
| `CallFrame.HandlerRuns` | jsonPatch_writer/ubpf/vm/ubpf_jit_x86_64.c:491-503 | The division handler calls the error printer once, with the stream, the address of the message and the slot number from RCX in its three argument registers, and leaves through the epilogue with -1 |
| `ImageSize.MessageInImage` | jsonPatch_writer/ubpf/vm/ubpf_jit_x86_64.c:604-625 | and at that address the image holds the message, with its NUL, as its last 39 bytes |
| `JitCorrect.RunOnMachine` | jsonPatch_writer/ubpf/vm/ubpf_jit_x86_64.c:129-673 | Every interpreter run of such a program that ends, with a result or any error, and on which the steps agree is replayed by the machine |
| `JitCorrect.JitPreservesMeaning` | jsonPatch_writer/ubpf/vm/ubpf_jit_x86_64.c:129-673 | Main theorem for x86-64: for every accepted program, every calling convention it keeps to with its helpers, and every machine state with room for the activation, executing the image bytes returns the observable result and memory of the interpreter wherever the steps agree, the division path included, with nonvolatile registers and stack pointer restored. Of external code only the registered helpers need behave as the interpreter's, and may change the registers the convention lets them change; the error printer need only leave the frame and the program's memory alone |
| `A64.DecodeEncode` | jsonPatch_writer/ubpf/vm/ubpf_jit_arm64.c:137-350 | The Arm instruction words decode to the instruction they were meant for, for every format and all operands |
| `A64.KnownWords` | jsonPatch_writer/ubpf/vm/ubpf_jit_arm64.c:137-350 | The word of one instruction of each format as the architecture defines it; the rest in `A64.KnownBranches` to `A64.KnownCalls` |
| `A64Exec.ConditionCodes` | jsonPatch_writer/ubpf/vm/ubpf_jit_arm64.c:268-271 | The condition codes, by number, and the flags they test |
| `A64Simulation.Purposes` | jsonPatch_writer/ubpf/vm/ubpf_jit_arm64.c:72-83 | The registers with a fixed purpose, by number |
| `A64Moves.ConstantLoaded` | jsonPatch_writer/ubpf/vm/ubpf_jit_arm64.c:353-391 | Whatever the register held and whichever start the counts choose, the emitted moves leave exactly the constant, zero-extended in 32-bit mode, and change no other register |
| `A64Moves.SmallConstant` | jsonPatch_writer/ubpf/vm/ubpf_jit_arm64.c:1008-1023 | Any 16-bit constant takes exactly one instruction |
| `A64Patch.BranchLands` | jsonPatch_writer/ubpf/vm/ubpf_jit_arm64.c:405-426 | A patched branch decodes to its intended distance if and only if that is within reach of its kind |
| `A64Patch.AdrLands` | jsonPatch_writer/ubpf/vm/ubpf_jit_arm64.c:393-403 | A patched address decodes to its intended distance if and only if that is not negative: the mask drops the sign |
| `A64Simulation.DivmodLayout` | jsonPatch_writer/ubpf/vm/ubpf_jit_arm64.c:1008-1023 | The hard-coded branch over the handler call lands on the division, for every slot number |
| `A64Simulation.DivmodRuns` | jsonPatch_writer/ubpf/vm/ubpf_jit_arm64.c:1008-1023 | A zero divisor goes to the handler with the slot number in x2; otherwise the destination gets the quotient or remainder and only a temporary changes besides |
| `A64Simulation.SimAlu` | jsonPatch_writer/ubpf/vm/ubpf_jit_arm64.c:807-839 | Arithmetic in register form: code and interpreter agree exactly unless a 32-bit left shift by 32 to 63 loses bits |
| `A64Simulation.SimSimple` | jsonPatch_writer/ubpf/vm/ubpf_jit_arm64.c:801-806 | Additions, subtractions and moves that hold their immediate agree |
| `A64Steps.SimDivision` | jsonPatch_writer/ubpf/vm/ubpf_jit_arm64.c:826-831 | Division and remainder agree in both forms, the zero divisor included |
| `A64Steps.SimNeg` | jsonPatch_writer/ubpf/vm/ubpf_jit_arm64.c:840-843 | A negation agrees exactly when source and destination registers hold the same value at its width: the source is what is read |
| `A64Steps.SimEnd` | jsonPatch_writer/ubpf/vm/ubpf_jit_arm64.c:852-874 | Byte order agrees exactly unless a 32-bit little-endian conversion has high bits to cut off |
| `A64Steps.SimLoad` | jsonPatch_writer/ubpf/vm/ubpf_jit_arm64.c:932-943 | Loads of every size, through either addressing form, agree exactly when the interpreter does not refuse the access |
| `A64Steps.SimStore` | jsonPatch_writer/ubpf/vm/ubpf_jit_arm64.c:922-943 | Stores agree exactly when the interpreter does not refuse the access and no 8-byte store has a negative immediate, which is not sign-extended |
| `A64Steps.SimJump` | jsonPatch_writer/ubpf/vm/ubpf_jit_arm64.c:879-908 | Conditional jumps agree exactly unless a negative immediate of an unsigned comparison separates its two extensions |
| `A64Steps.SimCall` | jsonPatch_writer/ubpf/vm/ubpf_jit_arm64.c:909-915 | With registered helpers that keep the registers of r2 to r10, code and interpreter agree on a call exactly when the result, which lands in the register of r1 too, equals the old r1, or the call unwinds |
| `A64Steps.CallEnds` | jsonPatch_writer/ubpf/vm/ubpf_jit_arm64.c:909-915 | With helpers that may change any set of registers: the code leaves for a zero result of the unwinding helper, and otherwise goes on, with the result in the registers of r0 and r1 and all others kept |
| `A64Steps.Disagreements` | jsonPatch_writer/ubpf/vm/ubpf_jit_arm64.c:842 | One concrete input for each difference between AArch64 code and interpreter, a call and a refused load included |
| `A64Steps.StepMatches` | jsonPatch_writer/ubpf/vm/ubpf_jit_arm64.c:777-1005 | For every instruction of an accepted program, registered helpers keeping r2 to r10, the selected code answers the interpreter step, refused accesses included, if and only if the stated condition holds; only undefined steps are excepted |
| `A64Correct.StepAnswers` | jsonPatch_writer/ubpf/vm/ubpf_jit_arm64.c:777-1005 | For programs that keep to a calling convention: every step on which code and interpreter agree is answered, whatever the registers without a useful value hold; where the convention lets a call change r1, calls always agree |
| `A64Layout.BlockOnMachine` | jsonPatch_writer/ubpf/vm/ubpf_jit_arm64.c:1026-1065 | Executing the finished words of a block does what its symbolic code does, jumps ending at their places |
| `A64Frame.PrologueRuns` | jsonPatch_writer/ubpf/vm/ubpf_jit_arm64.c:438-457 | The prologue lowers the stack pointer, saves ten registers below the program stack, and starts the program as the interpreter starts it |
| `A64Frame.EpilogueRuns` | jsonPatch_writer/ubpf/vm/ubpf_jit_arm64.c:485-502 | The epilogue moves the result and restores the stack pointer and every saved register |
| `A64Frame.HandlerRuns` | jsonPatch_writer/ubpf/vm/ubpf_jit_arm64.c:984-997 | The division handler calls the error printer once, with the stream and the address of the message in x0 and x1 and x2 as the division left it, and goes to the exit with -1 |
| `A64Untouched.FreeKept` | jsonPatch_writer/ubpf/vm/ubpf_jit_arm64.c:72-83 | The registers x18, x27 and x28, which are neither used nor saved, are written by no code emitted, for instructions or around them, so they are as they were wherever a block ends |
| `A64Correct.A64PreservesMeaning` | jsonPatch_writer/ubpf/vm/ubpf_jit_arm64.c:777-1112 | Main theorem for AArch64: for every accepted program, every calling convention it keeps to with its helpers, and every machine state with room for the activation, executing the finished words in a buffer below 1 MiB returns the observable result and memory of the interpreter wherever the steps agree, with the callee-saved registers, the link register and the stack pointer restored. Of external code only the registered helpers need behave as the interpreter's, and may change the registers the convention lets them change; the error printer need only leave the saved registers and the program's memory alone |
| `JitA64.ArmState.EmitBytes` | jsonPatch_writer/ubpf/vm/ubpf_jit_arm64.c:119-129 | Appends the bytes and changes no other byte of the buffer; when they do not fit, the buffer is left alone and the offset stays at its end |
| `JitA64.ArmState.EmitInstruction` | jsonPatch_writer/ubpf/vm/ubpf_jit_arm64.c:131-135 | One more instruction word behind all that was emitted |
| `JitA64.ArmState.EmitBranch` | jsonPatch_writer/ubpf/vm/ubpf_jit_arm64.c:250-283 | A blank branch, with its place and target noted unless the table is full |
| `JitA64.ArmState.EmitStringLoad` | jsonPatch_writer/ubpf/vm/ubpf_jit_arm64.c:460-471 | A blank address load with its place noted; a full table suppresses both |
| `JitA64.ArmState.EmitMovewideImmediate` | jsonPatch_writer/ubpf/vm/ubpf_jit_arm64.c:353-391 | The counting loops emit exactly the moves whose effect is proved |
| `JitA64.ArmState.Divmod` | jsonPatch_writer/ubpf/vm/ubpf_jit_arm64.c:1008-1023 | Emits the division sequence, with the jump to the handler |
| `JitA64.ArmState.TranslateInst` | jsonPatch_writer/ubpf/vm/ubpf_jit_arm64.c:781-976 | Emits exactly the code selected for the instruction, an immediate that does not fit moved to a register first |
| `JitA64.ArmState.TranslateBody` | jsonPatch_writer/ubpf/vm/ubpf_jit_arm64.c:781-976 | Emits the code of all instructions in order and notes where each starts |
| `JitA64.ArmState.ResolveJumps` | jsonPatch_writer/ubpf/vm/ubpf_jit_arm64.c:1026-1043 | Every recorded branch gets its final form; every other word and the string table stay |
| `JitA64.ArmState.ResolveStrings` | jsonPatch_writer/ubpf/vm/ubpf_jit_arm64.c:1057-1065 | Every recorded address load gets its final form; everything else stays |
| `JitA64.UbpfTranslate` | jsonPatch_writer/ubpf/vm/ubpf_jit_arm64.c:1068-1112 | For every buffer, its size cut to 32 bits: succeeds exactly when all opcodes are known and code, strings and both tables have room; then every word of the program is in place in its final form and the string table follows |
| `A64Size.OutputBounded` | jsonPatch_writer/ubpf/vm/ubpf_jit_arm64.c:1068-1112 | The output for any program of at most 65536 slots is below 2 GiB, so that 32-bit offsets never wrap |
| `JitA64.AcceptedEnds` | jsonPatch_writer/ubpf/vm/ubpf_vm.c:667-673 | In an accepted program every byte order conversion names one of the three widths |
| `JsonString.AllocationSuffices` | jsonPatch_writer/cJSON.c:786-877 | For every input, also when an invalid escape makes the two passes disagree about where escapes start, the decoded bytes and the NUL fit the allocation |
| `JsonString.DecodeStep` | jsonPatch_writer/cJSON.c:786-877 | The potential of the two passes: every byte written is paid for by a unit the sizing pass still has in front of it |
| `JsonString.Utf8RoundTrip` | jsonPatch_writer/cJSON.c:712-762 | Every code point written as UTF-8 can be read back, whatever follows |
| `JsonString.EscapeDecodes` | jsonPatch_writer/cJSON.c:773-1021 | Every NUL-free string, printed, is decoded to itself, and the sizing pass stops at its closing quote |
| `JsonMeaning.UnitExactly` | jsonPatch_writer/cJSON.c:615-649 | Four digits in either case spell a code unit, and four bytes that are not all digits give 0: exactly this is what is read |
| `JsonMeaning.Utf8Exactly` | jsonPatch_writer/cJSON.c:712-765 | The bytes written for a code point are its one UTF-8 form |
| `JsonMeaning.SizeExactly` | jsonPatch_writer/cJSON.c:786-810 | The sizing pass ends at the first quote with an even number of backslashes in front of it, if there is one |
| `JsonMeaning.PiecesExactly` | jsonPatch_writer/cJSON.c:828-890 | The decoding pass gives what the characters and escapes stand for: the eight short escapes, code units, surrogate pairs; and it refuses exactly what is none of these |
| `JsonMeaning.StringExactly` | jsonPatch_writer/cJSON.c:773-899 | A string literal means the bytes of its pieces up to the first NUL; no other text is one |
| `JsonRoundTrip.DecimalRoundTrip` | jsonPatch_writer/cJSON.c:305-612 | Every 32-bit number, printed, is read back |
| `JsonRoundTrip.TextParses` | jsonPatch_writer/cJSON.c:1312-1825 | A printed value of bools, numbers, strings, arrays and objects, formatted or not, at any indentation and in any surroundings, parses to itself and the parser stops right behind it |
| `JsonRoundTrip.TooDeep` | jsonPatch_writer/cJSON.c:1446-1449 | A printed value nested too deep is refused |
| `JsonRoundTrip.PrintParse` | jsonPatch_writer/cJSON.c:1095-1825 | Round trip of whole documents, formatted and unformatted, if and only if the value is nested at most 1000 deep; deeper ones are refused |
| `JsonMeaning.NumberExactly` | jsonPatch_writer/cJSON.c:305-379 | A row of digits behind an optional minus sign is its value, kept as text when it is no 32-bit integer; of anything else `strtod` decides; at most 63 characters are looked at |
| `JsonMeaning.ValueExactly` | jsonPatch_writer/cJSON.c:1312-1711 | The parser accepts exactly the values of a declarative grammar, with any bytes up to the blank as white space, and gives the value and the place behind it: nothing about order, look-ahead or recursion of the parser is left to trust |
| `JsonMeaning.DocumentExactly` | jsonPatch_writer/cJSON.c:1064-1172 | and exactly its documents: the byte order mark that is skipped, the white space around the value, and the NUL that must end the text if that is asked for |
| `JsonMeaning.NestingBounded` | jsonPatch_writer/cJSON.c:1446-1449 | Whatever the input, no value is returned that is nested more than 1000 deep |
| `PrintMeaning.ByteMeans` | jsonPatch_writer/cJSON.c:920-1015 | Each byte of a string is printed in one way: a short escape where there is one but for the slash, itself from the blank on, otherwise \u00 and two lower-case digits |
| `PrintMeaning.DecimalMeans` | jsonPatch_writer/cJSON.c:545-612 | A number is printed as its digits, without leading zeros, behind a minus sign exactly when negative |
| `PrintMeaning.FormatMeans` | jsonPatch_writer/cJSON.c:1539-1825 | The unformatted text has no white space outside strings, and the formatted one is that text read once, with a line and its tabs for each member, a tab behind each colon and a blank behind each comma of an array |
| `CJsonParser.ParseBuffer.SkipWhitespace` | jsonPatch_writer/cJSON.c:1038-1061 | Moves to the next byte above 32; at the end of the input it steps back onto the last byte |
| `CJsonParser.ParseBuffer.SkipUtf8Bom` | jsonPatch_writer/cJSON.c:1064-1077 | Skips a byte order mark if more than one byte follows it |
| `CJsonParser.ParseBuffer.SizeString` | jsonPatch_writer/cJSON.c:786-810 | Finds the closing quote and the number of escapes in front of it, or reports that there is none |
| `CJsonParser.ParseBuffer.Utf16LiteralToUtf8` | jsonPatch_writer/cJSON.c:652-770 | Writes the UTF-8 of a literal or a surrogate pair and nothing else, or refuses; which literals those are, in upper and lower case, `JsonMeaning.UnitExactly` and `JsonMeaning.Utf8Exactly` say |
| `CJsonParser.ParseBuffer.WriteUtf8` | jsonPatch_writer/cJSON.c:735-765 | The loop from the last byte to the first writes the encoding |
| `CJsonParser.ParseBuffer.DecodeOne` | jsonPatch_writer/cJSON.c:828-872 | One round of the decoding loop appends exactly what its input stands for |
| `CJsonParser.ParseBuffer.ParseString` | jsonPatch_writer/cJSON.c:773-899 | Gives the string and the place behind it or refuses, and writes only memory it allocated; which string, `JsonMeaning.StringExactly` says |
| `CJsonParser.ParseBuffer.ParseNumber` | jsonPatch_writer/cJSON.c:305-379 | Reads at most 63 number characters and gives the number and the place behind it |
| `CJsonParser.ParseBuffer.ParseValue` | jsonPatch_writer/cJSON.c:1312-1364 | Gives the value of the grammar and the place behind it, or refuses exactly where the grammar does |
| `CJsonParser.ParseBuffer.ParseArray` | jsonPatch_writer/cJSON.c:1441-1536 | The same for arrays, with the nesting limit |
| `CJsonParser.ParseBuffer.ParseObject` | jsonPatch_writer/cJSON.c:1601-1711 | The same for objects, with the nesting limit |
| `CJsonParser.ParseBuffer.Parse` | jsonPatch_writer/cJSON.c:1095-1172 | The same for whole documents; what they mean, `JsonMeaning.DocumentExactly` says |
| `CJson.ParseWithOpts` | jsonPatch_writer/cJSON.c:1095-1172 | Parsing as a caller sees it: it succeeds exactly on the documents of the grammar, with their value |
| `CJsonPrinter.PrintBuffer.Ensure` | jsonPatch_writer/cJSON.c:439-522 | Makes room for what is needed behind the text, keeps the text, says which size the new buffer has, and fails exactly when nothing of that size may be had |
| `CJsonPrinter.PrintBuffer.UpdateOffset` | jsonPatch_writer/cJSON.c:525-535 | Moves the offset to the end of the NUL-terminated text in the buffer |
| `CJsonPrinter.PrintBuffer.PrintNumber` | jsonPatch_writer/cJSON.c:545-612 | Appends the decimal text of a number |
| `CJsonPrinter.PrintBuffer.PrintStringPtr` | jsonPatch_writer/cJSON.c:902-1021 | Appends the quoted and escaped string: the counting pass and the writing pass agree |
| `CJsonPrinter.PrintBuffer.PrintValue` | jsonPatch_writer/cJSON.c:1367-1438 | Appends exactly the text of the value, and fails only for want of room |
| `CJsonPrinter.PrintBuffer.PrintArray` | jsonPatch_writer/cJSON.c:1539-1598 | Appends exactly the text of the array, through growth and recomputed offsets |
| `CJsonPrinter.PrintBuffer.PrintObject` | jsonPatch_writer/cJSON.c:1714-1825 | Appends exactly the text of the object, through growth and recomputed offsets |
| `CJsonPrinter.PrintBuffer.Print` | jsonPatch_writer/cJSON.c:1187-1249 | Leaves the text of the document and its NUL in the buffer |
| `CJson.PrintThenParse` | jsonPatch_writer/cJSON.c:1187-1249 | The printer with its growing buffer and the parser with its cursor give back what was printed, if and only if the nesting limit is kept |
| `CJsonList.Item.AddItemToArray` | jsonPatch_writer/cJSON.c:1956-1987 | Appends to the children and keeps the list: next chain acyclic, prev its inverse, the head's prev the tail |
| `CJsonList.Item.DetachItemViaPointer` | jsonPatch_writer/cJSON.c:2187-2221 | Removes that child and no other, clears its links, and keeps the list |
| `CJsonList.Item.InsertItemInArray` | jsonPatch_writer/cJSON.c:2263-2290 | Inserts before the given position, or appends past the end; a negative position is refused |
| `CJsonList.Item.ReplaceItemViaPointer` | jsonPatch_writer/cJSON.c:2292-2339 | Puts the replacement in the child's place and keeps the list; the replaced item is given up: it has no links and no pointer of the list leads to it when it is deleted |
| `CJsonList.Item.GetArrayItem` | jsonPatch_writer/cJSON.c:1851-1878 | The child at a position, or null outside |
| `CJsonList.EffectMeans` | jsonPatch_writer/cJSON.c:1956-2349 | What each call makes of the list, position by position |
| `CJsonList.PerformAll` | jsonPatch_writer/cJSON.c:1956-2349 | Over any sequence of calls with detached items that no earlier replacement deleted, the children are those of the sequence operations, and the heap invariant holds throughout of the items that are left |
| `Asm.Assemble` | jsonPatch_writer/ubpf/ubpf/assembler.py:123-128 | The output loop gives the concatenation the round trip is about |
| `Asm.Disassemble` | jsonPatch_writer/ubpf/ubpf/disassembler.py:160-168 | The output loop gives the text the round trip is about, or fails on the instruction that raises an exception |
| `AsmMeaning.ImmediateExactly` | jsonPatch_writer/ubpf/ubpf/asm_parser.py:14-18 | An immediate is read exactly where a number is written, with a sign or without, in decimal or hexadecimal digits of either case, and its value is that number |
| `AsmMeaning.MemoryExactly` | jsonPatch_writer/ubpf/ubpf/asm_parser.py:20-21 | A memory operand exactly where a register and possibly a signed offset stand in brackets |
| `AsmMeaning.StatementExactly` | jsonPatch_writer/ubpf/ubpf/asm_parser.py:23-50 | The parser accepts exactly the statements of a declarative grammar: a keyword, white space, and the operands of its operation in their order, with any white space between the pieces |
| `AsmMeaning.ProgramExactly` | jsonPatch_writer/ubpf/ubpf/asm_parser.py:52-55 | and exactly its programs, with semicolons behind any statements |
| `AsmMeaning.AllStatementsStand` | jsonPatch_writer/ubpf/ubpf/assembler.py:72-128 | Reading the assembled code as instructions gives, statement by statement, the operation and registers, the offset modulo 2^16 and the immediate modulo 2^32, or 2^64 over the two slots of lddw |
| `AsmMeaning.TextMeans` | jsonPatch_writer/ubpf/ubpf/assembler.py:123-128 | From text to instructions: every program of the grammar whose registers exist is accepted, and its code is what was written |
| `AsmMeaning.RegistersSpill` | jsonPatch_writer/ubpf/ubpf/assembler.py:72-73 | Register numbers of any size, bit by bit: those of the destination spill into the source |
| `AsmMeaning.LineMeans` | jsonPatch_writer/ubpf/ubpf/disassembler.py:97-158 | For any slot with a known opcode, whatever wrote it, the line shown is a statement of the grammar that says what the slot says |
| `AsmMeaning.RaisesExactly` | jsonPatch_writer/ubpf/ubpf/disassembler.py:97-158 | Where the disassembler raises an exception, and where it shows nothing, in both directions |
| `AsmRoundTrip.LineShown` | jsonPatch_writer/ubpf/ubpf/disassembler.py:97-158 | The line shown for an assembled statement is the statement in canonical form |
| `AsmRoundTrip.LineParses` | jsonPatch_writer/ubpf/ubpf/asm_parser.py:12-50 | The canonical line of every statement parses to that statement |
| `AsmRoundTrip.TextParses` | jsonPatch_writer/ubpf/ubpf/asm_parser.py:52-55 | and a whole program of such lines to the program |
| `AsmRoundTrip.AssembleCanon` | jsonPatch_writer/ubpf/ubpf/assembler.py:72-121 | A statement and its canonical form have the same bytes if and only if the register byte of one without a source register has nothing in its high half |
| `AsmRoundTrip.RoundTrip` | jsonPatch_writer/ubpf/ubpf/disassembler.py:97-168 | For every source text the grammar accepts: the disassembly parses, assembling it gives the same bytes if and only if all statements satisfy the condition of the row above, and the disassembly is a fixed point. What texts mean, the `AsmMeaning` rows say |
| `AsmRoundTrip.SpilledRegister` | jsonPatch_writer/ubpf/ubpf/assembler.py:72-73 | A concrete text for which it fails: "neg r16" assembles to bytes that are shown as "neg r0", which assembles to others |
| `AnonHash.GetHashStrN` | patch/pahole.patch:130-153 | The buffer holds the first hashes in decimal with bars between them, and the name behind the fourth; the assertion fails exactly when that does not fit |
| `AnonHash.TextsWritten` | patch/pahole.patch:130-153 | The five texts of a name, hash by hash |
| `AnonHash.HashTextInjective` | patch/pahole.patch:130-153 | Two hash texts are equal exactly when as many hashes were written and all agree |
| `AnonNames.StringSection.CheckAndAddToCache` | patch/pahole.patch:234-252 | Takes the first unused hash text and marks all texts of the name as used |
| `AnonNames.StringSection.AddAnonyStr` | patch/pahole.patch:254-322 | The in-place operation is the transition all theorems are about, to its answer and final state |
| `AnonNames.StringSection.AddRawStr` | patch/pahole.patch:50-62 | A string that is there keeps its offset, a new one is appended |
| `AnonStable.KnownName` | patch/pahole.patch:268-290 | A known name is found again if and only if all its shorter texts are in the section and the search buffer is large enough |
| `AnonRuns.Reached` | patch/pahole.patch:254-322 | The invariant of every run of additions: what was seen, what was issued and to whom, and where |
| `AnonRuns.StableInjection` | patch/pahole.patch:254-322 | If two hashes tell all names apart, then in every run every call succeeds, answers with the place of its text, and two names get the same answer exactly when they are the same name |
| `AnonRuns.StableExactly` | patch/pahole.patch:268-290 | With names told apart by four hashes only: a later call gets the answer of the first if and only if all shorter texts of the name were issued and the buffer is large enough |
| `AnonRuns.SharedHashesCollide` | patch/pahole.patch:268-290 | A concrete run in which the second of two names is later found at the first one's place |
| `AnonRuns.AbortsExactly` | patch/pahole.patch:288-322 | After any run of additions in which any other strings occur, adding a new name fails if and only if its text, the shortest that no other name has, was added as another string before |
| `AnonRuns.ZeroHashAborts` | patch/pahole.patch:43-47 | The string "0" that stands for ignored names makes the first name fail exactly when its first hash is 0 |
| `PythonText.EncodedIsText` | jsonPatch_writer/gen_patch.py:202-208 | For any characters but NUL, escaping their UTF-8 is escaping them one by one: printable ASCII as it is, all others by \uXXXX units |
| `PythonText.TextDecodes` | jsonPatch_writer/cJSON.c:652-890 | The C parser reads the UTF-8 of any text back from its escapes, surrogate pairs included, and its sizing pass stops at the closing quote |
| `PythonJson.DumpRoundTrip` | jsonPatch_writer/gen_patch.py:202-208 | What `json.dumps` writes with an indent of 4, for any nesting up to 1000 deep of int-valued numbers, texts, arrays and objects, the C parser reads back |
| `PythonMeaning.DumpExactly` | jsonPatch_writer/gen_patch.py:202-208 | and no other: a dump is read back if and only if it is nested at most 1000 deep |
| `PythonMeaning.CharMeans` | jsonPatch_writer/gen_patch.py:202-208 | Each character is written in one way: a short escape where there is one but for the slash, printable ASCII as itself, otherwise one or two code units in lower case |
| `PythonMeaning.DumpMeans` | jsonPatch_writer/gen_patch.py:208 | The dump is a text without white space outside strings in which every entry of a list or dictionary has a line, indented by 4 for each open bracket, and every colon a blank |
| `Payload.Strtok.Next` | jsonPatch_writer/main_test.c:357-362 | The next run of characters that are no delimiters, and the state behind the delimiter that ends it |
| `PayloadMeaning.NextTokenMeans` | jsonPatch_writer/main_test.c:357-362 | The token is the longest run without backslash or x behind any of these, and there is none exactly when only these are left |
| `PayloadMeaning.StrtoulMeans` | jsonPatch_writer/main_test.c:360 | The number of a token in base 16: white space, a sign, a prefix and digits of either case; a sign negates modulo 2^64 and too large a number is the largest |
| `PayloadMeaning.BytesOfTokens` | jsonPatch_writer/main_test.c:357-362 | The bytes are the numbers of the tokens modulo 256, as many as there is room for |
| `Payload.ReadTokens` | jsonPatch_writer/main_test.c:357-362 | The loop fills the array from the tokens; what no token reaches keeps its old contents |
| `Payload.GetObjectItem` | jsonPatch_writer/cJSON.c:1880-1915 | The first member of a name, where case does not matter; `PayloadMeaning.ItemExactly` says which that is |
| `PayloadMeaning.ItemExactly` | jsonPatch_writer/cJSON.c:133-154 | Letters A to Z equal letters a to z and no other bytes are confused; the first such member is found, and nothing exactly when there is none |
| `PayloadMeaning.ValueIntMeans` | jsonPatch_writer/cJSON.c:358-376 | The integer field of an item: the value held inside the range of an int, 1 for true, 0 for the rest |
| `PayloadMeaning.HexTextAt` | jsonPatch_writer/gen_patch.py:28 | The text of each byte: backslash, x and two lower-case digits |
| `PayloadMeaning.UpdateExactly` | jsonPatch_writer/gen_patch.py:202-208 | An entry of the configuration is replaced where its name stands, or added behind all others |
| `Payload.GetEbpfPatch` | jsonPatch_writer/main_test.c:334-366 | The array has the stored length, which is 1 for true and 0 for what is no number, and starts with the bytes of the tokens |
| `Payload.RunEbpf` | jsonPatch_writer/main_test.c:191-225 | Runs what was copied without validating it: the result is the low half of r0 as an int, and -1 after a division by zero or a refused access; the memory is that of the run |
| `Payload.HelperTable` | jsonPatch_writer/main_test.c:270-275 | Helper 1 is the square root, 2 the string comparison, 3 the unwinding helper, and no other number has one |
| `PayloadRoundTrip.TokensOfHex` | jsonPatch_writer/gen_patch.py:28 | Splitting the hexadecimal text at backslashes and x and reading the pieces gives the bytes back, for every byte sequence |
| `PayloadRoundTrip.PayloadRoundTrip` | jsonPatch_writer/main_test.c:334-366 | From any configuration without another spelling of the two names, the loader finds the text and a length of one more, and the tokens are the code |
| `PayloadRoundTrip.OneByteMore` | jsonPatch_writer/main_test.c:200-207 | With the extra byte of the stored length the same instructions are loaded if and only if the code does not end one byte short of a slot |
| `PayloadRoundTrip.CountOneMore` | jsonPatch_writer/main_test.c:200-207 | The 16-bit instruction count is right if and only if moreover the code is not too long for it |
| `PayloadRoundTrip.InstallAndRun` | jsonPatch_writer/main_test.c:334-366 | A program written into a patch document, read back and run gives the result of the interpreter on that program as an int, -1 after an error, and its memory, whatever the uninitialised byte behind it holds |

## Left out

- Fuel: the interpreter loop, the runs and the machines take a number of steps, since runs need not end; the theorems hold for every number.
- Helper functions, `error_printf` and other external code are parameters. A registered helper is a function of its arguments and the program's memory that leaves the frame alone and changes no other register than the convention says; of `error_printf` it is assumed that it leaves the frame and the program's memory alone; of any other code nothing.
- Status flags after instructions other than comparisons are unspecified on x86-64; no selected code reads them.
- The shift of an `int` by 32 or more in the counting loop of `emit_movewide_immediate` is read as a 64-bit mask; the constant loaded does not depend on it.
- `ubpf_set_register_offset`, the Windows calling convention, `DEBUG` register hooks, and the memory mapping of `ubpf_jit.c`.
- `assert` in the emitters is off; AArch64 images of 1 MiB and more, which its branches do not span, are outside the main theorem.
- The negation of the smallest signed value and other signed overflow wraps around.
- Pointers are integers; addresses wrap at 64 bits as the interpreter computes them.
- `ubpf_loader.c`: checks of ELF headers would only add easy members.
- The tree of cJSON items is a value in the parser and printer; the linked nodes, their aliasing and their invariants are modelled in `CJsonList` apart from them.
- Numbers other than 32-bit integers: text that is no plain decimal is handed to a parameter standing for `strtod`; printing `%1.15g` and the locale's decimal point are not modelled.
- Allocation failure, hooks, and the release of memory: what `cJSON_Delete` does to an item is not modelled, only that a replaced item is not used again.
- The read of one byte past the input when a comma ends an object of a text without NUL is modelled as a refusal.
- Object operations by name other than lookup, references, `cJSON_Compare`, `cJSON_Minify`, constructors and type predicates would only add easy members.
- The combinator library behind the grammar is not part of the repository; numbers, keyword ends and white space follow its documented behaviour.
- The four hash functions of `pahole.patch` are parameters, so the results hold for any; the buffer behind the set of seen strings and the section's search table are a set and a map, and their growth arithmetic is not modelled. The raw string operation is shown only in part by the patch and follows libbpf's contract.
- Python strings with NUL, which ends the C string, and with lone surrogates, whose escapes the C parser refuses.
- Payload lengths written with a fraction or an exponent.
- `btf_parser`, the function hooks, the CVE demonstrations, build scripts and test harnesses.
- Payload.GetEbpfPatch: documents without the two members, or whose code is no string, make the original dereference a null pointer, and a negative length makes its allocation fail; the model gives null and says nothing more about them.
