# tail-call-with-unwind, modelled in Dafny

This project models the core of `tail-call-with-unwind`, a small bytecode
virtual machine written in Rust. It has two parts:

- **The converter** (`convert`) reads a list of source instructions: `LOAD`,
  `ADD`, `JMPNE`, `PRINT` and `RET`. It writes them into one packed byte
  buffer. Each internal instruction is an opcode byte (0..5) followed by the
  bytes of its `#[repr(packed)]` fields. Every `JMPNE` becomes an
  `OpUnwindIfNeeded { depth }` followed by an `OpJmpNE` whose target is a
  signed 16-bit byte displacement back to an earlier instruction.
- **The engine** executes such a buffer. `RunOne` is the effect of one
  instruction on 256 `u32` registers. `RunUncheckedVisitor` chains
  instructions by direct threading until one returns. `vm_loop` is a
  trampoline: when `OpUnwindIfNeeded` has pushed the depth counter past
  `STACK_DEPTH_LIMIT` (500), the chain unwinds. The loop then starts a fresh
  chain at the next instruction, with the counter back at 0 and the
  registers kept.

The files:

- `wrappers.dfy`: `Option` and `Result`.
- `packed.dfy`: the little-endian bytes of `u16`, `i16` and `u32` fields.
- `instruction.dfy`: opcodes, instructions, `encode` (with a `Vec<u8>`
  modelled as the class `ByteVec`) and decoding at an offset.
- `program.dfy`: a buffer of instructions laid back to back, its parse, the
  two next-pc operations, well-formedness and the disassembly walk.
- `engine.dfy`: the step function, the chain, the trampoline, and a reference
  interpreter without a depth counter. It also has the imperative `RunOne`,
  `RunUnchecked` and `VmLoop`, which work on an `array<u32>` register file.
- `convert.dfy`: the converter, specified by the pure `Translate` and run by
  the imperative `Convert`.
- `example.dfy`: the counting program of `main.rs`.

Main results:

- Decoding at the offset where an instruction was encoded gives it back.
- Parsing a laid-out buffer gives back its instruction list, and the
  converse also holds.
- `Convert` produces exactly `Translate`'s bytes or its first error.
- `Translate` succeeds exactly under the converter's checks, and every
  program it produces is well formed.
- A well-formed program never decodes outside its instructions.
- The trampoline is invisible: `vm_loop` computes and prints what the plain
  interpreter computes and prints.
- The depth counter bounds every chain. In a program `Translate` produces,
  control reaches a branch only through its unwind check. So a chain of
  directly threaded steps returns to the trampoline within
  `(STACK_DEPTH_LIMIT + 3) * (n + 1)` steps for `n` instructions, however
  often the program's loops run.
- `VmLoop` and `RunUnchecked` compute what those functions say.

Paths in the table are relative to the repository root. Elsewhere,
`convert.rs` and `internal_instruction.rs` are the files of that name under
`Rust/tail-call-with-unwind/src/`.

## Model

| member | source | states |
|---|---|---|
| Packed.DecodeEncodeU16 | Rust/tail-call-with-unwind/src/internal_instruction.rs:152-155 | reading the two bytes of a packed `u16` field (`depth`) gives the value back |
| Packed.EncodeDecodeU16 | Rust/tail-call-with-unwind/src/internal_instruction.rs:152-155 | any two bytes are the encoding of the `u16` they are read as |
| Packed.DecodeEncodeI16 | Rust/tail-call-with-unwind/src/internal_instruction.rs:141-145 | the two's-complement bytes of the `i16` branch target read back as the target |
| Packed.EncodeDecodeI16 | Rust/tail-call-with-unwind/src/internal_instruction.rs:141-145 | any two bytes are the encoding of the `i16` they are read as |
| Packed.DecodeEncodeU32 | Rust/tail-call-with-unwind/src/internal_instruction.rs:131-135 | the four little-endian bytes of the `u32` immediate read back as the immediate |
| Packed.EncodeDecodeU32 | Rust/tail-call-with-unwind/src/internal_instruction.rs:131-135 | any four bytes are the encoding of the `u32` they are read as |
| Instruction.OpcodeOfByte | Rust/tail-call-with-unwind/src/internal_instruction.rs:16-20 | a byte is an opcode exactly when it is below 6, and the opcode read is the one whose discriminant is that byte |
| Instruction.Payload | Rust/tail-call-with-unwind/src/internal_instruction.rs:129-157 | the packed fields take 5, 3, 4, 1, 0 and 2 bytes for the six variants |
| Instruction.Encode | Rust/tail-call-with-unwind/src/internal_instruction.rs:44-48 | an encoding is one opcode byte, the variant's discriminant, followed by the payload, `Size()` bytes in all |
| Instruction.DecodeFields | Rust/tail-call-with-unwind/src/internal_instruction.rs:25-27 | the fields read for an opcode form an instruction of that opcode |
| Instruction.Decode | Rust/tail-call-with-unwind/src/internal_instruction.rs:173-178 | an instruction decoded at `pc` lies inside the buffer, and its opcode is the byte at `pc` |
| Instruction.DecodeFieldsOfPayload | Rust/tail-call-with-unwind/src/internal_instruction.rs:25-27 | fields read from an instruction's packed payload are that instruction's fields |
| Instruction.PayloadOfDecodeFields | Rust/tail-call-with-unwind/src/internal_instruction.rs:25-27 | the payload of fields read from some bytes is those bytes |
| Instruction.DecodeEncode | Rust/tail-call-with-unwind/src/internal_instruction.rs:44-48 | decoding at the old length after `encode`, whatever follows, gives back the encoded instruction |
| Instruction.EncodeDecode | Rust/tail-call-with-unwind/src/internal_instruction.rs:173-178 | the bytes an instruction is decoded from are exactly its encoding |
| Instruction.ByteVec.constructor | Rust/tail-call-with-unwind/src/convert.rs:12 | a new buffer is empty |
| Instruction.ByteVec.Push | Rust/tail-call-with-unwind/src/internal_instruction.rs:45 | pushing appends exactly one byte |
| Instruction.ByteVec.ExtendFromSlice | Rust/tail-call-with-unwind/src/internal_instruction.rs:46-47 | extending appends exactly the slice |
| Instruction.EncodeInto | Rust/tail-call-with-unwind/src/internal_instruction.rs:44-48 | `encode` appends the instruction's encoding, so the buffer grows by its size and earlier bytes are unchanged |
| Program.EncodeAll | Rust/tail-call-with-unwind/src/convert.rs:19-70 | a laid-out program takes the sum of its instructions' sizes |
| Program.IsStartOffset | Rust/tail-call-with-unwind/src/internal_instruction.rs:63-67 | the offset reached by stepping over instructions `0..k` is an instruction start |
| Program.StartIndex | Rust/tail-call-with-unwind/src/internal_instruction.rs:316-321 | every instruction start is the offset of some instruction index |
| Program.DecodeAtOffset | Rust/tail-call-with-unwind/src/internal_instruction.rs:173-178 | in a laid-out program, decoding at the offset of instruction `k` gives instruction `k` |
| Program.OffsetNext | Rust/tail-call-with-unwind/src/internal_instruction.rs:63-67 | instruction `k + 1` starts where instruction `k` ends, and the last one ends at the end of the buffer |
| Program.ParseEncodeAll | Rust/tail-call-with-unwind/src/internal_instruction.rs:196-211 | parsing a laid-out program gives back its instructions |
| Program.EncodeAllParse | Rust/tail-call-with-unwind/src/internal_instruction.rs:196-211 | a buffer that parses is exactly the layout of what it parses to |
| Program.NextPcUnchecked | Rust/tail-call-with-unwind/src/internal_instruction.rs:63-67 | the unchecked next-pc of an instruction lies strictly after it and no further than the end of the buffer |
| Program.NextPcChecked | Rust/tail-call-with-unwind/src/internal_instruction.rs:79-89 | the checked next-pc is `None` exactly when the instruction ends at the end of the buffer, and otherwise an offset after it still inside the buffer |
| Program.NextPcWalk | Rust/tail-call-with-unwind/src/internal_instruction.rs:79-89 | at instruction `k` the unchecked next-pc is the start of instruction `k + 1` (or the end), and the checked one is `None` exactly after the last instruction |
| Program.Successors | Rust/tail-call-with-unwind/src/internal_instruction.rs:180-184 | in a well-formed program every instruction but the final `OpRet` has a successor, and every branch lands on an instruction start |
| Program.StartFlows | Rust/tail-call-with-unwind/src/internal_instruction.rs:114-119 | in a well-formed program each instruction hands control only to instruction starts |
| Program.WellFormedClosed | Rust/tail-call-with-unwind/src/internal_instruction.rs:57 | the instruction starts of a well-formed program contain 0 and are closed under control flow |
| Program.Disassemble | Rust/tail-call-with-unwind/src/internal_instruction.rs:196-211 | the walk from offset 0 lists every instruction once, in order, with the offset it starts at, and stops at the end |
| Engine.WrappingAdd | Rust/tail-call-with-unwind/src/internal_instruction.rs:301-302 | a sum that fits in `u32` is kept; a sum that overflows loses exactly 2^32, as a release build's `u32` addition does |
| Engine.Exec | Rust/tail-call-with-unwind/src/internal_instruction.rs:262-394 | a step branches only at `OpJmpNE`, to `pc + target`; it returns `Done` exactly at `OpRet`; it unwinds only at `OpUnwindIfNeeded`, to the next instruction, once the counter passes 500 |
| Engine.ExecEffects | Rust/tail-call-with-unwind/src/internal_instruction.rs:267-393 | `LOAD` and `ADD` write only their result register, with `imm` and the wrapped sum; `PRINT` only emits `memory[input]`; `JMPNE` branches exactly when its registers differ; `UnwindIfNeeded` adds `depth` and goes on exactly while the counter stays at or below 500 |
| Engine.Segment | Rust/tail-call-with-unwind/src/internal_instruction.rs:107-124 | a chain that returns has used up some fuel |
| Engine.SegmentStep | Rust/tail-call-with-unwind/src/internal_instruction.rs:114-119 | a chain is one step followed by the rest of the chain at the branch target or the next instruction |
| Engine.InterpStep | Rust/tail-call-with-unwind/src/internal_instruction.rs:384-392 | an unwind resumes exactly where continuing would have, so one reference step is `RunOne`'s effect whatever the counter |
| Engine.SegmentGrows | Rust/tail-call-with-unwind/src/internal_instruction.rs:350-362 | a chain only appends to the printed output: `PRINT` is the one instruction that writes it |
| Engine.Trampoline | Rust/tail-call-with-unwind/src/internal_instruction.rs:400-415 | a finished trampoline run has only appended to the output it started with |
| Engine.Resume | Rust/tail-call-with-unwind/src/internal_instruction.rs:405-413 | the trampoline finishes only after a chain that returned, and keeps what that chain printed |
| Engine.Run | Rust/tail-call-with-unwind/src/internal_instruction.rs:400-415 | a finished program run has only appended to the output |
| Engine.ResumeStep | Rust/tail-call-with-unwind/src/internal_instruction.rs:400-415 | the trampoline after a chain is one step followed by the trampoline after the rest |
| Engine.SegmentThenTrampoline | Rust/tail-call-with-unwind/src/internal_instruction.rs:400-415 | a chain started with any counter, then the trampoline, computes what the reference interpreter computes |
| Engine.AfterAgree | Rust/tail-call-with-unwind/src/internal_instruction.rs:400-415 | whichever way one step ends (return, unwind, branch or fall-through), the trampoline and the reference interpreter agree from where it leads |
| Engine.TrampolineTransparent | Rust/tail-call-with-unwind/src/internal_instruction.rs:400-415 | `vm_loop`'s unwinding and counter resets never change what a program computes or prints |
| Engine.InterpNeverFaults | Rust/tail-call-with-unwind/src/internal_instruction.rs:180-184 | from a set of offsets closed under control flow, the reference run never decodes outside an instruction |
| Engine.SegmentNeverFaults | Rust/tail-call-with-unwind/src/internal_instruction.rs:384-386 | from such a set a chain never faults, and an unwind resumes at one of its offsets |
| Engine.RunNeverFaults | Rust/tail-call-with-unwind/src/internal_instruction.rs:400-415 | running a well-formed program from offset 0 never faults |
| Engine.GuardedStep | Rust/tail-call-with-unwind/src/internal_instruction.rs:384-393 | in a guarded program a step that does not return goes on at another instruction, with the counter still at most `STACK_DEPTH_LIMIT` and a lower potential (room left under the limit weighs more than the position) |
| Engine.ChainStep | Rust/tail-call-with-unwind/src/internal_instruction.rs:384-393 | one step of a chain through a guarded program either returns, using one unit of fuel, or continues from another instruction with a lower potential |
| Engine.ChainReturns | Rust/tail-call-with-unwind/src/internal_instruction.rs:384-393 | a chain from any instruction of a guarded program, started with the counter within the limit, returns to the trampoline within its potential plus one steps |
| Engine.ChainBounded | Rust/tail-call-with-unwind/src/internal_instruction.rs:3 | every chain through a guarded program of `n` instructions returns within `(STACK_DEPTH_LIMIT + 3) * (n + 1)` steps, however often its loops run: the bound on directly threaded steps between trampoline resumes |
| Engine.RunState.constructor | Rust/tail-call-with-unwind/src/internal_instruction.rs:406-409 | a fresh run state has depth counter 0 |
| Engine.Stdout.PrintLine | Rust/tail-call-with-unwind/src/internal_instruction.rs:360 | printing appends the value to the output |
| Engine.RunOne | Rust/tail-call-with-unwind/src/internal_instruction.rs:262-394 | the registers, the counter and the output after the step, and its result, are those of `Exec` |
| Engine.RunUnchecked | Rust/tail-call-with-unwind/src/internal_instruction.rs:102-125 | the in-place chain ends in the state, and with the result, that `Segment` gives |
| Engine.VmLoop | Rust/tail-call-with-unwind/src/internal_instruction.rs:400-415 | on a well-formed program, `vm_loop` never faults, finishes exactly when `Run` does, and then has printed what `Run` prints |
| Convert.Narrow | Rust/tail-call-with-unwind/src/convert.rs:24 | `as u8` leaves an operand in 0..255 unchanged, adds 256 to one in -256..-1, and always differs from the operand by a multiple of 256 |
| Convert.Offsets | Rust/tail-call-with-unwind/src/convert.rs:20 | after `n` instructions, `byte_offsets` has `n` entries |
| Convert.Convert | Rust/tail-call-with-unwind/src/convert.rs:11-72 | `convert` returns the layout of `Translate`'s instructions when it succeeds, and its error otherwise; a success is well formed and as long as the source sizes add up to |
| Convert.EncodeBranch | Rust/tail-call-with-unwind/src/convert.rs:36-58 | the `JMPNE` arm fails exactly when lowering the instruction fails, with the same error, and otherwise appends the encodings of the unwind check and the branch |
| Convert.BranchLowered | Rust/tail-call-with-unwind/src/convert.rs:36-58 | a `JMPNE` that passes the checks lowers to `OpUnwindIfNeeded{index + 1}` and an `OpJmpNE` with the narrowed registers and the displacement |
| Convert.OffsetsNext | Rust/tail-call-with-unwind/src/convert.rs:20 | recording `bytes.len()` extends `byte_offsets` by the next instruction's offset |
| Convert.FailsAt | Rust/tail-call-with-unwind/src/convert.rs:19-59 | once instruction `n` fails after the earlier ones succeeded, the conversion fails with its error |
| Convert.Lower | Rust/tail-call-with-unwind/src/convert.rs:36-58 | only a `JMPNE` can fail to lower, and its error names that instruction's index |
| Convert.LowerPrefix | Rust/tail-call-with-unwind/src/convert.rs:19-70 | a failing prefix reports a `JMPNE` inside the prefix by its index |
| Convert.Translate | Rust/tail-call-with-unwind/src/convert.rs:11-72 | `EmptyProgram` is reported exactly for an empty program and `LastNotRet` exactly for a non-empty one not ending in `RET` |
| Convert.PrefixNext | Rust/tail-call-with-unwind/src/convert.rs:19-69 | converting one more instruction appends its instructions, its bytes and its size |
| Convert.LowerShape | Rust/tail-call-with-unwind/src/convert.rs:21-68 | one source instruction becomes one internal instruction (two for `JMPNE`) taking 6, 4, 8, 2 or 1 bytes |
| Convert.LowerEncoding | Rust/tail-call-with-unwind/src/convert.rs:36-58 | the bytes of a lowered instruction are its encodings in order |
| Convert.PrefixErr | Rust/tail-call-with-unwind/src/convert.rs:19-59 | after the first failing instruction every longer prefix fails with its error |
| Convert.LowerOk | Rust/tail-call-with-unwind/src/convert.rs:36-53 | an instruction lowers exactly when, if it is a `JMPNE`, all its checks pass |
| Convert.PrefixOk | Rust/tail-call-with-unwind/src/convert.rs:19-70 | a prefix converts exactly when each of its instructions lowers |
| Convert.TranslateOk | Rust/tail-call-with-unwind/src/convert.rs:14-53 | conversion succeeds exactly when the program is non-empty, ends in `RET`, and every `JMPNE` has a depth that fits `u16` and a non-negative, in-bounds, backward target whose displacement fits `i16` |
| Convert.TranslateFirstError | Rust/tail-call-with-unwind/src/convert.rs:36-53 | a failing conversion reports the first failing instruction, a `JMPNE`, by its index |
| Convert.PrefixSize | Rust/tail-call-with-unwind/src/convert.rs:20 | the first `n` source instructions yield `InsnIndex(n)` instructions taking `byte_offsets[n]` bytes |
| Convert.PrefixOfPrefix | Rust/tail-call-with-unwind/src/convert.rs:19-70 | the conversion of a prefix is a prefix of the conversion |
| Convert.TranslateLayout | Rust/tail-call-with-unwind/src/convert.rs:20 | in the output, source instruction `j` starts at byte `byte_offsets[j]` and is lowered in place |
| Convert.TranslateSize | Rust/tail-call-with-unwind/src/convert.rs:71 | the output length is the total of the source sizes |
| Convert.TranslateBranch | Rust/tail-call-with-unwind/src/convert.rs:36-58 | every output branch follows `OpUnwindIfNeeded{j + 1}` for its source index `j`, goes back at least 3 bytes, and lands on the start of its target's instructions |
| Convert.TranslateUnwind | Rust/tail-call-with-unwind/src/convert.rs:36-58 | every output `OpUnwindIfNeeded` is followed by its `OpJmpNE`, so its unchecked next-pc stays in bounds |
| Convert.TranslateWellFormed | Rust/tail-call-with-unwind/src/convert.rs:14-18 | every successful conversion is a well-formed program: it parses, ends in `OpRet`, and every branch lands on an instruction start |
| Convert.BranchGuarded | Rust/tail-call-with-unwind/src/convert.rs:36-58 | each output `OpJmpNE` comes straight after an unwind check of depth `j + 1 >= 1` and lands on an instruction that is not an `OpJmpNE` |
| Convert.TranslateGuarded | Rust/tail-call-with-unwind/src/convert.rs:36-58 | every successful conversion is guarded: it ends in `OpRet`, and control reaches each `OpJmpNE` only through its unwind check |
| Example.CountToConverts | Rust/tail-call-with-unwind/src/main.rs:16-27 | the counting program converts to three loads, the add, `OpUnwindIfNeeded{5}`, `OpJmpNE{r0, r2, -7}`, the print and `OpRet` |
| Example.CountToLayout | Rust/tail-call-with-unwind/src/main.rs:16-27 | the converted program is 33 bytes, with the loop at 18, the unwind check at 22, the branch at 25 jumping back to 18, the print at 30 and `RET` at 32 |
| Example.InitDecodes | Rust/tail-call-with-unwind/src/main.rs:16-27 | the three loads sit at offsets 0, 6 and 12 |
| Example.LoopDecodes | Rust/tail-call-with-unwind/src/main.rs:16-27 | the loop and exit instructions sit at offsets 18, 22, 25, 30 and 32 |
| Example.LoopBody | Rust/tail-call-with-unwind/src/main.rs:21-23 | one pass of the loop adds register 1 to register 0 and reaches the branch |
| Example.LoopBranch | Rust/tail-call-with-unwind/src/main.rs:23-26 | the branch loops while registers 0 and 2 differ, and otherwise prints register 0 and returns |
| Example.CountLoop | Rust/tail-call-with-unwind/src/main.rs:21-26 | entered below `n`, the loop counts register 0 up to `n`, prints it once and returns |
| Example.CountToPrints | Rust/tail-call-with-unwind/src/main.rs:32 | with `n >= 1` and enough fuel, running the converted program prints `n` and finishes (debug builds use `n = 2`) |
| Example.CountToChainsBounded | Rust/tail-call-with-unwind/src/main.rs:32 | for every `n`, including `0xfffff`, each chain of the converted counting program returns to the trampoline within `ChainBound(8)` steps |

## Left out

- Output formatting is not modelled. This covers the debug-build trace
  `println!`s, `DisplayPc`'s hex format, the `fmt::Formatter` plumbing and
  the stray `print!` at internal_instruction.rs:201. They write text only.
  `PRINT` is modelled as a value appended to `Stdout.printed`.
- The native stack is not modelled. This covers tail-call elimination,
  `#[inline(always)]`/`#[cold]` and `force_use_stack`, which cannot be
  expressed in Dafny. What stays is the depth counter and the trampoline.
  `RunUnchecked` recurses where the source tail-calls. The bound on the
  native stack appears as Engine.ChainBounded's bound on the number of
  steps in one chain.
- Engine.Segment: a bound on the number of trampoline resumes (such as at most `k + 1` for a loop whose branch is taken `k` times) is not proved. The model proves only the bound on each chain's length (Engine.ChainBounded).
- The `VisitArray` function-pointer tables, the `instructions!` macro and
  `PhantomData` are replaced by a datatype and `match`.
- `NonNull`, `transmute` and `get_unchecked` are replaced by offsets into
  `seq<u8>`. Decoding an invalid opcode or past the end is undefined
  behaviour in the source. Here it is `None`, and `Fault` in a run.
- Engine.Exec: `ADD` wraps modulo 2^32, as a release build does; a debug build panics on overflow instead.
- Engine.Segment: every run carries fuel instead of looping without bound, so a program that never reaches `RET` ends in `OutOfFuel`; `decreases *` is not used.
- Engine.VmLoop: it requires a well-formed program, a precondition the source leaves to `convert`'s output through `new_unchecked`. It reports `false` when the fuel runs out.
- Convert.Convert: a panic in the source (`unwrap`, `assert!`, `todo!`, `expect`) is an `Err` here. On an error the partly filled buffer is dropped.
- The `bytecode` module is not part of this model: its word layout and the widths of `get_operand_*`. A source instruction is the datatype `Bytecode`, with integer register operands that `Narrow` truncates and a `u32` immediate.
- Multi-byte fields are fixed to little-endian. The source uses the target's native order.
- The `usize`-to-`i128` conversions at convert.rs:51-52 are exact here: integers are unbounded, and a buffer offset always fits `i128`.
- The branch displacement is measured from the `OpJmpNE`'s own opcode
  byte, which follows the 3-byte unwind check: convert.rs:51-52 reads
  `bytes.len()` after the check is encoded, and the interpreter adds the
  displacement to that same pc (internal_instruction.rs:318). Every
  displacement is therefore at most -3.
- `RunState.internal_program` is used only by the debug traces. The model
  keeps it but never reads it.
- `main.rs` timing and `benches/` are left out. `main.rs` serves only as the
  source of the example program. For `n = 0` that program counts through
  2^32 wrapped additions before printing. Example.CountToPrints covers only
  `n >= 1`.
