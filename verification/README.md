# DOSRecomp: a verified model of the recompiler core

DOSRecomp reads a DOS program, recovers its control flow, and writes a Linux executable. This project
models its hard parts in Dafny and proves what they are for. `dafny verify dfyconfig.toml` checks
everything.

**Executables** (`X86`, `ElfImage`, `ElfWriter`, `ElfExecution`). The writers fill a zeroed array in place
as the source does, and each is proved to leave `Image(actions, exit code)`. An interpreter for the
emitted x86-64 forms loads that image from its own ELF headers and runs it against an arbitrary kernel,
which chooses every result and every byte a read stores. The run performs exactly the listed system calls
and then exits. The image is also shown to be its header, blocks and payloads laid end to end.

**Code analysis** (`InstructionDecoder`, `Assembler8086`, `Disassembler`, `Listing`, `Rejections`, `DecoderWindow`,
`ControlFlow`, `CfgBuilder`, `ControlFlowIr`, `LoopRecovery`, `FunctionRecovery`, `ImageAnalysis`, `ProgramGraph`). A
reference assembler covers every opcode the decoder takes. Decoding succeeds exactly where prefix bytes and an
assembled instruction stand, gives exactly that instruction, and each of its errors has its exact condition.
The graph theory is proved over any decoder that meets a small contract, which the 8086 decoder does. The
builder succeeds exactly when all reachable code is fine; its graph is unique, covers exactly the reachable
instructions, is lowered with all its paths, and both recoveries work on it without error. `ProgramGraph`
states flow, starts, conditions, loops, functions and call sites over the lines of the program text.

**SSA** (`RegisterSsa`, `ConstantPropagation`, `DeadValues`, `CompareFlags`). `Eval` gives every table
entry its value in one execution: a choice of all undetermined values and of the input each phi takes.
Propagation, liveness and flag resolution are proved against it.

**Memory and loading** (`ConventionalMemory`, `RealModeMemory`, `BinaryLoader`, `MzEncoding`,
`Relocation`, `Int13`). The paragraph allocator, with a block list that depends on the live allocations
alone; MZ parsing against an encoder; the algebra of relocation; CHS addressing.

**Generated loops and the stack** (`StringLoops`, `StringTheorems`, `StringRings`, `StringComparisons`,
`InstructionTranslator`, `RegisterLoads`, `StackDiscipline`, `StackTheorems`, `StackSsa`). The string loops of
emitted programs, loads of every register, and well-bracketed machine code with PUSH, POP and loads, decoded by
the decoder and run by the translator.

`Words` holds fixed-width integers, little-endian bytes and bit-wise operations; `Outcome` holds `Option`
and `Result`. Error strings are enumeration values.

## Where the code differs from its documentation or from an 8086

The model follows the code.

- `include/dosrecomp/backend/elf_writer.hpp:69-73` says the descriptor of an open is threaded into the next
  action. The next block overwrites RDI, so every call uses its literal descriptor: the trace in
  `ElfExecution.ImageRuns` is the same for every kernel.
- F2h and F3h are always taken as prefixes, so `src/decoder/instruction_decoder.cpp:180-191` is never
  reached and no instruction is marked REPE (`DecoderWindow.DecodedBounds`). What that does to each of the
  four repeated comparisons is `StringComparisons.RepIsRepeIff`.
- An indirect jump or call is decoded with distance 0, so the graph takes it to go to the address behind it
  (`ProgramGraph.LineFlow`), and such a call makes that address a function (`ProgramGraph.EntriesAre`).
- XCHG with a ModR/M byte is decoded as ADD (`Assembler8086.ExchangeIsAdd`).
- An indirect call or jump with a displacement reads its operand one byte late.
  `DecoderWindow.WindowStableIff` shows that this is the only exception to the window theorem. A read past
  the end of the code, undefined in the source, gives `PAST_END` here.
- `resolve_constant` follows first inputs to a leaf and forgets every operation and phi on the way
  (`CompareFlags.ResolvesToLeaf`). Where the table determines a value, through any nesting, copies and phis,
  it is right exactly when the leaf is determined to be the same (`CompareFlags.ResolvedIffDetermined`; for
  one operation and one phi `NestedOperation` and `FirstPhiInput`). For a value that takes every word it is
  never right (`CompareFlags.VaryingNeverRight`). Five tables show how it fails.
- When the operands of a comparison do not resolve, all flags are clear, and the same seven conditions hold
  whatever is compared (`CompareFlags.UnresolvedConditions`).
- Constant propagation refuses operations that have not two inputs, which the builder makes when asked to
  (`ConstantPropagation.PropagationFailsIff`), and it follows no copies: it records exactly what the table
  determines without them (`ConstantPropagation.PropagationExact`).
- For a MOV to memory the translator defines the register `count`
  (`src/semantics/instruction_translator.cpp:243`), and the builder then writes behind the state array. The
  value is appended in the model; what the state is afterwards is left open (`RegisterSsa.Builder.Define`).
- Comparing clears the direction flag before the pointers move (`StringComparisons.ComparesIgnoreDirection`).
- The generated memory array has 100000 bytes, not 100000h: the size is printed in hexadecimal without a
  prefix (`src/compiler/branching_compiler.cpp:72`).
- A one-page MZ file whose last page is written as full by 0 is rejected; every longer one is accepted
  (`MzEncoding.RoundTrip`).
- The loader checks the offset of the entry point and not its segment (`MzEncoding.EntrySegmentUnchecked`).
  The entry lies in the module exactly when the header words say so (`BinaryLoader.EntryInsideIff`); an
  entry outside is found by the graph builder (`ImageAnalysis.AnalyseFile`).
- Relocation words that overlap make relocating twice differ from relocating once
  (`Relocation.AdditiveIff`), except that one of them may be listed 256 times (`Relocation.OverlapOf256Adds`).
- A read of several sectors is checked against the geometry at its first sector only (`Int13.OneByOneIff`).
- PUSH and POP behind a prefix are refused (`RegisterLoads.StackLinesIff`).
- Storing a word leaves its byte halves stale (`InstructionTranslator.WordStoreCoherentIff`).
- POP updates SP among the concrete registers but not in the SSA table, which keeps the SP of the last PUSH.
  POP SP discards the word among the concrete registers and gives it to SP in the table. After a bracketed
  program the table's SP is right exactly when the last constant SP was given is SP itself
  (`StackSsa.SpConstantRightIff`).

## Model

| member | source | states |
|---|---|---|
| X86.DecodeEncode | src/backend/elf_writer.cpp:73-83 | the interpreter's decoder recovers every emitted instruction form, whatever bytes follow it |
| X86.RunStraight | src/backend/elf_writer.cpp:73-83 | a machine whose code holds a run of instructions executes all of them |
| ElfWriter.EmitElfHeader | src/backend/elf_writer.cpp:55-66 | field by field, the zeroed array gets exactly the bytes of an ELF64 header and one R+X program header for the whole file |
| ElfWriter.EmitWriteBlock | src/backend/elf_writer.cpp:68-86 | the array becomes the old one with the assembled write block and the payload patched in |
| ElfWriter.EmitReadBlock | src/backend/elf_writer.cpp:97-114 | the array becomes the old one with the assembled read block patched in |
| ElfWriter.EmitOpenBlock | src/backend/elf_writer.cpp:154-171 | code, path and its NUL are patched in, and nothing else changes |
| ElfWriter.EmitCloseBlock | src/backend/elf_writer.cpp:173-183 | the array becomes the old one with the assembled close block patched in |
| ElfWriter.EmitFdMove | src/backend/elf_writer.cpp:185-190 | the three bytes of the move after an open are patched in |
| ElfWriter.OpenBytes | src/backend/elf_writer.cpp:157-167 | the 24 bytes written by hand are the assembly of an open with its RIP-relative path |
| ElfWriter.TransferBytes | src/backend/elf_writer.cpp:73-83 | the 24 bytes written by hand are the assembly of a write or read with its RIP-relative payload |
| ElfWriter.ProgramSizes | src/backend/elf_writer.cpp:217-223 | the sizing loop finds the code and the payload size of the action list |
| ElfWriter.EmitActionProgram | src/backend/elf_writer.cpp:215-262 | the array filled in place is the specified image of the actions and the exit code |
| ElfWriter.EmitSyscallProgram | src/backend/elf_writer.cpp:117-147 | writes then reads give byte for byte the image of the corresponding action list |
| ElfWriter.EmitMultiWriteExit | src/backend/elf_writer.cpp:89-92 | the same for writes alone |
| ElfWriter.EmitExit | src/backend/elf_writer.cpp:20-39 | the hand-written exit image is the image of the empty action list |
| ElfWriter.EmitWriteExit | src/backend/elf_writer.cpp:41-46 | one write to descriptor 1, or the exit image when there is nothing to write |
| ElfExecution.ImageLoads | src/backend/elf_writer.cpp:55-66 | a loader that reads the header fields maps the whole image at its base and enters it behind the headers |
| ElfExecution.HeaderFields | src/backend/elf_writer.cpp:55-66 | every field of the two headers by its number, and zeros between them |
| ElfExecution.ImageRuns | src/backend/elf_writer.cpp:215-262 | for every action list below 2 GiB, exit code, initial registers and kernel, the run performs exactly the listed calls with literal descriptors, sizes, flags and payload bytes, and exits with the code |
| ElfExecution.StoredPath | src/backend/elf_writer.cpp:169-170 | the path the kernel reads back is the file name up to its first NUL, even after reads have stored bytes behind it |
| ElfExecution.PathIsName | src/backend/elf_writer.cpp:169-170 | without a NUL in it, that is the whole name |
| ElfExecution.PartsTile | src/backend/elf_writer.cpp:215-262 | header, code blocks, exit block and payload regions laid end to end are the image |
| ElfExecution.PartsDisjoint | src/backend/elf_writer.cpp:215-262 | different parts do not overlap |
| ElfExecution.PartAt | src/backend/elf_writer.cpp:215-262 | each part lies at its offset in the image |
| ElfExecution.BlockAddressesPayload | src/backend/elf_writer.cpp:229-254 | the block of each action addresses the region that holds the payload of that same action |
| InstructionDecoder.Decode | src/decoder/instruction_decoder.cpp:118-153 | the decoder with its prefix loop is the decoding function on all code and offsets, errors included |
| InstructionDecoder.ScanLoop | src/decoder/instruction_decoder.cpp:125-139 | the loop collects the prefixes, their count and overrides, and refuses a sixteenth |
| Assembler8086.PlaceDecodes | src/decoder/instruction_decoder.cpp:71-95 | the ModR/M byte and offset bytes of every register and address form decode to that register or address |
| Assembler8086.AssembledDecodes | src/decoder/instruction_decoder.cpp:200-381 | wherever the bytes of an assembled instruction stand, exactly it is decoded: kind, operands, operation, condition, distance, size and offset |
| Assembler8086.BytesDetermineMeaning | src/decoder/instruction_decoder.cpp:200-381 | assembled instructions with the same bytes mean the same |
| Assembler8086.ExchangeIsAdd | src/decoder/instruction_decoder.cpp:242-256 | 86h and 87h are decoded as the ADD with the same operands |
| Disassembler.DecodedIsAssembled | src/decoder/instruction_decoder.cpp:159-386 | whatever is decoded without prefixes is the bytes of an assembled instruction |
| Listing.PrefixesMean | src/decoder/instruction_decoder.cpp:124-153 | for every run of prefix bytes: REP if and only if F3h comes before any F2h, REPNE if and only if F2h comes before any F3h, the overrides if and only if 66h and 67h occur, size and offset extended, all else as without prefixes; and the exact errors |
| Listing.LineDecodes | src/decoder/instruction_decoder.cpp:118-386 | where prefixes and an assembled instruction stand, with at most 15 bytes, they are decoded as such |
| Listing.DecodesIffLine | src/decoder/instruction_decoder.cpp:118-386 | decoding succeeds if and only if such a line stands there |
| Rejections.UnsupportedIff | src/decoder/instruction_decoder.cpp:382-386 | an opcode is unsupported if and only if no encoding starts with it |
| Rejections.TruncatedIff | src/decoder/instruction_decoder.cpp:30-40 | an instruction is truncated if and only if the code ends inside an encoding, and the place reported is that of a ModR/M byte asked for first |
| Rejections.RefusedIff | src/decoder/instruction_decoder.cpp:318-335 | the two group errors stand for exactly FEh /2 to /7, and FFh /3 and /5 |
| DecoderWindow.DecodedBounds | src/decoder/instruction_decoder.cpp:118-153 | an instruction keeps its offset, has 1 to 15 bytes, lies in the code, and is never REPE |
| DecoderWindow.DecodeWindow | src/decoder/instruction_decoder.cpp:118-386 | code that agrees on the bytes of an instruction decodes to the same one, moved by the shift of the bytes; in the late form only the operand may differ |
| DecoderWindow.WindowStableIff | src/decoder/instruction_decoder.cpp:305-316 | an instruction is determined by its own bytes if and only if it is not a displaced FFh /2 or /4 |
| ImageAnalysis.DecoderIsWindow | src/decoder/instruction_decoder.cpp:118-386 | the 8086 decoder meets the contract of the graph theory |
| ImageAnalysis.Analyse | src/cfg/cfg_builder.cpp:25-74 | builder, lowering and both recoveries on the real decoder fail only when reachable code is not fine or the entry is outside, and give the specified results otherwise |
| ImageAnalysis.AnalyseFile | src/cli/main.cpp:39-77 | from the bytes of a file: succeeds if and only if it loads, its entry lies inside by the header words, and everything reachable is fine, with graph, program, loops and functions as specified; the entry error comes for exactly the MZ files whose words put it outside |
| CfgBuilder.NextStart | src/cfg/cfg_builder.cpp:32 | iteration of the ordered set goes to its least element from a bound on |
| CfgBuilder.BuildBlock | src/cfg/cfg_builder.cpp:33-70 | one block is the scan from its start against the starts it saw, and its targets join the starts |
| CfgBuilder.BuildPass | src/cfg/cfg_builder.cpp:30-71 | a pass over starts that grow under it keeps all of them leaders; a pass that adds none lists a closed graph |
| CfgBuilder.Build | src/cfg/cfg_builder.cpp:25-74 | terminates; succeeds if and only if the entry is inside and every reachable instruction decodes with its target inside; the result is the graph of the leaders, and an error names a reachable fault |
| CfgBuilder.ScanIsBlock | src/cfg/cfg_builder.cpp:35-69 | a scanned block is a straight run of instructions that ends at a branch, another start or the end of the code |
| CfgBuilder.SuccessorsLead | src/cfg/cfg_builder.cpp:51-67 | the targets and fall-throughs of a scanned block are leaders |
| CfgBuilder.ClosedIsBuilt | src/cfg/cfg_builder.cpp:28-72 | a closed set of reachable starts is exactly the set of leaders |
| CfgBuilder.BuiltCovers | src/cfg/cfg_builder.cpp:28-72 | the blocks cover exactly the instructions reachable from the entry |
| CfgBuilder.BuiltUnique | src/cfg/cfg_builder.cpp:28-72 | code and entry determine the graph, whatever order the starts were found in |
| ProgramGraph.LineFlow | src/cfg/cfg_builder.cpp:44-68 | over the bytes of any line: where the graph goes from it, target first, whether it ends a block, and with which condition |
| ProgramGraph.ProgramPathIff | src/cfg/cfg_builder.cpp:28-72 | the graph's instruction paths are the paths of the program text |
| ProgramGraph.BuildableIff | src/cfg/cfg_builder.cpp:25-74 | a graph exists if and only if a line with its target inside stands wherever the program runs |
| ProgramGraph.StartsAre | src/cfg/cfg_builder.cpp:51-67 | blocks start at the entry and where the branches, calls and loops the program runs go, and nowhere else |
| ProgramGraph.BlockEnds | src/cfg/cfg_builder.cpp:35-68 | every block ends with a line, has exactly its successors in order and its condition, and ends without a branch only before a start or at the end |
| ProgramGraph.LoopsAre | src/analysis/loop_recovery.cpp:16-21 | recorded loops are exactly the jumps, conditional jumps and loops in the text that do not go up, indirect ones included, calls not |
| ProgramGraph.EntriesAre | src/analysis/function_recovery.cpp:9-24 | functions start exactly at the entry and at the targets of the calls in the text that end blocks |
| ProgramGraph.SitesAre | src/analysis/function_recovery.cpp:20-24 | the call sites of a function are exactly the addresses of those calls |
| ControlFlowIr.LowerIds | src/ir/control_flow_ir.cpp:8-13 | identities are handed out exactly when the starts are distinct |
| ControlFlowIr.LowerSuccessors | src/ir/control_flow_ir.cpp:19-23 | identities name the blocks the successors start, or a successor starts none |
| ControlFlowIr.Lower | src/ir/control_flow_ir.cpp:6-30 | succeeds if and only if starts are distinct and every block goes to at most two starts, and gives the lowering, with stop, goto or branch by the number of successors; an error names the first block at fault |
| ControlFlowIr.BuiltIsLowerable | src/ir/control_flow_ir.cpp:7-30 | a built graph is always lowered |
| ControlFlowIr.IrPathIff | src/ir/control_flow_ir.cpp:16-28 | program and graph have the same paths |
| ControlFlowIr.FlowPathVisits | src/cfg/cfg_builder.cpp:32-72 | every instruction path is a walk over the blocks it meets, cut off inside the last |
| ControlFlowIr.BlockPathFlows | src/cfg/cfg_builder.cpp:32-72 | every block walk is an instruction path that meets exactly its blocks |
| ControlFlowIr.LoweringPreservesPaths | src/ir/control_flow_ir.cpp:7-30 | every instruction path from the entry is a path of the lowered program over the mapped identities |
| ControlFlowIr.LoweringReflectsPaths | src/ir/control_flow_ir.cpp:7-30 | every path of the lowered program is an instruction path |
| LoopRecovery.FindLast | src/analysis/loop_recovery.cpp:8-15 | the walk over a block finds its last instruction, or that its boundaries are wrong |
| LoopRecovery.Recover | src/analysis/loop_recovery.cpp:4-24 | records the branches that do not go up, block by block, and fails exactly on bad boundaries |
| LoopRecovery.LoopsExact | src/analysis/loop_recovery.cpp:16-21 | never fails on a built graph, and a pair is recorded if and only if it is a jump, conditional jump or loop edge that does not go up |
| LoopRecovery.CycleHasLoop | src/analysis/loop_recovery.cpp:16-21 | every cycle without a call-to-target edge takes a recorded latch-to-header edge |
| LoopRecovery.NoLoopsNoRepeats | src/analysis/loop_recovery.cpp:16-21 | without recorded loops every call-free walk visits each block at most once |
| FunctionRecovery.Recover | src/analysis/function_recovery.cpp:6-29 | succeeds if and only if every block has good boundaries and its call, if any, goes into the code; then lists every entry once, ascending, with its call sites in block order; an error is that of the first refused block |
| FunctionRecovery.SortedFunctions | src/analysis/function_recovery.cpp:25-28 | the table comes out in key order, complete and unchanged |
| FunctionRecovery.BuiltAcceptable | src/analysis/function_recovery.cpp:10-24 | recovery never fails on a built graph, and a call target is a successor and a start |
| FunctionRecovery.EntriesAreStarts | src/analysis/function_recovery.cpp:8-24 | every recovered entry is a block start |
| FunctionRecovery.TotalIsCallBlocks | src/analysis/function_recovery.cpp:20-27 | the call sites of all functions together number the blocks that end in a call |
| RegisterSsa.Builder.constructor | src/ir/register_ssa.cpp:10-15 | one entry value per register, under its own identity |
| RegisterSsa.Builder.EntryState | src/ir/register_ssa.cpp:17-21 | every register starts as its entry value |
| RegisterSsa.Builder.Define | src/ir/register_ssa.cpp:23-28 | appends one definition of any register, count included, with any inputs, and makes it the register's value; prior inputs keep the table well formed |
| RegisterSsa.Builder.DefineConstant | src/ir/register_ssa.cpp:30-35 | appends one constant and makes it the register's value |
| RegisterSsa.Builder.Constant | src/ir/register_ssa.cpp:37-41 | appends one constant and touches no state |
| RegisterSsa.Builder.DefineOperation | src/ir/register_ssa.cpp:43-49 | appends one operation with any inputs and makes it the register's value; prior inputs keep the table well formed |
| RegisterSsa.Builder.Merge | src/ir/register_ssa.cpp:51-61 | appends one phi per differing register, keeps the table well formed, and leaves both states alone |
| RegisterSsa.MergedRegister | src/ir/register_ssa.cpp:53-59 | the merged state keeps what both agree on and has a phi of both elsewhere |
| RegisterSsa.EvalStable | src/ir/register_ssa.cpp:23-61 | appending never changes what an earlier value stands for |
| RegisterSsa.PhiIsEither | src/ir/register_ssa.cpp:51-61 | a phi stands for one of the two merged values |
| RegisterSsa.ApplyComputes | src/optimizer/constant_propagation.cpp:17-25 | sums and differences are taken modulo 2^16, and bit i of AND, OR and XOR is the conjunction, disjunction or inequality of the bits i |
| RegisterSsa.ComputesOne | src/optimizer/constant_propagation.cpp:17-25 | only one word does so |
| RegisterSsa.EvalComputes | src/optimizer/constant_propagation.cpp:17-25 | an operation of a table stands for that of what its inputs stand for |
| ConstantPropagation.MeetPhi | src/optimizer/constant_propagation.cpp:32-39 | the loop over phi inputs records their common value, if all are known and equal |
| ConstantPropagation.Analyze | src/optimizer/constant_propagation.cpp:4-42 | the loop over the table computes the recorded constants, or the first error; on a builder's table an operation on two known values is recorded by its bits, sum or difference |
| ConstantPropagation.PropagationRecords | src/optimizer/constant_propagation.cpp:14-26 | what is recorded for an operation on two known values has the bits, the sum or the difference of the two |
| ConstantPropagation.PropagationSound | src/optimizer/constant_propagation.cpp:7-40 | on a builder's table it fails exactly when some operation has not two inputs, and otherwise a recorded constant is the value in every execution |
| ConstantPropagation.PropagationFailsIff | src/optimizer/constant_propagation.cpp:10-13 | over the whole table: an error if and only if some operation has not two inputs |
| ConstantPropagation.UnaryOperationFails | src/optimizer/constant_propagation.cpp:10-13 | on the table of the entry values, 5 and an operation on it alone, the analysis fails |
| ConstantPropagation.PropagationComplete | src/optimizer/constant_propagation.cpp:9-39 | constants, arithmetic on known inputs and phis of one known value are all recorded |
| ConstantPropagation.PropagationExact | src/optimizer/constant_propagation.cpp:7-40 | what is recorded is exactly what the table determines by constants, arithmetic and equal phis; copies are not followed |
| ConstantPropagation.DeterminedIsValue | src/optimizer/constant_propagation.cpp:7-40 | what a table determines, with or without copies, is the value in every execution |
| DeadValues.Analyze | src/optimizer/dead_value_elimination.cpp:4-22 | terminates; succeeds if and only if every value reachable from the roots is in the table under its identity, and marks exactly those; each error names such a value |
| DeadValues.DeadDoesNotMatter | src/optimizer/dead_value_elimination.cpp:6-21 | replacing every unmarked value arbitrarily leaves the value of every root unchanged in every execution |
| CompareFlags.FindConstant | src/ir/register_ssa.cpp:66-88 | the loop resolves as specified and terminates on tables with prior inputs; an operation on two constants gives its bits, sum or difference |
| CompareFlags.ResolvesOperation | src/ir/register_ssa.cpp:71-83 | an operation on two constants resolves to the word with the bits, the sum or the difference of the two |
| CompareFlags.DirectResolves | src/ir/register_ssa.cpp:66-88 | on copies of a constant or of an operation on two constants the result is the value in every execution |
| CompareFlags.ResolvesToLeaf | src/ir/register_ssa.cpp:66-88 | on every builder's table a resolved value is what the leaf of the walk stands for, in every execution |
| CompareFlags.ResolvedIsLeaf | src/ir/register_ssa.cpp:66-88 | what resolves is what the table determines at the leaf of the walk |
| CompareFlags.ResolvedIffDetermined | src/ir/register_ssa.cpp:66-88 | where a table determines a value, through any nesting, copies and phis, resolution is right in every execution if and only if the leaf is determined to be the same |
| CompareFlags.ResolvedIffPropagated | src/ir/register_ssa.cpp:66-88 | the same for a value propagation records: right if and only if the leaf is determined to be that |
| CompareFlags.VariesTakesAll | src/ir/register_ssa.cpp:66-88 | entry values, comparisons and what copies, phis and sums, differences or exclusive ors with a determined operand make of them take every word |
| CompareFlags.VaryingNeverRight | src/ir/register_ssa.cpp:66-88 | no constant resolved for such a value is right |
| CompareFlags.NestedOperation | src/ir/register_ssa.cpp:71-86 | an operation on determined values, not both constants of the table, is resolved rightly if and only if its result is what the leaf of its first operand is |
| CompareFlags.FirstPhiInput | src/ir/register_ssa.cpp:85-86 | a phi of determined values is resolved rightly in every execution if and only if both are what the leaf of the first is |
| CompareFlags.NestedCounterexample | src/ir/register_ssa.cpp:71-86 | behind the entry values, (5 + 3) - 1 resolves to 8 |
| CompareFlags.NestedSecondCounterexample | src/ir/register_ssa.cpp:71-86 | behind the entry values, 5 + (3 + 1) resolves to 5 |
| CompareFlags.CopyCounterexample | src/ir/register_ssa.cpp:71-86 | a copy of 5, plus 3, resolves to 5 |
| CompareFlags.EntryCounterexample | src/ir/register_ssa.cpp:71-86 | 5 + AX resolves to 5 whatever AX is |
| CompareFlags.PhiCounterexample | src/ir/register_ssa.cpp:85-86 | behind the entry values, a phi of 1 and 2 resolves to 1 where it is 2 |
| CompareFlags.FindFlags | src/ir/register_ssa.cpp:91-129 | the loop finds the flags of the first resolvable comparison on the chain |
| CompareFlags.CompareFlagsAre | src/ir/register_ssa.cpp:99-111 | zero if and only if equal, carry if and only if below, overflow if and only if the true difference lies outside the signed range, sign if and only if exactly one of signed less and overflow holds |
| CompareFlags.CompareConditions | src/compiler/straight_line_compiler.cpp:41-60 | after CMP each of the fourteen conditions is the unsigned, signed, sign or overflow relation it names, for all words |
| CompareFlags.TestConditions | src/compiler/straight_line_compiler.cpp:41-60 | after TEST each condition is its relation between the AND of the operands and zero |
| CompareFlags.TestFlagsAreBits | src/ir/register_ssa.cpp:114-124 | TEST sets zero if and only if the operands share no bit, and sign if and only if they share bit 15 |
| CompareFlags.ConditionsHold | src/ir/register_ssa.cpp:91-129 | through copies of a CMP or TEST on resolvable operands, a condition is its relation between what the operands stand for |
| CompareFlags.ConditionsOfLeaves | src/ir/register_ssa.cpp:91-129 | whatever the operands are computed from, a condition is its relation between what their leaves stand for |
| CompareFlags.NothingResolved | src/ir/register_ssa.cpp:126-127 | when no comparison on the walk has two determined leaves, every flag is clear |
| CompareFlags.UnresolvedConditions | src/compiler/straight_line_compiler.cpp:41-60 | then exactly seven conditions hold, whatever is compared |
| CompareFlags.UnresolvedCounterexample | src/ir/register_ssa.cpp:91-129 | after CMP AX,5 not-equal holds even where AX is 5 |
| ConventionalMemory.Allocator.constructor | src/runtime/conventional_memory.cpp:6-8 | a fresh pool is one free block, or none when empty |
| ConventionalMemory.Allocator.Allocate | src/runtime/conventional_memory.cpp:10-29 | the new block list and the result are those of first fit; an error changes nothing |
| ConventionalMemory.Allocator.Release | src/runtime/conventional_memory.cpp:31-46 | the block is freed and the list coalesced in place; an error changes nothing |
| ConventionalMemory.Allocator.Coalesce | src/runtime/conventional_memory.cpp:35-44 | the merging loop, with 16-bit sizes, joins every run of free blocks |
| ConventionalMemory.Allocator.LargestFreeBlock | src/runtime/conventional_memory.cpp:48-52 | the size of the largest free block |
| ConventionalMemory.AllocatedCanonical | src/runtime/conventional_memory.cpp:10-29 | an allocation keeps the pool canonical and adds exactly one live pair |
| ConventionalMemory.ReleasedCanonical | src/runtime/conventional_memory.cpp:31-46 | exactly the live segments can be released, and a release removes exactly that pair |
| ConventionalMemory.RunCanonical | src/runtime/conventional_memory.cpp:10-46 | over every run of requests the blocks are non-empty, tile the pool without 16-bit overflow, and have no two adjacent free ones |
| ConventionalMemory.CanonicalUnique | src/runtime/conventional_memory.cpp:10-46 | pool size and live pairs determine the block list |
| ConventionalMemory.HistoryIndependent | src/runtime/conventional_memory.cpp:10-46 | any two histories that leave the same live pairs leave the same blocks |
| ConventionalMemory.AllocateReleaseRestores | src/runtime/conventional_memory.cpp:10-46 | allocating and releasing restores the identical list |
| ConventionalMemory.ReleasesCommute | src/runtime/conventional_memory.cpp:31-46 | two successful releases commute |
| ConventionalMemory.ReleasingAllRestores | src/runtime/conventional_memory.cpp:31-46 | with nothing live the pool is the fresh one |
| ConventionalMemory.FirstFitIsLowestGap | src/runtime/conventional_memory.cpp:10-29 | a request succeeds if and only if that many consecutive paragraphs are unallocated, and gets the lowest such segment |
| ConventionalMemory.AllocateIffLargest | src/runtime/conventional_memory.cpp:10-52 | a non-zero request succeeds if and only if it is at most the largest free block |
| RealModeMemory.Memory.Read8 | src/runtime/real_mode_memory.cpp:5-8 | the byte, or an error outside the memory |
| RealModeMemory.Memory.Write8 | src/runtime/real_mode_memory.cpp:9-12 | exactly that byte changes, or none outside the memory |
| RealModeMemory.Memory.Read16 | src/runtime/real_mode_memory.cpp:13-17 | the little-endian word, or an error when it crosses the end |
| RealModeMemory.Memory.Write16 | src/runtime/real_mode_memory.cpp:18-21 | exactly the two bytes change, or none when the word crosses the end |
| RealModeMemory.Memory.Write | src/runtime/real_mode_memory.cpp:22-26 | exactly the range changes, or nothing when it does not fit |
| RealModeMemory.SegmentedWordInside | src/runtime/real_mode_memory.cpp:33-38 | no segmented word access is out of bounds |
| RealModeMemory.SegmentsOverlap | include/dosrecomp/runtime/segmented_address.hpp:9-11 | segment 0 addresses by offset, and (s + 1, o) and (s, o + 16) are the same byte |
| BinaryLoader.ParseMz | src/loader/binary_loader.cpp:21-71 | the guards in order and the relocation loop give the specified image or the first fault |
| BinaryLoader.AcceptedIff | src/loader/binary_loader.cpp:21-73 | an MZ file is parsed to an image if and only if its words, by their places, describe that image |
| BinaryLoader.FaultsAre | src/loader/binary_loader.cpp:23-71 | each of the six errors comes for exactly the files whose words fail its test and none before it |
| BinaryLoader.LoadBytes | src/loader/binary_loader.cpp:93-112 | MZ files, COM images up to 65535 bytes, and the two errors before them |
| BinaryLoader.ApplyRelocations | src/loader/binary_loader.cpp:114-130 | every entry raises its word in a patched copy; a COM image or an entry outside is an error |
| BinaryLoader.ParsedIsRelocatable | src/loader/binary_loader.cpp:57-65 | relocation never fails on a parsed MZ image |
| BinaryLoader.EntryInsideIff | src/loader/binary_loader.cpp:66-68 | for every accepted MZ file the entry lies in the module if and only if header size, segment and offset stay below the declared size, and always with segment 0 |
| MzEncoding.RoundTrip | src/loader/binary_loader.cpp:21-71 | an image written as an MZ file is read back, whatever the unread fields, gap and trailing bytes hold; the one exception is a single page declared full by 0 |
| MzEncoding.EntrySegmentUnchecked | src/loader/binary_loader.cpp:66-68 | an accepted file whose entry point lies outside its module |
| Relocation.RelocationsAdd | src/loader/binary_loader.cpp:120-128 | for words pairwise equal or disjoint, relocating by a then b is relocating by their sum mod 2^16 |
| Relocation.RelocationUndone | src/loader/binary_loader.cpp:120-128 | relocating by a segment and its negative restores the module |
| Relocation.RelocatedWord | src/loader/binary_loader.cpp:120-128 | a word that overlaps no other listed one is raised by the segment once per listing, modulo 2^16 |
| Relocation.UncoveredUnchanged | src/loader/binary_loader.cpp:120-128 | bytes outside every listed word never change, overlapping or not |
| Relocation.AdditiveIff | src/loader/binary_loader.cpp:120-128 | while no word is listed 256 times, relocations of every module of a size add up if and only if no two words overlap |
| Relocation.OverlapOf256Adds | src/loader/binary_loader.cpp:120-128 | at 256 listings they can add up although two words overlap |
| Int13.Dispatch | src/runtime/int13.cpp:5-19 | a request is accepted if and only if it reads drive 80h from inside the geometry and within the image; it then transfers AL sectors of 512 bytes; each error has its exact condition |
| Int13.ChsBits | src/runtime/int13.cpp:8-9 | the bits of cylinder and sector are those of CH and CL, the head is DH |
| Int13.RequestsInjective | src/runtime/int13.cpp:9-13 | accepted requests with the same first sector agree in CH, CL and DH |
| Int13.AllAddressableIff | src/runtime/int13.cpp:9-13 | every sector of a geometry is addressed by some request if and only if it has at most 1024 cylinders and 63 sectors per track, or no sector at all |
| Int13.NextIsFollowing | src/runtime/int13.cpp:13 | carrying from sector to head to cylinder goes to the next sector number |
| Int13.ReadIsRange | src/runtime/int13.cpp:13-18 | a read from any place the registers can hold gives the bytes of its sectors in the image, or the error when the image is too short |
| Int13.ReadIsOneByOne | src/runtime/int13.cpp:9-18 | on every disk, a read whose successive places can all be requested is as many one-sector reads with carry, in bytes and in error |
| Int13.OneByOneIff | src/runtime/int13.cpp:11-18 | a successful read is its one-sector reads if and only if all its places can be requested |
| Int13.WalkIffInside | src/runtime/int13.cpp:9-13 | in a geometry that fits into the registers those are the reads that stay inside it |
| StringLoops.Runtime.RunBody | src/compiler/branching_compiler.cpp:259-273 | each of the ten generated bodies changes registers, flags and memory as specified |
| StringLoops.Runtime.Run | src/compiler/branching_compiler.cpp:247-253 | the generated while loop with its break test is the specified repetition |
| StringLoops.Runtime.UpdateFlagsCmp | src/compiler/branching_compiler.cpp:76-80 | carry if and only if below, zero if and only if equal, bit 7 or 15 if and only if the difference is negative, and no other bit of the flags |
| StringLoops.ComparedFlagsMean | src/compiler/branching_compiler.cpp:76-80 | the same of the expression the loops use |
| StringRings.MovsEnds | src/compiler/branching_compiler.cpp:248-262 | over every state REP MOVSB and MOVSW use up CX, leave SI and DI CX strides on, and change no byte outside the destination elements, wrapping or not |
| StringRings.MovsRing | src/compiler/branching_compiler.cpp:248-262 | over every state whose pointers are whole elements apart, in both directions and wrapping or not: with the destination p elements ahead around the ring, element k becomes the old source element k mod p, and with p of 0, or of CX and more, it is a copy |
| StringTheorems.MovsCopies | src/compiler/branching_compiler.cpp:248-262 | at any distance, odd ones included, a copy whose pointers do not wrap copies the old elements unless the destination starts ahead inside the source |
| StringTheorems.MovswAhead | src/compiler/branching_compiler.cpp:260 | REP MOVSW q bytes ahead, even or odd, repeats the first q bytes; one byte ahead the second byte of each word stays the old one |
| StringRings.StosEnds | src/compiler/branching_compiler.cpp:248-265 | over every state REP STOSB and STOSW use up CX, leave DI CX strides on, and change no byte outside the elements |
| StringRings.StosRing | src/compiler/branching_compiler.cpp:262-265 | over every state each of the CX elements holds AL or AX |
| StringRings.LodsEnds | src/compiler/branching_compiler.cpp:248-268 | over every state REP LODSB and LODSW use up CX, move SI CX strides, change no memory, and leave in AL or AX the last element read |
| StringRings.OnceIsRepOfOne | src/compiler/branching_compiler.cpp:247-249 | without a repeat prefix each of the ten does what REP does with a CX of 1, and leaves CX alone |
| StringTheorems.StepIsStride | src/compiler/branching_compiler.cpp:83 | with bit 10 of the flags set pointers go down by the element, without it up |
| StringComparisons.CompareEnds | src/compiler/branching_compiler.cpp:247-273 | CMPSB, CMPSW, SCASB and SCASW under any prefix end with the first comparison that stops them or the last of CX, with its flags; pointers wrap |
| StringComparisons.RepeatedCompare | src/compiler/branching_compiler.cpp:247-273 | over every state, the final state of a repeated comparison |
| StringComparisons.RepRunsOut | src/compiler/branching_compiler.cpp:247-273 | behind F3h all four run through the whole of CX and leave the flags of the last comparison |
| StringComparisons.RepIsRepeIff | src/compiler/branching_compiler.cpp:250-251 | they agree with the REPE loop if and only if no comparison before the last differs |
| StringComparisons.ScanFinds | src/compiler/branching_compiler.cpp:247-273 | REPNE stops right behind the first match with zero set and CX counting the rest |
| StringComparisons.ScanMisses | src/compiler/branching_compiler.cpp:247-273 | without a match it uses up CX and leaves zero clear |
| StringComparisons.ComparesIgnoreDirection | src/compiler/branching_compiler.cpp:76-81 | no flag, the direction flag among them, ever influences a comparison, and it never goes down |
| InstructionTranslator.StoreConcrete | src/semantics/instruction_translator.cpp:74-122 | the register reads back as the value cut to its width; storing a half makes its word 0x100 * high + low and changes no other register; storing a word changes only itself |
| InstructionTranslator.WordStoreCoherentIff | src/semantics/instruction_translator.cpp:113-120 | after a store to a word its halves agree with it if and only if they already held the new value |
| InstructionTranslator.Translate | src/semantics/instruction_translator.cpp:192-216 | PUSH and POP of any register, and loads, change registers, memory, SSA table and state as specified and report the effect; every error has its condition and leaves all of them unchanged |
| RegisterLoads.LoadRuns | src/semantics/instruction_translator.cpp:269-274 | the bytes of a load of any byte or word register, decoded and translated: its slot holds the value, a byte's word is 0x100 * high + low, no other slot and no memory changes, and the table gains that constant for exactly that register |
| RegisterLoads.StackLinesIff | src/semantics/instruction_translator.cpp:192-218 | of the stack instructions exactly PUSH and POP of a register without prefixes are translated; every other one is not implemented |
| StackDiscipline.RunIsAfter | src/semantics/instruction_translator.cpp:192-216 | decoding and translating bracketed machine code never fails, in any segment, at any depth |
| StackTheorems.AfterMeans | src/semantics/instruction_translator.cpp:192-216 | up to depth 32768 the run on memory refines the meaning without a stack |
| StackTheorems.WellBracketed | src/semantics/instruction_translator.cpp:192-216 | the machine code succeeds, each POP gets the value of its PUSH, SP is restored, and only the words at SP - 2k, k up to the depth and wrapping, change |
| StackTheorems.ChangesOnlyBelowSp | src/runtime/real_mode_memory.cpp:13-38 | with 2 * depth at most SP, only the bytes from SP - 2 * depth to SP of the segment change |
| StackTheorems.SavedRegisters | src/semantics/instruction_translator.cpp:192-216 | registers pushed around a body and popped in reverse have their old values |
| StackTheorems.OneDeeperOverwrites | src/semantics/instruction_translator.cpp:192-216 | a program of depth 32769 whose outermost POP gets another register's value |
| StackSsa.AgreementKept | src/semantics/instruction_translator.cpp:200-216 | whatever the program and its depth, the constants of the other registers stay equal to the concrete ones |
| StackSsa.SpConstantIs | src/semantics/instruction_translator.cpp:200-216 | the table's SP after a bracketed program is the last constant given along its meaning: the lowered SP at a PUSH, the popped value at a POP SP |
| StackSsa.SpConstantIsStale | src/semantics/instruction_translator.cpp:200-216 | at any depth SP is restored; without POP SP its constant is that of the last PUSH |
| StackSsa.SpConstantRightIff | src/semantics/instruction_translator.cpp:200-216 | from a right constant, the table's SP is right again if and only if the last constant given is SP or there is none |
| StackSsa.SpConstantIsWrong | src/semantics/instruction_translator.cpp:200-216 | when a PUSH gave the last constant, the table's SP is right if and only if its nesting is a multiple of 32768, so never below that depth |
| StackSsa.PopSpCounterexample | src/semantics/instruction_translator.cpp:200-207 | after PUSH AX and POP SP the table's SP is AX |

## Left out

- ElfExecution.ImageRuns: images of 2 GiB and more, whose RIP-relative displacements no longer fit; page protection is only what the kernel answers, such as an error to a read into the R+X segment.
- RegisterSsa.Builder.Define: for the register index `count` it does not say what the state is, for the source writes outside it.
- InstructionTranslator.Translate: models the stack branch and loads of immediates to registers; the arithmetic, CALL, RET and memory branches are absent. Without registers or memory it states the error of PUSH and POP and, for loads, the table, the state and the effect.
- Relocation.AdditiveIff: says nothing of tables that list a word 256 times or more, where overlap no longer decides; `RelocationsAdd` holds for them too.
- CompareFlags.ResolvedIffDetermined: says nothing of values that are neither determined nor take every word, such as AND and OR of an undetermined operand; for those `ResolvesToLeaf` holds.
- CompareFlags.FindFlags: tables with inputs that are not prior, on which the source may loop; comparisons are 16 bits wide as in the source, so byte comparisons are claimed only as word comparisons.
- StringTheorems.MovswAhead: word copies at an odd distance have no closed form where their pointers wrap; `StringRings.MovsRing` covers every even one.
- StackSsa.SpConstantIs: behind a POP SP it needs a depth of at most 32768, beyond which the popped word may have been overwritten.
- The ordered set of the graph builder is a set with a method that finds its next element; hash maps are maps.
- Decoding of operands for opcodes that the source decodes without operands; error message texts.
- `translate_block`, the INT 21h and INT 10h handlers, and the rest of the branching compiler: host calls and text generation.
- The file layers (virtual drive, directories, INT 21h files) and the small devices (timer, keyboard, speaker, mode 13h): thin or easy.
- Reading a file from disk in `load_file`: the loader starts from its bytes.
