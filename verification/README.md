# An RV64I machine whose memory accesses take many bus cycles

The program is an RV64I emulator whose CPU and system bus are stepped in turn. One bus cycle moves
one byte. A load, a store or a fetch is therefore spread over many calls of the same function, which
keeps its place in hidden state: the `stall` flag, a static offset in `read_mem` and another in
`write_mem`, and a static accumulator in each load handler. While `stall` is set, the main loop decodes
and executes the same word again on every cycle.

The project has two layers.

- Functions on values, with the theorems about them. `machine.dfy` is the micro-step machine:
  `Machine.Cycle` is one bus cycle of the main loop, and `Machine.Run` any number of them. `isa.dfy` is the reference:
  instructions as an assembler programmer writes them, their encoding, and their effect in one step,
  taken from the RISC-V Unprivileged ISA (section 2.3 for the immediates, 2.4 to 2.6 for RV32I, 4.2 and
  4.3 for RV64I). In two points it takes the emulator's behaviour: a jump to an address that is not a
  multiple of four raises no exception, and a store to an unmapped address vanishes. `decoder.dfy` is
  the emulator's decoding.
- Classes and methods in the form of the C code, proved to compute those functions: the CPU and the
  main loop (`cpu.dfy`), the decoding functions (`decoding.dfy`), the bus, its devices and their list (`sysbus.dfy`, `linkedlist.dfy`), the
  handler table and its registration loops (`dispatch.dfy`), and the bit loops (`helper.dfy`).

The main results, hardest first:

1. *Refinement.* From a boundary between two instructions the machine passes no boundary for an exact
   number of cycles and then reaches one. It is then in the state of the reference step **if and only
   if** `Quirks.Agrees` holds of the instruction and the state before it (`Quirks.RunMatchesReferenceIff`).
   `Faithfulness.FaithfulIff` turns this into a condition on the instruction alone: the emulator is right
   in every reachable state exactly for the instructions that are not an LB or LH into a register
   other than x0, nor a multi-byte load or a JALR whose `rd` is its `rs1` and is not x0. Reachable means: in a
   run from `init_rv64_cpu` on a memory that devices accepted by `sysbus_memory_map_iodev` present. For each of
   the other instructions `Faithfulness.Witness` gives such a run, of one instruction, that leads to a state
   where it goes wrong.
   `Runs.TraceIsRun` carries the refinement through any number of instructions, and `Runs.CodeTraceIsRun` the
   effect with the quirks.
2. *Whole runs.* `Invariant.ReachableInv` holds in every state reachable from `init_rv64_cpu`, cycle by
   cycle, and `Invariant.RunWrites` says that a byte of memory changes only within a store that covers it.
3. *Progress.* `MainLoop.NextBoundary` gives the exact number of cycles of every word for any memory, mapped
   or not, and `Runs.BoundaryOutcome` says which words halt, trap or execute. `Runs.EndsIff`: a run that reads
   nothing unmapped halts, or traps, if and only if a sequence of instructions leads to a word that ends it so;
   and then the loop of `CpuObject.MachineMainLoop`, given as many turns as the cycles of that sequence,
   returns in the state it leads to.
4. *Encoding.* Decoding and encoding are inverse to each other in both directions, and the handler table
   is exact over all 2^32 words.
5. *Bus.* Accepted device ranges form a laminar family, also when their ends wrap at 2^64, first match is
   innermost, and the bus with its list of devices refines one flat partial memory.

Definitions that the reference and the emulator's model share are stated a second time without them: widths,
byte addresses and cycle counts in `widths.dfy`, the bits of AND, OR and XOR and the signed comparisons in
`words.dfy` and `alu.dfy`, the bus step and the flat memory in `sysbus.dfy`, the links of a list in `linkedlist.dfy`.

Where names, comments and code disagree, the code is followed. `execute_lh` and `execute_lb` (and the
helpers `sign_extend_u16_to_u64` and `sign_extend_u8_to_u64`) extend from bit 31 of a widened value
and so zero-extend. Loads write partial results to `rd` on every cycle, and JALR writes `rd` before it reads `rs1`. The admission check of
`sysbus_memory_map_iodev` lets a range through that strictly contains an earlier one, so mapped ranges
need not be disjoint. A range whose end wraps at 2^64 covers its base address alone, and the check lets anything
be mapped after it.

`dafny verify dfyconfig.toml` checks the whole project.

## Model

| member | source | states |
|---|---|---|
| Quirks.RunMatchesReferenceIff | src/machine/machine.c:18-37 | from a boundary where memory holds an instruction and, for a load, its bytes are mapped, the cycles of the main loop end at a boundary, in the reference's next state if and only if `Agrees` holds |
| Quirks.CodeMatchesReferenceIff | src/cpu/cpu.c:1109-1514 | the emulator's whole effect of an instruction is the standard's exactly if: a narrow signed load has a clear sign bit, a load over its own base finds equal bytes at the shifted addresses, and JALR over its own base has link and base give one target |
| Quirks.LoadedRightIff | src/cpu/cpu.c:1394-1514 | the accumulator holds the little-endian value after k bytes exactly if the load does not overwrite its base, or each later byte at the recomputed address equals the true one, for every state including unmapped shifted addresses |
| Quirks.ExtensionRightIff | src/cpu/cpu.c:1411-1514 | what each load handler makes of its accumulator is the standard's extension exactly if the value is right and, for LB and LH, its sign bit is clear |
| Faithfulness.FaithfulIff | src/cpu/cpu.c:688-1578 | an instruction is executed right from every boundary of every run of `init_rv64_cpu`, on any devices, if and only if it is outside the three quirk families; outside them it is right from every boundary state, reachable or not |
| Faithfulness.Witness | src/cpu/cpu.c:1109-1514 | every instruction is executed, with its operand mapped, at the second boundary of some run from the initial CPU on devices; an instruction inside a quirk family, with a result that differs from the standard |
| Faithfulness.ReachableStates | src/machine/machine.c:18-37 | every reachable state keeps the invariant of the cycles and has a memory that accepted devices present |
| MainLoop.RunIsCodeExecute | src/machine/machine.c:2-37 | stuttering refinement with the quirks included: no boundary for `CyclesOf - 1` cycles, then one with the effect of `CodeExecute` on registers, pc and memory |
| MainLoop.NextBoundary | src/machine/machine.c:2-37 | for any memory and registers: after five cycles the fetched word halts the machine if zero, traps it one step later if it has no handler, and otherwise leads to a boundary after exactly 5 + 1, 5 + n (n-byte store) or 5 + n + 1 (n-byte load) cycles |
| MainLoop.HandlerTiming | src/cpu/cpu.c:688-708 | a handler stalls for exactly `Cost - 1` repetitions, even when a load overwrites its base, and the pc is held meanwhile |
| MainLoop.FetchTiming | src/machine/machine.c:2-17 | a fetch stalls for four cycles and is complete after five, whatever is mapped, and changes neither registers nor memory |
| MainLoop.FetchedWord | src/cpu/cpu.c:1721-1728 | over mapped bytes the fetched word is the little-endian word at the pc |
| MainLoop.NotHalt | src/cpu/cpu.h:172-173 | no instruction is encoded as the halting word, and every instruction has a handler |
| Runs.TraceIsRun | src/machine/machine.c:18-37 | along any number of instructions the machine, after the sum of their cycles, is in the state the reference reaches |
| Runs.TraceHalts | src/machine/machine.c:18-37 | from any boundary, a trace of agreeing steps that reaches a zero word halts after exactly the cycles of its instructions and one more fetch, in the reference's final state |
| Runs.CodeTraceIsRun | src/machine/machine.c:18-37 | along any sequence of instructions, right or wrong and reserved shifts included, the machine is after the sum of their cycles in the state their effects lead to |
| Runs.TraceIsCodeTrace | src/machine/machine.c:18-37 | where the emulator agrees with the reference at each step, both reach the same state |
| Runs.TraceEnds | src/machine/machine.c:18-37 | a sequence of instructions that leads to a zero word halts, and one that leads to an illegal word traps, after exactly its cycles, in the state it leads to |
| Runs.EndDecomposes | src/machine/machine.c:18-37 | a run that has halted or trapped within k cycles is a sequence of instructions that leads to such a word, of at most k cycles in all and with the same final state |
| Runs.EndsIff | src/machine/machine.c:18-37 | a run that reads nothing unmapped halts, or traps, if and only if some sequence of instructions leads to a word that ends it so |
| Runs.EndIsFinal | src/machine/machine.c:27-29 | a halted or trapped machine never changes again |
| Runs.BoundaryOutcome | src/machine/machine.c:18-37 | the main loop exits exactly when the word at the pc is zero and traps exactly when it is neither an encoded instruction nor a reserved shift; both leave registers and memory as they were |
| Runs.EncodeInjective | src/cpu/cpu.c:268-643 | a word encodes at most one instruction, so the trace from a state is determined |
| Runs.ReservedShiftEffect | src/cpu/cpu.c:833-949 | a 32-bit shift word with bit 25 set, reserved by the standard, runs with the effect of the word with that bit clear |
| Runs.StoreLoadRoundTrip | src/cpu/cpu.c:1394-1578 | SD then LD, SW then LW or LWU, SH then LH or LHU, SB then LB or LBU at the same address, through all their bus cycles: `rd` ends as the stored register truncated to 64, 32, 16 or 8 bits, with the sign repeated by LW alone; a load of one byte may overwrite its base |
| Runs.StoreThenFetch | src/cpu/cpu.c:1516-1728 | after any store, wherever it overlaps the next instruction, the next fetch returns the little-endian word of the memory with the stored bytes in it |
| Runs.StoredWordIsFetched | src/cpu/cpu.c:1516-1728 | SW or SD to the address of the next instruction: the low word of the stored register is fetched |
| Runs.StoredValueLoads | src/cpu/cpu.c:1580-1699 | the low k bytes of an n-byte store read back as the stored value modulo 256^k |
| Widths.CycleCounts | src/machine/machine.c:2-37 | bus cycles from boundary to boundary, in numbers: 7, 8, 10 and 14 for loads, 6, 7, 9 and 13 for stores of 1, 2, 4 and 8 bytes, 6 for all else, with no boundary between |
| Widths.StoreLands | src/cpu/cpu.c:1516-1578 | SB, SH, SW and SD end after 6, 7, 9 and 13 cycles with the low 1, 2, 4 and 8 bytes of the register at rs1 + imm, every byte farther away unchanged, and only the pc among the registers |
| Widths.LoadReads | src/cpu/cpu.c:1394-1514 | a load into another register than its base, or of one byte, ends after 7, 8, 10 or 14 cycles with the little-endian value of 1, 2, 4 or 8 bytes in `rd`, the sign repeated by LW alone, and nothing else changed but the pc |
| Widths.ControlLands | src/cpu/cpu.c:1093-1392 | jumps, branches, LUI and AUIPC, after six cycles: target, link and fall-through in numbers, with JALR's base being the link if `rd` is `rs1` |
| Widths.LittleEndian | src/cpu/cpu.c:1619-1621 | byte k of the value of n mapped bytes is the byte at address + k modulo 2^64, and the value is below 256^n |
| Widths.HoldsIs | src/machine/machine.c:2-17 | an instruction is at the pc exactly if the four bytes there are those of its word |
| Widths.AccessibleIs | src/cpu/cpu.c:1394-1514 | a load is accessible exactly if its 1, 2, 4 or 8 bytes are mapped; any other instruction always is |
| Invariant.InvStep | src/machine/machine.c:22-36 | one cycle keeps the invariant, holds the pc and the word while a handler is stalled, keeps a stalled store's address, and changes memory only within that store |
| Invariant.ReachableInv | src/cpu/cpu.c:663-686 | from the initial CPU, after any number of cycles: the invariant, so x0 = 0, the pc is even and `pc_updated` is clear; `InvMeans` spells out the rest |
| Invariant.InvRun | src/machine/machine.c:18-37 | the same from any state of the invariant, with what each cycle writes and holds |
| Invariant.RunWrites | src/cpu/cpu.c:1668-1699 | along every run a mapped byte stays mapped, and differs only if some cycle was part of a store whose bytes [rs1+imm, rs1+imm+n) include it, although `memwrite` stays set after a store |
| Invariant.StoreKeeps | src/cpu/cpu.c:1684-1696 | one cycle of a store writes the one byte its offset points at, and keeps registers until the last |
| Invariant.RunPresentable | src/sysbus/sysbus.c:48-116 | along every run the memory stays one that accepted devices present |
| Invariant.InvMeans | src/cpu/cpu.c:1580-1740 | the invariant width by width: x0 = 0, an even pc, a read offset of 1 to 1, 2, 4 or 8 in a load, a write offset of 1 to 1, 3 or 7 in a store and none in SB |
| Invariant.InStoreMeans | src/cpu/cpu.c:1516-1578 | a byte of the store being executed lies less than 1, 2, 4 or 8 above rs1 + imm |
| Invariant.CycleKeeps | src/machine/machine.c:22-36 | one cycle keeps the mapped addresses, changes a byte only in a store, the pc only when a handler completes, and the word only while fetching |
| Invariant.TargetFormats | src/cpu/cpu.c:321-405 | the immediate a branch or JAL handler adds to the pc is even |
| Access.ReadCourse | src/cpu/cpu.c:1608-1638 | n + 1 calls of a read with a bus step between them stall until the last, whatever is mapped, and leave registers and memory alone |
| Access.ReadIsLittleEndian | src/cpu/cpu.c:1608-1638 | after k + 1 calls the accumulator is the value of the first k bytes; n + 1 calls give the n-byte little-endian value, and the byte past the end need not be mapped |
| Access.ReadByte | src/cpu/cpu.c:1619-1621 | the next call takes exactly one byte off the bus into its place in the accumulator |
| Access.WriteIsLittleEndian | src/cpu/cpu.c:1684-1696 | after k calls exactly the bytes 0 to k - 1 have landed, every other byte is unchanged, and call n ends the access |
| Access.WriteByte | src/cpu/cpu.c:1689-1696 | call k + 1 of a write, with its bus step, lands byte k and ends the access exactly if k + 1 = n |
| Cycles.LoadCourse | src/cpu/cpu.c:1394-1514 | after k cycles of a load, k at most n, only `rd` has changed among the registers, and memory has not |
| Cycles.LoadData | src/cpu/cpu.c:1394-1514 | after k cycles the accumulator holds k - 1 bytes, `rd` their extension, and byte k - 1 is on the bus, each byte from the address the handler computes in that cycle |
| Cycles.LoadResult | src/cpu/cpu.c:1394-1514 | a whole load writes the extension of its bytes to `rd`, advances the pc once and leaves memory alone |
| Cycles.StoreCourse | src/cpu/cpu.c:1516-1578 | after k cycles of a store the first k bytes of the truncated register have landed; the pc advances in cycle n |
| Cycles.TruncationIsHarmless | src/cpu/cpu.h:462-470 | truncating the operand to the width of the store first stores the same bytes |
| Refinement.StepsComputeCodeExecute | src/cpu/cpu.c:688-1740 | repeating any handler `Cost` times, each with a bus step, has the effect of the instruction at once, on registers, pc and memory |
| Refinement.ControlStep | src/cpu/cpu.c:1093-1392 | jumps and branches: link, target and fall-through, with JALR's base read after the link is written |
| Refinement.ValueStep | src/cpu/cpu.c:710-1291 | every computing instruction writes the standard's value to `rd` and falls through |
| Alu.ImmRefines | src/cpu/cpu.c:710-815 | the immediate handlers compute the values of ADDI, SLTI, SLTIU, XORI, ORI, ANDI and ADDIW |
| Alu.ShiftRefines | src/cpu/cpu.c:817-949 | the immediate shift handlers, with the shift kind taken from bit 10 of the immediate, compute the arithmetic meaning of the six shifts |
| Alu.RegRefines | src/cpu/cpu.c:978-1291 | the register handlers compute the values of the fifteen register instructions |
| Alu.BitwiseMeaning | src/cpu/cpu.c:774-1091 | every bit of AND, OR, XOR, ANDI, ORI and XORI is the conjunction, disjunction or difference of the operands' bits, in the reference and in the handlers, the immediate taken modulo 2^64 |
| Alu.ArithmeticMeaning | src/cpu/cpu.c:978-1392 | sums and differences modulo 2^64; signed comparisons, of SLT and of branches, are unsigned ones with 2^63 added to both sides |
| Alu.WordMeaning | src/cpu/cpu.c:1193-1291 | ADDW and SUBW: the low word of the result is the sum or difference modulo 2^32, the high word repeats its top bit |
| Alu.WordHandlersUseLow32 | src/cpu/cpu.c:1193-1291 | every W register result depends only on the operands' low 32 bits and is the sign extension of a 32-bit value |
| Alu.WordImmediatesUseLow32 | src/cpu/cpu.c:724-949 | the same for ADDIW and the W immediate shifts |
| Encoding.DecodeInvertsEncode | src/cpu/cpu.c:268-643 | the word of any valid instruction decodes to its handler, its registers and its signed immediate modulo 2^64 |
| Encoding.ImmIRoundTrip | src/cpu/cpu.c:270-281 | the I immediate decodes to the encoded value, for any other fields |
| Encoding.ImmSRoundTrip | src/cpu/cpu.c:288-304 | the S immediate decodes to the encoded value, for any other fields |
| Encoding.ImmBRoundTrip | src/cpu/cpu.c:321-346 | the B immediate decodes to the encoded value, for any other fields |
| Encoding.ImmURoundTrip | src/cpu/cpu.c:351-363 | the U immediate decodes to the encoded value, for any other fields |
| Encoding.ImmJRoundTrip | src/cpu/cpu.c:380-405 | the J immediate decodes to the encoded value, for any other fields |
| Encoding.TargetImmediatesAreEven | src/cpu/cpu.c:321-405 | for every word, the decoded B and J immediates are even and within their signed ranges |
| Encoding.ReencodeB | src/cpu/cpu.c:321-346 | for every word, encoding the decoded B immediate and fields gives the word back |
| Encoding.ReencodeJ | src/cpu/cpu.c:380-405 | for every word, encoding the decoded J immediate and fields gives the word back |
| Exactness.DispatchIsExact | src/cpu/cpu.c:47-643 | over all words: a handler other than the illegal one is selected exactly if the word encodes an instruction or is a reserved W shift |
| Exactness.Reencode | src/cpu/cpu.c:455-643 | an accepted word that is not reserved is the encoding of the instruction it disassembles to, and is dispatched to that instruction's handler |
| Exactness.ReservedShiftRuns | src/cpu/cpu.c:512-520 | a reserved W shift selects the handler, registers and shift amount of the word with bit 25 clear |
| Exactness.HandlerGetsItsFormat | src/cpu/cpu.c:455-643 | a handler is only ever given the record its own decoder filled in, so its cast of the `void` argument is right |
| Decoder.FieldValues | src/cpu/cpu.c:407-453 | each decoded field is the bit field of the word it stands for |
| Decoder.ImmBValue | src/cpu/cpu.c:306-346 | the B immediate as signed arithmetic on the word's fields |
| Decoder.ImmJValue | src/cpu/cpu.c:365-405 | the J immediate as signed arithmetic on the word's fields |
| Dispatch.HandlerTable.constructor | src/cpu/cpu.c:26-266 | after both initialisers every slot of both tables holds what `FormatAt` and `HandlerAt` say |
| Dispatch.HandlerTable.InitHandlers | src/cpu/cpu.c:64-266 | every slot of the handler table ends as `HandlerAt` says: no registration undoes an earlier one |
| Dispatch.HandlerTable.InitDecoders | src/cpu/cpu.c:47-62 | every slot of the decoder table ends as `FormatAt` says: the thirteen registered opcodes have their format, every other one the default |
| Decoder.DontCares | src/cpu/cpu.c:64-266 | func7 selects nothing outside the register and shift groups, nor func3 for LUI, AUIPC and JAL; shifts and register operations with another func7 than 0 or 32 and unregistered opcodes are illegal |
| Dispatch.HandlerTable.Fill | src/cpu/cpu.c:1742-1755 | the nested loops set every slot to the illegal handler |
| Dispatch.HandlerTable.Register | src/cpu/cpu.c:1757-1787 | exactly the slots selected by opcode, func3 and func7 change, to the handler |
| Helper.BitmaskFromBitSize | src/helper/helper.c:31-40 | the loop yields the number whose bit k is set exactly for k below the size |
| Helper.ExtractBitsIsField | src/helper/helper.c:43-55 | shift and mask extract the bit field as quotient and remainder |
| Helper.RepeatBitInNum | src/helper/helper.c:58-68 | for any byte, bit k of the result is set exactly if bit k of the number or of some shifted copy of the byte is; for a single bit, every bit from the start is replaced by ones, or nothing changes |
| Helper.RepeatBitIsSignExtension | src/helper/helper.c:58-68 | repeating the top bit of an n-bit value is its two's-complement value modulo 2^64 |
| Helper.SignExtendU32IsSigned | src/helper/helper.c:13-17 | the 32-bit sign extension is the signed value modulo 2^64 |
| Helper.NarrowSignExtensionIsIdentity | src/helper/helper.c:19-29 | on values that fit, the 16-bit and 8-bit helpers change nothing, and so extend the sign exactly when it is clear |
| Helper.NarrowSignExtension | src/helper/helper.c:19-29 | on any word the 16-bit and 8-bit helpers return it if bit 31 is clear, and else fill every bit above 15 or 7 |
| Helper.SraLoop | src/cpu/cpu.c:881-898 | the 64-bit shift loop computes the floor of the signed value over 2^shamt |
| Helper.SrawLoop | src/cpu/cpu.c:932-949 | the 32-bit shift loop computes the floor of the signed 32-bit value over 2^shamt |
| Helper.SraComposes | src/cpu/cpu.c:1175-1191 | two 64-bit arithmetic shifts compose to one by the sum, capped at 63 |
| Helper.SrawComposes | src/cpu/cpu.c:1258-1275 | two 32-bit arithmetic shifts compose to one by the sum, capped at 31 |
| Words.BitwiseBit | src/cpu/cpu.c:1045-1091 | every bit of the digit-by-digit operators is the operator on the operands' bits |
| Words.WordBits | src/cpu/cpu.c:1045-1091 | bit k of the AND, OR and XOR of two words is 1 exactly if both, at least one, or exactly one of the operands' bits k is |
| Words.BitsDetermine | src/cpu/cpu.c:1045-1091 | two words with the same bits are equal, so the bits leave no freedom |
| Words.Conversions | src/cpu/cpu.c:710-1291 | the conversions between widths and signs are residues: the result differs from the argument by a multiple of the modulus and lies in its range |
| DeviceMap.AdmittedIff | src/sysbus/sysbus.c:138-155 | a range is admitted exactly if every mapped range wraps, or is separated from it by an address, or is strictly contained in it; a new range that wraps needs its base and its wrapped end clear of the mapped one. Admission keeps the family accepted |
| DeviceMap.AdmittedIsComparison | src/sysbus/sysbus.c:146-154 | admission end by end: neither the base nor the end modulo 2^64 lies in a mapped range, its end included |
| DeviceMap.DisjointIff | src/sysbus/sysbus.c:138-155 | accepted ranges are pairwise disjoint exactly if no later one contains an earlier one |
| DeviceMap.SharedIsNested | src/sysbus/sysbus.c:138-155 | of two accepted ranges that share an address, the later covers all that the earlier covers |
| DeviceMap.AcceptedMayOverlap | src/sysbus/sysbus.c:146-154 | two accepted ranges that overlap |
| DeviceMap.FirstMatchIsInnermost | src/sysbus/sysbus.c:92-108 | every range that covers an address contains the one the address is routed to, strictly unless that one wraps |
| DeviceMap.RoutesAreStable | src/sysbus/sysbus.c:162 | mapping another device does not re-route a mapped address |
| DeviceMap.WriteIsFlat | src/sysbus/sysbus.c:48-78 | a byte write into the routed device updates exactly one address of the flat memory |
| DeviceMap.WritePresentable | src/sysbus/sysbus.c:48-78 | a byte written to a mapped address leaves a memory that accepted devices present |
| DeviceMap.MappingExtends | src/sysbus/sysbus.c:157-164 | mapping a device keeps every mapped byte and adds exactly its own range |
| DeviceMap.FlatIs | src/sysbus/sysbus.c:92-108 | an address is mapped exactly if some device covers it, and its byte is that of the first such device at the offset from its base |
| DeviceMap.CoversIsInterval | src/sysbus/sysbus.c:24-46 | the in-bounds comparison is membership in [base, base + length), or in [base, base + 1) if the end wraps |
| SystemBus.Sysbus.Step | src/sysbus/sysbus.c:80-116 | at an unmapped address nothing changes; at a mapped one `writedata` is put there if `memwrite` is set, then `readdata` is the byte there, no other byte and no other line changes, and only the routed device's array is written; every access is inside its array |
| SystemBus.Sysbus.DoIoWithDev | src/sysbus/sysbus.c:48-78 | the write, if asked for, and then the read of the device an address is routed to refine `BusStep` |
| SystemBus.Sysbus.FlatMemoryIs | src/sysbus/sysbus.c:36-46 | on the device objects: the byte of an address is that of the first device whose base it is, or whose base it exceeds and whose end it does not reach |
| Machine.BusStepIs | src/sysbus/sysbus.c:48-116 | the flat view of a bus step: unchanged if unmapped, else write and read back |
| SystemBus.Sysbus.MemoryMap | src/sysbus/sysbus.c:118-165 | 0 exactly if the range is admitted, and then the device is last in the list and the caller's pointer is null; otherwise ENOMEM and nothing changes |
| SystemBus.Sysbus.MappedBytesStay | src/sysbus/sysbus.c:157-164 | on the device objects: mapped bytes keep their address and value, and the new range joins |
| SystemBus.Sysbus.MemoryIsPresentable | src/sysbus/sysbus.c:118-165 | the memory of a bus object is one that accepted devices present |
| SystemBus.IoDev.Write | src/io_devs/io_dev_memory/io_dev_memory.c:40-45 | exactly one byte of the device changes |
| SystemBus.IoDev.Read | src/io_devs/io_dev_memory/io_dev_memory.c:46-52 | the byte at the offset |
| LinkedList.Append | src/helper/linkedlist.c:7-25 | the two spines are concatenated, the new node's `prev` is the old last node and that node's `next` the new node, the caller's pointer is nulled, and only the last node's `next` and the new node's `prev` are written |
| LinkedList.ListLinks | src/helper/linkedlist.h:3-8 | in any list neighbours point at each other and both ends are null |
| LinkedList.LinkedIsList | src/helper/linkedlist.h:3-8 | nodes linked in that way are a list |
| LinkedList.GetAt | src/helper/linkedlist.c:149-164 | the node at an index, null past the end, the head for a negative index |
| LinkedList.GetTail | src/helper/linkedlist.c:218-236 | the last node, or null |
| LinkedList.Node.constructor | src/helper/linkedlist.c:27-48 | a single node with null links that holds the datum |
| LinkedList.SpineIsDistinct | src/helper/linkedlist.h:3-8 | a null-terminated chain has no node twice |
| LinkedList.SpineIsUnique | src/helper/linkedlist.h:3-8 | the head determines the sequence of nodes |
| CpuObject.MachineMainLoop | src/machine/machine.c:18-37 | the nested loops over the heap make exactly the cycles of `Run`, and end by halting or trapping exactly when the run does; if some sequence of instructions leads to an ending word in at most `fuel` cycles, they end so, in the state it leads to |
| CpuObject.RunFollowsTraces | src/machine/machine.c:18-37 | a loop that has made `fuel` cycles, or ended before, agrees in its exit and its final state with every sequence of instructions that leads to an ending word in that many |
| CpuObject.StallAndFetch | src/machine/machine.c:2-17 | the fetch loop terminates and makes the first five cycles of `Run` |
| CpuObject.Cpu.constructor | src/cpu/cpu.c:663-686 | the initial core: every register and flag zero |
| CpuObject.Cpu.SetRegister | src/cpu/cpu.c:1789-1804 | computes `Machine.SetRegister`; the index is within the register file |
| CpuObject.Cpu.ReadMem | src/cpu/cpu.c:1580-1641 | computes `Machine.ReadMem` on offset, stall flag, bus lines and result |
| CpuObject.Cpu.ReadTyped | src/cpu/cpu.h:450-460 | computes `Machine.ReadTyped`: the result truncated to its type |
| CpuObject.Cpu.WriteMem | src/cpu/cpu.c:1668-1699 | computes `Machine.WriteMem` on offset, stall flag and bus lines |
| CpuObject.Cpu.AdvancePc | src/cpu/cpu.c:1730-1740 | computes `Machine.AdvancePc` |
| CpuObject.Cpu.Decode | src/cpu/cpu.c:693-703 | field extraction, the decoder of the opcode and the table lookups, run with their loops, yield `SelectHandler` and `DecodeFields` |
| Decoding.Field | src/helper/helper.c:31-55 | the mask loop and the extraction give the bit field as quotient and remainder |
| Decoding.ImmediateI | src/cpu/cpu.c:270-281 | extraction and sign loop compute `DecodeImmI` |
| Decoding.ImmediateS | src/cpu/cpu.c:288-304 | extraction and sign loop compute `DecodeImmS` |
| Decoding.ImmediateB | src/cpu/cpu.c:321-346 | extraction and sign loop compute `DecodeImmB` |
| Decoding.ImmediateU | src/cpu/cpu.c:351-363 | extraction and sign loop compute `DecodeImmU` |
| Decoding.ImmediateJ | src/cpu/cpu.c:380-405 | extraction and sign loop compute `DecodeImmJ` |
| Decoding.Record | src/cpu/cpu.c:455-643 | the decoder of each format fills in the record `DecodeFields` |
| CpuObject.Cpu.ImmValue | src/cpu/cpu.c:710-949 | the immediate handlers with their loops compute `AluImmValue` |
| CpuObject.Cpu.RegValue | src/cpu/cpu.c:978-1291 | the register handlers with their loops compute `AluRegValue` |
| CpuObject.Cpu.ExecLoad | src/cpu/cpu.c:1394-1514 | computes `Machine.ExecLoad`: accumulator, `rd`, offset and bus lines |
| CpuObject.Cpu.ExecStore | src/cpu/cpu.c:1516-1578 | computes `Machine.ExecStore` |
| CpuObject.Cpu.ExecControl | src/cpu/cpu.c:1093-1392 | computes the jump and branch cases of `Machine.ExecHandler` |
| CpuObject.Cpu.ExecHandler | src/cpu/cpu.c:710-1578 | computes `Machine.ExecHandler` for every handler |
| CpuObject.Cpu.Step | src/cpu/cpu.c:688-708 | computes `Machine.StepCpu`, or reports the trap with nothing changed |
| CpuObject.Cpu.Fetch | src/cpu/cpu.c:1721-1728 | one typed 4-byte read call at the pc |

## Left out

- CpuObject.MachineMainLoop: takes a bound on the turns of the outer loop, which in C may run for ever. Its `FollowsTraces` clause says that the bound is immaterial for a program that ends, once it is at least the cycles of that program.
- Faithfulness.FaithfulIff: is stated over boundary states in which the bytes of the instruction and, for a load, of its operand are mapped. An unmapped read returns the byte left on the bus, for which the standard has no counterpart.
- Runs.EndsIff: is stated for runs that read nothing unmapped, for the same reason: what an unmapped fetch or load returns does not depend on the instruction-set state alone. `MainLoop.NextBoundary` covers those too.
- Helper.BitmaskFromBitSize: sizes up to 31, because a larger `int` shift is undefined in C. The callers use at most 20.
- SystemBus.Sysbus.MemoryMap: assumes a device that is not empty, of fewer than 2^64 bytes, and whose array is not another device's. The C code checks none of these; an access to an empty device is outside its array.
- SystemBus.Sysbus.Step: memory devices only. The null read and write function pointers of other devices are not modelled; no such device exists.
- SystemBus.Sysbus.DoIoWithDev: the null checks on those pointers, for the same reason.
- LinkedList.Node.constructor: a null datum, the `free_data` pointer with the ownership of the datum, and the nulling of the caller's pointer (which `Sysbus.MemoryMap` models) are not part of it.
- CpuObject.Cpu.constructor: the default register file of 33 entries and one shared, non-null bus. `cpu_opt` with another size, a null `ref_sysbus` and allocation failure are not modelled.
- The offsets of `read_mem` and `write_mem` are unbounded naturals and the two flags booleans. `Invariant.ReachableInv` keeps the offsets within 1 to 8 while an access is stalled. Shifts by a negative or too large count, undefined in C, yield 0 and do not occur in reachable states.
- The statics of the C functions are fields of the CPU, so two CPUs in one process, which would share them, are not modelled.
- Return codes of `read_mem`, `write_mem` and the decoders, logging, dumping, and the heap allocation of decoded instructions.
- `illegal_instruction_handler` is a terminal trap state; its output and process exit are not modelled.
- FENCE, ECALL, EBREAK, the CSR instructions and the M extension: unregistered, so they trap like any illegal word. Misaligned-target exceptions are a TODO in the code.
- `io_devs_step`, `linked_list_free`, `linked_list_clone`, `linked_list_replace_at`, `linked_list_remove_node` and the `push_front` pair: the machine does not use them.
- The command line (src/cli/cli.c): the model starts from an initial CPU and a bus.
