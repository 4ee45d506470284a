# flux64 in Dafny

flux64 interprets x86-64 programs: a loop decodes the instruction at RIP into a record and executes it over sixteen
general registers, RFLAGS, the MMX and XMM registers and byte memory, after a set-up that builds the initial stack of
the program. This project models that interpreter and proves what its decoder, its arithmetic, its control transfers
and its stack builder guarantee, for every input and over whole runs.

## How the model is laid out

The model has two layers.

* **Values.** `Machine.State` is the machine as a value; memory is a sequence of 2^64 bytes and addresses wrap, as the
  64-bit pointer arithmetic of the source does. `Decoding` is the decoder as a function on bytes, `Operations.Select`
  is the opcode switch of the executor as a function from a record to an operation with its operands, widths and
  immediates, and `Semantics` gives the outcome of an operation and of one turn of the loop. Arithmetic follows the
  macros line by line (wrapped results, sign tests, top-two-bit tricks); the lemmas then say what those tricks mean
  over unbounded integers or bit strings of any length.
* **State changed in place.** `Emulator.Emu` and `Emulator.Instr` are the two structures of the source as classes.
  `Decoder`, `Execution` and `StackSetup` are its loops and assignments as methods over them, each proved to leave
  exactly the state, record and trace that the functions give. So every theorem about the functions is one about the
  methods.

The theorems of the `...ByOpcode` modules and of `OpcodeMaps` are keyed by the numbers of the manual and the ABI (opcodes,
extensions, register and flag numbers, auxiliary types). They do not mention the model's own opcode switch, so they say
what the switch must contain.

| file | content |
|---|---|
| `Words`, `Bits`, `Memory`, `Flags` | words and widths, bit strings, byte memory, RFLAGS and its masks |
| `Alu`, `Shifts`, `Interleaving` | arithmetic, shift, rotate and lane macros and their exact meaning |
| `Instructions`, `Decoding`, `Codec` | the record and opcode maps; the decoder as a function; encoder, unique parsing, lengths |
| `Machine`, `Operations`, `Semantics` | state and addressing; opcode to operation; effect of an operation, one turn of the loop |
| `Comparisons`, `CarryArithmetic`, `MachineShifts`, `Strings`, `Unpacking`, `Addressing` | instruction-level theorems |
| `Manual`, `OpcodeMaps`, `Dispatch`, `ArithmeticByOpcode`, `RegistersByOpcode`, `ShiftsByOpcode`, `StackByOpcode`, `BranchesByOpcode`, `VectorsByOpcode` | the instruction set by opcode, register and flag numbers: what each opcode decodes to and does |
| `Programs`, `FetchUse`, `FlagsInvariant`, `Calls` | theorems from bytes to effects, across decoder and executor, and over runs |
| `Emulator`, `Decoder`, `Execution` | the classes and the imperative decoder, executor and run loop |
| `StackImage`, `StackSetup` | the initial stack as a value with its layout theorem; its builder and the entry state |

The encodings follow the Intel 64 and IA-32 Architectures Software Developer's Manual, Volume 2A, sections 2.1 and 2.2.1;
the meaning of the status flags and conditions follows Volume 1, section 3.4.3.1 and Appendix B; the entry layout
follows the System V AMD64 ABI, section 3.4.1.

## Properties that do not hold of the code

Three properties one would expect are false of the source as written. The code is modelled as it is, and each comes
with the exact condition under which it holds.

* ADC and SBB add or subtract the carry to a value that is then thrown away: the stored result is right exactly when CF
  is clear, and each of CF, OF, SF, ZF and PF exactly under the condition in `CarryArithmetic.AdcFlags` and `SbbFlags`.
  The comments in `src/x64emu/execute_private.h` at lines 179 and 230 say otherwise; `CarryArithmetic.CarryIsLost` gives
  inputs.
* The low interleave overwrites lanes it reads later: it is the interleave exactly for operands whose lower destination
  lanes already hold what it copies over them, so for all operands only with a single lane. The comments in
  `src/x64emu/execute_0f.c` name its uses as the unpack-low instructions; `Unpacking.PunpckldqFails` gives an input.
* With REX.W and 66H together, a 16/32-bit immediate is fetched as two bytes and read as four: its value is right
  exactly when the two bytes are not negative as a 16-bit number; `FetchUse.MixedFails` gives an input.

Also, a byte string and its canonical encoding give the same record but may differ in length, because repeated and ignored
prefixes are dropped, and nothing limits how many prefixes an instruction has: the length bound counts them.

Two smaller points where comments and code disagree and the code is followed: SYSCALL clears all of RFLAGS, the
always-one bit 1 included, so the flags invariant has two phases; and the `rep` field is documented as REP/LOCK but the
decoder rejects LOCK, so it only ever holds F2 or F3.

## Model

| member | source | states |
|---|---|---|
| Bits.ByteParityIsEvenOnes | src/x64emu/execute_private.h:6-11 | the folded parity bit is set exactly for bytes with an even number of ones |
| Alu.AddExact | src/x64emu/execute_private.h:154-169 | at any width: stored sum modulo the word, CF iff the unsigned sum does not fit, OF iff the signed sum does not, SF differs from OF iff the unbounded signed sum is negative, ZF, SF, PF of the result |
| Alu.SubExact | src/x64emu/execute_private.h:201-222 | at any width: stored difference modulo the word, CF iff unsigned borrow, OF iff signed overflow, SF differs from OF iff the signed difference is negative, ZF iff the operands are equal, PF of the result |
| Alu.IncDecExact | src/x64emu/execute_private.h:171-228 | INC and DEC are exact like ADD and SUB of one and preserve CF |
| CarryArithmetic.AdcExactIff | src/x64emu/execute_private.h:177-198 | ADC stores sum plus carry iff the carry is clear |
| CarryArithmetic.SbbExactIff | src/x64emu/execute_private.h:230-249 | SBB stores difference minus borrow iff the carry is clear |
| CarryArithmetic.AdcFlagsIff | src/x64emu/execute_private.h:177-198 | for each of CF, OF, SF, ZF and PF after ADC, the exact condition on operands and old flags under which it is the architecture's |
| CarryArithmetic.SbbFlagsIff | src/x64emu/execute_private.h:230-249 | the same five conditions for SBB |
| CarryArithmetic.AdcSbbOnMachine | src/x64emu/execute.c:236-264 | executed ADC and SBB, any operands: the stored word, when it is the architecture's, and the five flag conditions |
| CarryArithmetic.CarryIsLost | src/x64emu/execute_private.h:177-249 | concrete operands on which executed ADC and SBB ignore the carry |
| Shifts.RolRorAreRotations | src/x64emu/execute_private.h:19-34 | with 59-71: ROL and ROR rotate bit strings of any length; CF is the bit carried around, OF at count one the XOR of the manual |
| Shifts.RolLaws | src/x64emu/execute_private.h:59-71 | ROR undoes ROL by the same count, and ROL counts add modulo the length |
| Shifts.RclRcrRotateWithCarry | src/x64emu/execute_private.h:73-87 | RCL and RCR rotate the operand extended by CF, CF being the rotated top bit |
| Shifts.RclRcrInverse | src/x64emu/execute_private.h:73-87 | RCR after RCL by the same count restores operand and CF |
| Shifts.CarryRotateOverflow | src/x64emu/execute_private.h:19-34 | OF after RCL and RCR by one is the XOR the manual gives |
| Shifts.ShlIsMultiplication | src/x64emu/execute_private.h:89-94 | SHL is multiplication by a power of two modulo the word, CF the last bit out |
| Shifts.ShrIsDivision | src/x64emu/execute_private.h:96-101 | SHR is unsigned floor division by a power of two, CF the last bit out |
| Shifts.SarIsSignedDivision | src/x64emu/execute_private.h:103-109 | SAR is signed floor division by a power of two, CF the last bit out |
| Shifts.ShlOverflow | src/x64emu/execute_private.h:38-43 | OF after SHL by one iff the doubled signed operand does not fit |
| ShiftsByOpcode.ShiftsByOpcode | src/x64emu/execute.c:60-107 | C0, C1, D0-D3 with extensions 4 to 7: operand, width, count (immediate byte, one, or CL modulo the length), result as multiplication or floor division, all flags, nothing else changed |
| ShiftsByOpcode.RotatesByOpcode | src/x64emu/execute.c:60-107 | the same opcodes with extensions 0 to 3: undefined exactly outside the listed counts, otherwise the operand, for RCL and RCR with CF on top, rotated, with CF and OF |
| MachineShifts.ShiftsAreArithmetic | src/x64emu/execute.c:60-107 | executed SHL, SHR and SAR with any count source, register or memory operand and width are the multiplication and floor divisions by two to the masked count; CF is the last bit out, SF, ZF and PF are those of the result |
| MachineShifts.ZeroCountKeeps | src/x64emu/execute_private.h:38-51 | a masked count of zero leaves operand and all flags alone |
| MachineShifts.ShiftByOneOverflow | src/x64emu/execute_private.h:38-51 | OF after executed shifts by one: doubling does not fit, operand negative, never |
| MachineShifts.RotatesUndo | src/x64emu/execute.c:60-107 | executing RCL then RCR, or ROL then ROR, restores destination, and CF for the carry forms, wherever the C expressions are defined |
| MachineShifts.BitwiseOnMachine | src/x64emu/execute_private.h:112-143 | executed AND, OR, XOR and TEST, any operands: the result bit by bit, TEST storing nothing, CF and OF clear, SF, ZF and PF those of the result |
| MachineShifts.XorSelfIsZero | src/x64emu/execute_private.h:126-128 | executed XOR of an operand with itself leaves zero there and sets ZF, at every width |
| Memory.ReadWriteApart | src/x64emu/stack_private.h:28-48 | a write leaves reads of disjoint ranges alone |
| Machine.PopPush | src/x64emu/stack_private.h:16-60 | a pop after a push of the same width returns the value and restores every register |
| Codec.DecodeIsLocal | src/x64emu/decode.c:47-266 | verdict, record and consumed length depend only on the bytes consumed, not on position or suffix |
| Codec.AcceptedIsWellFormed | src/x64emu/decode.c:85-266 | every accepted record has zero in each field its encoding does not carry and fits the field sizes it does |
| Codec.DecodeOfEncode | src/x64emu/decode.c:47-266 | decoding the canonical encoding of any well-formed record returns that record and consumes all of it |
| Codec.DecodeOfEncodeInContext | src/x64emu/decode.c:47-266 | the same at any address and before any following bytes |
| Codec.DecodeEncodeDecode | src/x64emu/decode.c:47-266 | decode after encode after decode is decode, for every accepted byte string |
| Codec.PrefixRunMeaning | src/x64emu/decode.c:47-83 | before any text, a run of legacy prefixes sets operand_sz iff 66 occurs, address_sz iff 67 occurs and rep to the last F2/F3 |
| Codec.PrefixOrderIrrelevant | src/x64emu/decode.c:47-83 | reordering prefixes changes nothing as long as the F2/F3 bytes keep their order |
| Codec.AcceptedPrefix | src/x64emu/decode.c:85-266 | the bytes consumed are by themselves an accepted encoding of the same record |
| Codec.SuffixIrrelevant | src/x64emu/decode.c:85-266 | bytes after an instruction change nothing about it |
| Codec.PrefixFree | src/x64emu/decode.c:85-266 | no accepted encoding is a proper prefix of another |
| Codec.UniqueSplit | src/x64emu/decode.c:85-266 | a byte stream splits into instructions in one way only |
| Codec.LengthBound | src/x64emu/decode.c:47-266 | an accepted instruction with p legacy prefixes has at most p + 12 bytes, p + 10 if 66H is among them |
| Codec.LengthBoundAttained | src/x64emu/decode.c:47-266 | for every sequence of legacy prefixes the bound is reached |
| OpcodeMaps.OneByteMapHolds | src/x64emu/decode.c:91-266 | the one-byte map against a 16 by 16 table of characters by opcode number: accepted or not, ModR/M or not, and which immediate |
| OpcodeMaps.TwoByteMapHolds | src/x64emu/decode_0f.c:17-72 | the same for the map after 0F |
| OpcodeMaps.OneByteText | src/x64emu/decode.c:47-266 | any text of prefixes, optional REX, opcode byte and further bytes: accepted iff the table has the opcode; length by table, addressing form and prefixes; a fault iff it stops short; every field of the record |
| OpcodeMaps.TwoByteText | src/x64emu/decode_0f.c:14-72 | the same for 0F and a second opcode byte, the long no-operations included |
| Emulator.Fetch | src/x64emu/decode.c:14-42 | a fetch reads little-endian at RIP, advances RIP, and with tracing on appends exactly those bytes to the trace |
| Decoder.DecodePrefixes | src/x64emu/decode.c:47-83 | the prefix loop ends with the record, opcode byte and RIP of the pure prefix scan |
| Decoder.ModrmFetch | src/x64emu/modrm.c:13-34 | fetches ModR/M, SIB and displacement as the pure decoder does |
| Decoder.FetchImm16Or32Or64 | src/x64emu/decode_private.h:14-18 | the immediate size by REX.W, then 66H, stored into a zeroed field |
| Decoder.OneByteSwitch | src/x64emu/decode.c:91-266 | the one-byte opcode switch fetches what the opcode map says, and fails exactly on opcodes outside it |
| Decoder.TwoByteSwitch | src/x64emu/decode_0f.c:14-72 | the same for the two-byte map |
| Decoder.DecodeInstruction | src/x64emu/decode.c:85-266 | the imperative decoder gives verdict, record and RIP of the pure one, and its trace is the memory slice from start RIP to new RIP |
| Machine.ReadWriteLoc | src/x64emu/modrm.c:99-104 | an operand written at a width reads back at that width, register or memory |
| Addressing.MemoryOperand | src/x64emu/modrm.c:50-104 | every memory operand without 67H, all forms of mod, R/M and SIB, is base + (index << scale) + disp modulo 2^64 of the operand the record spells, or RIP + disp32 |
| Addressing.OperandOfWithAddress | src/x64emu/modrm.c:50-97 | spelling an operand as ModR/M, SIB and displacement and reading it back gives the same base, index, scale and displacement |
| Addressing.IndirectIsSum | src/x64emu/modrm.c:50-97 | the location of a constructed SIB operand is base plus scaled index plus displacement modulo 2^64 |
| Addressing.EveryAddressIsReached | src/x64emu/modrm.c:13-97 | for every optional base, optional index but RSP, scale and displacement there is an instruction encoding whose step computes base plus scaled index plus displacement modulo 2^64 into any register |
| Manual.Numbers | src/x64emu/include/x64flags.h:11-31 | the names the model uses for registers and flags stand for the manual's numbers |
| Manual.RegisterOperand | src/x64emu/modrm.c:99-104 | the r/m operand is the register of the field and REX.B iff mod is 3 |
| Addressing.NullOperand | src/x64emu/modrm.c:71-75 | with 67H a memory operand is the null pointer |
| ArithmeticByOpcode.TwoOperandByOpcode | src/x64emu/execute.c:231-575 | by opcode and extension number, for ADD to CMP, TEST and the moves (00-3D, 63, 80-8B, 98, 99, A8, A9, B0-BF, C6, C7, F6, F7, 0F B6, 0F B7): which operand is destination, what the source is with its sign- or zero-extension, the width, the value stored, the flags, and that nothing else changes |
| RegistersByOpcode.OneOperandByOpcode | src/x64emu/execute.c:151-212 | INC, DEC, NOT and NEG by opcode and extension: value, flags, nothing else |
| RegistersByOpcode.ExchangeByOpcode | src/x64emu/execute.c:335-377 | XCHG by opcode swaps its two operands and nothing else changes |
| RegistersByOpcode.LeaByOpcode | src/x64emu/execute.c:359-367 | LEA stores the address at the operand width |
| RegistersByOpcode.CmovByOpcode | src/x64emu/execute_0f.c:163-166 | CMOVcc by opcode moves iff its condition on numbered flag bits holds |
| RegistersByOpcode.SetccByOpcode | src/x64emu/execute_0f.c:259-263 | SETcc by opcode stores one or zero by its condition |
| RegistersByOpcode.FlagByOpcode | src/x64emu/execute.c:533-557 | CMC, CLC to STD each change one flag bit, by number |
| RegistersByOpcode.NopByOpcode | src/x64emu/execute_0f.c:51-52 | 0F 0D and 0F 18-1F leave the state alone |
| RegistersByOpcode.CpuidByOpcode | src/x64emu/execute_0f.c:265-268 | CPUID clears the low halves of registers 0 to 3 and nothing else |
| RegistersByOpcode.SyscallByOpcode | src/x64emu/syscall.c:13-41 | SYSCALL: RIP and flags saved in registers 1 and 11, flags cleared, then write, exit or stop |
| RegistersByOpcode.RefusedByOpcode | src/x64emu/execute.c:231-575 | opcodes and extensions the decoder accepts and the executor lacks stop the loop with the state unchanged |
| Comparisons.AddSubOnMachine | src/x64emu/execute.c:236-264 | executed ADD and SUB, any operands including one register twice: result, CF, OF, SF, ZF, PF are those of the unbounded integers |
| Comparisons.IncDecOnMachine | src/x64emu/execute.c:188-212 | executed INC and DEC: exact, CF preserved |
| Comparisons.CompareThenCondition | src/x64emu/execute_private.h:201-215 | with 422-443: after CMP each of the sixteen condition codes holds iff its statement about the two integers holds, and only flags change |
| Comparisons.OddConditionsNegate | src/x64emu/execute_private.h:422-443 | every odd condition is the negation of its even partner |
| Comparisons.CompareAndUse | src/x64emu/execute_0f.c:163-263 | after CMP, a conditional jump, byte set and move act in the same, arithmetically stated, case; the target is the next RIP plus the signed low bytes of the immediate modulo 2^64 |
| BranchesByOpcode.CompareThenUse | src/x64emu/execute_private.h:422-443 | CMP by opcode followed by Jcc, SETcc or CMOVcc by opcode: taken, set and moved iff the integer statement of the condition holds, the jump going to the signed distance |
| BranchesByOpcode.BranchByOpcode | src/x64emu/execute.c:307-310 | with 525-531 and execute_0f.c:254-257, from bytes to RIP: Jcc rel8/16/32 and JMP rel8/32 go to the end of the instruction plus the signed value of its last bytes modulo 2^64, iff taken |
| BranchesByOpcode.CallByOpcode | src/x64emu/execute.c:517-523 | CALL rel32 from bytes: the return address is pushed and RIP goes the signed distance on; 67H form included |
| BranchesByOpcode.JumpToByOpcode | src/x64emu/execute.c:220-222 | JMP r/m goes to the eight bytes of its operand |
| BranchesByOpcode.CallToByOpcode | src/x64emu/execute.c:213-219 | CALL r/m pushes the return address and reads the target after the push |
| BranchesByOpcode.ReturnByOpcode | src/x64emu/execute.c:462-475 | RET and RET imm16, 67H form included: RIP popped, RSP moved, nothing else |
| StackByOpcode.PushByOpcode | src/x64emu/execute.c:271-305 | PUSH by opcode: the register or sign-extended immediate stands at the lowered RSP, nothing else changes |
| StackByOpcode.PopByOpcode | src/x64emu/execute.c:280-287 | POP by opcode, to RSP itself and to memory included |
| StackByOpcode.PushfByOpcode | src/x64emu/execute.c:391-396 | PUSHF and PUSHFQ push the flags by bit number |
| StackByOpcode.PopfByOpcode | src/x64emu/execute.c:398-412 | POPF and POPFQ: which flag bits are taken, cleared and kept |
| StackByOpcode.SahfByOpcode | src/x64emu/execute.c:414-418 | SAHF takes five flag bits from bits 8 to 15 of register 0 |
| StackByOpcode.LahfByOpcode | src/x64emu/execute.c:420-423 | LAHF puts them there with bit 1 set, the rest of the register unchanged |
| StackByOpcode.LeaveByOpcode | src/x64emu/execute.c:487-495 | LEAVE, 66H form included |
| Strings.FillAt | src/x64emu/execute_private.h:263-275 | after n stores every byte of memory: covered bytes hold the element pattern, others are unchanged, both directions, wrapping included |
| Strings.RepeatedStore | src/x64emu/execute_private.h:263-275 | REP STOS ends with the count register zero (ECX only under 67H), the counted elements stored, all other registers, flags and bytes unchanged |
| Strings.StosByOpcode | src/x64emu/execute.c:433-443 | AA and AB by opcode and register number, without a repeat prefix one element, with one the counted elements in the direction of flag 10 |
| Strings.CoveredWithoutWrap | src/x64emu/execute_private.h:263-275 | without wrap the covered bytes are exactly the counted elements from the start, upwards or downwards |
| Interleaving.InterleaveHighInPlace | src/x64emu/execute_0f.c:36-40 | for every lane count the in-place loop yields the interleave of the original upper halves, same register included |
| Unpacking.UnpackHigh | src/x64emu/execute_0f.c:110-232 | every executed UNPCKH and PUNPCKH leaves the interleave of the original upper halves of destination and source, same register or memory included, and changes nothing but the destination register |
| Interleaving.InterleaveLowInPlace | src/x64emu/execute_0f.c:30-34 | what the low loop leaves in each lane, same register included |
| Interleaving.LowCorrectIff | src/x64emu/execute_0f.c:30-34 | for given operands the low loop is the interleave iff each lower destination lane already equals the lane the loop copies over it |
| Interleaving.LowAlwaysCorrectIff | src/x64emu/execute_0f.c:30-34 | so it is the interleave for all operands iff there is at most one lane |
| Unpacking.UnpackLow | src/x64emu/execute_0f.c:100-199 | every executed UNPCKL and PUNPCKL leaves the lanes of that loop in the destination register and changes nothing else |
| Unpacking.UnpackLowIff | src/x64emu/execute_0f.c:100-199 | an executed low unpack interleaves the lower halves iff the lanes fit beforehand |
| Unpacking.PunpckldqIff | src/x64emu/execute_0f.c:190-199 | the bytes 66 0F 62 C1 do so iff lane 1 of XMM0 equals lane 0 of XMM1 |
| Unpacking.PunpckldqFails | src/x64emu/execute_0f.c:190-199 | a machine state about to execute those bytes on which the result is not the interleave |
| VectorsByOpcode.CopyByOpcode | src/x64emu/execute_0f.c:54-252 | the vector opcodes that make one copy: which bytes go where, with zero fill, everything else unchanged, aliasing included |
| FetchUse.SelectUsesFetched | src/x64emu/decode.c:85-266 | against execute.c:231-575, every opcode: an executed operation reads a ModR/M operand iff one was fetched (hinting no-operations aside), and reads exactly as many immediate bytes as were fetched unless REX.W and 66H meet |
| FetchUse.FillerIrrelevant | src/x64emu/execute.c:231-575 | outside that combination execution gives the same outcome whatever stands in the unfetched bytes of the record |
| FetchUse.ImmediateValueIff | src/x64emu/execute_private.h:294-324 | the immediate operand is the fetched bytes extended to the operand width iff REX.W and 66H do not meet or the 16-bit value is not negative |
| FetchUse.MixedAdds | src/x64emu/execute.c:252-254 | the bytes 66 48 05 00 80 add 8000H to RAX, where the fetched bytes sign-extended are minus 8000H |
| FetchUse.MixedFails | src/x64emu/decode_private.h:9-12 | a machine state about to execute them on which the result is not that of the fetched immediate |
| FetchUse.RipTracksLength | src/x64emu/execute.c:231-575 | every executed instruction but the control transfers leaves RIP at start plus decoded length |
| FetchUse.RipRelativeOperand | src/x64emu/modrm.c:81-82 | a RIP-relative operand is start plus whole length, immediate included, plus the sign-extended displacement that stands in memory |
| FlagsInvariant.PerformPreservesFlags | src/x64emu/execute.c:391-423 | every instruction but SYSCALL keeps bits 1, 12, 13 and sets no flag outside 0x247FD7; SYSCALL clears all |
| FlagsInvariant.FlagsOverRuns | src/x64emu/syscall.c:13-41 | in every state of every run from start-up, the one left by a refused instruction included, no flag outside 0x247FD7 is set, and bits 1, 12, 13 are all set before the first SYSCALL and all clear after it |
| FlagsInvariant.PushfPopf | src/x64emu/execute.c:391-412 | PUSHFQ then POPFQ restores all registers and every flag but RF, which is cleared |
| FlagsInvariant.LahfSahf | src/x64emu/execute.c:414-423 | LAHF then SAHF leaves every flag as it was |
| Calls.RegisterInstructionsAreQuiet | src/x64emu/execute.c:231-575 | register-only instructions and jumps may stand anywhere between pushes and pops: they keep RSP and the stack words in use |
| Calls.StackHoldsShadow | src/x64emu/execute.c:271-287 | with 470-475 and 517-523: at every point of a disciplined run the words below the starting RSP are the values pushed and not yet popped |
| Calls.MatchingPush | src/x64emu/execute.c:271-287 | every pop of a disciplined run has the push that matches it by nesting |
| Calls.PopsTakeWhatWasPushed | src/x64emu/execute.c:271-287 | a pop takes the word its matching push left and restores RSP |
| Calls.ReturnsLandAfterTheirCalls | src/x64emu/execute.c:470-523 | however deep the nesting, each RET lands on the instruction after its own CALL with RSP as before it |
| Calls.CallThenReturn | src/x64emu/execute.c:470-523 | from bytes to result: wherever E8 and a distance stand and a RET stands that signed distance after them, the two steps are such a disciplined run, go there, and end on the instruction after the CALL with RSP restored |
| Calls.FrameRestored | src/x64emu/execute.c:487-495 | PUSH rbp; MOV rbp,rsp; any body keeping RBP and the saved word; LEAVE: RSP and RBP are restored |
| Execution.ExecStoreString | src/x64emu/execute_private.h:263-275 | the string loop terminates and leaves the state the model gives |
| Execution.ExecuteInstruction | src/x64emu/execute.c:231-575 | executing a decoded instruction in place gives the modelled outcome and state |
| Execution.StepOnce | src/x64emu/emu.c:80-92 | one turn of the loop on the emulator object is one step of the model |
| Execution.TraceRoom | src/x64emu/include/x64instr.h:56-59 | the 25 trace bytes hold every instruction with at most 13 legacy prefixes |
| Execution.Run | src/x64emu/emu.c:78-93 | the run loop, for any given number of turns, is the iterated step |
| Execution.RunHasStates | src/x64emu/emu.c:78-93 | however the loop ends (turns used up, instruction refused, exit, undefined expression) it went through states related by the step, the last being the one it leaves, so the whole-run theorems apply |
| Execution.FlagsAfterRun | src/x64emu/emu.c:78-93 | the state the loop leaves after start-up, by a refused instruction or after any number of turns, has no unknown flag set, and its system bits are set iff no SYSCALL was met |
| StackImage.Accounting | src/x64emu/stack.c:66-148 | the bytes used are strings + 7 + 16 + padding below 16 + 16 per auxiliary pair + 8 (argc + envc + 3); final RSP is 8-aligned, and 16-aligned iff argc + envc is odd |
| StackImage.ImageIsProcessEntry | src/x64emu/stack.c:66-148 | memory holding the image has the entry layout: argc, NULL-terminated argv and envp tables whose pointers designate intact NUL-terminated copies, the auxiliary vector, intact platform string and random bytes |
| StackImage.AuxvMeaning | src/x64emu/stack.c:94-134 | by the ABI's numbers the vector holds exactly 31 file name, 25 random bytes, 15 platform string, 9 entry point, those of 6, 8, 11, 12, 13, 14, 23 the host supplied, and 0 at its end only |
| StackImage.EntryHasVector | src/x64emu/stack.c:115-134 | read back from memory behind the two tables: exactly those entries by number, the file name being the first argument's pointer, the platform string and the random bytes standing where their entries say |
| StackSetup.PushStrings | src/x64emu/stack.c:75-82 | the string loop lays the strings out below the top and collects each one's address |
| StackSetup.PushPointers | src/x64emu/stack.c:136-145 | the reversed pointer loop lays the table out in order |
| StackSetup.PushAlign | src/x64emu/stack_private.h:38-42 | zero bytes down to the next multiple of the alignment |
| StackSetup.Setup | src/x64emu/stack.c:66-148 | the whole builder writes exactly the image between final RSP and stack top and changes nothing else |
| StackSetup.SetupEntry | src/x64emu/stack.c:66-148 | after it memory has the entry layout and that auxiliary vector, and every byte outside is as before |
| StackSetup.Initialize | src/x64emu/emu.c:16-34 | the entry state by register number: flags 1, 12 and 13 set, RIP, argc in register 7, registers 6 and 2 at the two tables, entry layout and auxiliary vector at register 4, other registers and bytes untouched |

## Left out

- Page faults and protection: memory is total, so an access the host would refuse is modelled as succeeding.
- 67H with a memory operand: the source returns a null pointer after logging and the access faults; the model accesses
  address 0.
- A fetch over the last byte of the address space, where RIP would wrap inside an instruction, has the outcome `Undefined`.
- Shift counts for which the C expression is undefined (ROL and ROR by 0 at 32 and 64 bits; RCL and RCR at 32 and 64 bits
  outside the ranges of `Shifts.Defined`) and LEA with a register operand, whose value is a host pointer: outcome `Undefined`.
- Signed overflow in the arithmetic macros and right shifts of negative values are taken to wrap and to be arithmetic.
- Execution.Run: takes the number of turns and one host result per turn, because the source loops until an instruction
  is refused; the value `write` returns is that result, and its output is not modelled.
- StackImage.ImageIsProcessEntry: the host's `getauxval`, `errno` and `random` are inputs; which optional pairs are pushed is
  arbitrary, which covers the `errno` of one lookup still standing at the next.
- StackImage.Accounting: the alignment is the 16 that `src/x64emu/stack.c` line 47 sets; argc is at least 1.
- Calls.ReturnsLandAfterTheirCalls: PUSH and POP of 64-bit registers other than POP rsp, CALL rel32 and RET, without 66H
  or 67H; RET imm16, POP to memory and 16-bit forms change RSP in other ways. Other instructions may come between as
  long as they keep RSP and the stack words in use.
- Execution.ExecuteInstruction: dispatches on `Operations.Select`, the executor's opcode switch as a function, and computes
  results and flags with the functions of `Alu` and `Shifts`, instead of repeating the switch and the macros (what these
  must contain is stated by opcode number in the `...ByOpcode` modules); operands are locations instead of host pointers, so the emulator's own structure cannot be
  written through guest memory.
- Emulator.Emu: guest memory is a sequence held in a field, so a store replaces the field's value.
- AF (computed from the low byte, not the low nibble), the flags of NEG (never set), and the destination of CWD/CDQ/CQO are
  modelled as the code has them; nothing is claimed about them.
- The duplicating vector moves (0F 12 with F2 or F3, 0F 16 with F3) are modelled and executed, without a theorem.
- The ELF loader, mapping and unmapping of memory, reading /proc/self/maps, logging and the printing of traces.
