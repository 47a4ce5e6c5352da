# ARM instruction-set simulator: model and proofs

This project models the instruction core of the ARMv5 simulator in `arm_simulator-1.4`: registers and
CPSR, byte-addressed memory in two byte orders, flags and conditions, the barrel shifter, the sixteen
data-processing instructions, single, half-word and multiple transfers, branches, and the step that
fetches, checks the condition and dispatches.

The repository is unfinished work whose code often departs from its own comments and from the ARM
Architecture Reference Manual (DDI 0100) it quotes. The model therefore has two layers.

- **The source.** Functions and classes named after the C functions do what the C does, with its
  narrowing, its exchanged arguments and its dropped results. `Core` holds the objects that are updated
  in place (`MemoryData`, `RegistersData`, `ArmCore`); each method is proved to have the effect of a function on
  the value of the state, and the theorems are about those functions.
- **The reference.** Functions starting with `Arm` (`ArmAlu`, `ArmShiftRegister`, `ArmPasses`,
  `ArmTransfer`, `ArmBranchLink`, `ArmStep`, ...) are what the comments and the manual describe. The
  properties the simulator is for are proved of them in full: multi-word arithmetic, compare-then-test, the
  refinement of bit-by-bit shifting, control bits over whole runs. (The methods of the class `ArmCore` keep the
  C functions' names, `arm_` included: they are the source, all but `ArmLoadStoreMultiple`, `LoadRegisters` and
  `StoreRegisters`, which follow the C loops with repaired operands.)

What each machine does with an instruction is also stated of the word as a number, put together from field
values, without the decoding functions: `Encodings`, `OperandEncodings`, `TransferEncodings`.

A lemma ending in `Iff` says exactly when a function of the source meets its description, in terms of what
it starts with: operands in `OperandLimits`, transfers in `TransferLimits` and `MultipleLimits`, whole
instructions in `InstructionLimits`, steps and runs in `StepLimits`. `Departures` gives a concrete input for each way listed below in which it does not. Memory
under the bound test named below, byte reversal, `set_1_bit`, the carry and borrow tests and the branch
displacement need no repair: their properties are proved of the code directly. Nor do the register count
and the address ranges of LDM and STM when r15 is not listed; when it is, `CountsAllIff`, `InitAddressesIff` and
`WrittenBackIff` say what goes wrong.

| file | contents |
|---|---|
| `Words.dfy` | 32-bit words as bounded integers, C's shift and bitwise operators, arithmetic lemmas |
| `Memory.dfy` | digits, byte reversal, accesses, agreement of widths, histories of writes |
| `Flags.dfy` | carry, borrow, overflow, bit update, flag update, conditions |
| `Shifter.dfy` | the barrel shifter against one-bit steps, and the source's narrowed version |
| `OperandLimits.dfy` | exactly when that operand is the manual's, for every encoding and register content |
| `Registers.dfy`, `DataProcessing.dfy` | the state; the sixteen operations, compare-then-test |
| `MultiWord.dfy` | addition, subtraction and comparison over any number of limbs |
| `LoadStore.dfy`, `TransferLimits.dfy` | single transfers; their round trips and exactly when they are the manual's |
| `LoadStoreMultiple.dfy`, `MultipleLimits.dfy` | multiple transfers, push and pop; what the manual's leave |
| `Stack.dfy` | well-nested calls |
| `Branch.dfy`, `Instruction.dfy` | branches; fetch, condition gate, dispatch, runs of both machines |
| `InstructionLimits.dfy`, `StepLimits.dfy` | exactly when instructions, steps and runs are the manual's |
| `Debugger.dfy` | the continue command |
| `Encodings.dfy`, `OperandEncodings.dfy`, `TransferEncodings.dfy` | words put together from field values, and their effect in both machines |
| `StackWords.dfy` | well-nested calls as the STM and LDM words they are made of |
| `Core.dfy` | the objects updated in place |
| `Departures.dfy` | concrete inputs on which the source breaks a promise |

Conventions, where C leaves something open:

- A shift by 32 of a 32-bit operand, undefined in C, is taken to move every bit out (`asr` and `ror` by 0 are
  then the identity). Signed shifts that overflow wrap around.
- A local that the source may read uninitialised (a refused load, the shifter carry of ROR #0) is a
  parameter named `stale`; a new memory has arbitrary contents.
- The bound test is `address/4 < size`. The source accepts `address/4 == size` too, which is outside the
  buffer it allocates; `Memory.SourceBoundTest` says that this is the only difference.
- There are sixteen registers; the source declares fifteen and uses r15. A register number of 16 or more, which only
  the four tests pass, reads `stale`.
- The host is little-endian, as `reverse_endianess` supposes when it copies bytes.

Departures that are modelled as they are in the code: `set_1_bit` results dropped in `write_flags`; the four
tests passing it their result for a register number, and `update_flags` called with two arguments exchanged
(neither has an effect while those results are dropped; `TestRegisterIff` and `ExchangedIff` say when each would);
flags computed from a re-read source register;
`~` on flags; the addition overflow test; LS; operands cut to 8 and 16 bits and shift amounts taken from register
numbers; ASR saturation; RRX empty; rotations cut to 16 bits; SBC and RSC off by two; scaled offsets by the
special #0; loads that always write back, register-offset stores that never do and addresses that ignore P;
r15 not counted in a list; a bound test that lets one word too many through; a failed
condition that resets the machine; a link register 4 too large; immediates with bits 7 and 4 set dispatched as
half-word transfers. The LDM / STM decoding, which always yields an empty list, is `CodeMultiple`; the count, the
address formula, the loops and the final check are modelled with the fields, the
writeback and the transfer operands that the comments describe, and the reference machine dispatches them.

## Model

| member | source | states |
|---|---|---|
| Memory.ReverseEndianess | arm_simulator-1.4/memory.c:58-83 | the byte-copy loop yields the number whose base-256 digits (1, 2 or 4 of them, as `taille` selects) are reversed |
| Memory.ReverseBytesInvolution | arm_simulator-1.4/memory.c:58-83 | reversing twice gives back the value modulo its width, for any width |
| Memory.AcceptedStaysInWord | arm_simulator-1.4/memory.c:96-98 | an access with an accepted address and alignment lies in one aligned word and inside the buffer |
| Memory.AcceptedIff | arm_simulator-1.4/memory.c:96-98 | an access is accepted exactly when it lies in one aligned word of the buffer; a half-word may start at an odd byte |
| Memory.SourceBoundTest | arm_simulator-1.4/memory.c:33-40 | of the accesses the source's `address/4 > size` test lets through, those inside the 4*size bytes are exactly those with address/4 != size |
| Memory.ReadByteAssembles | arm_simulator-1.4/memory.c:85-94 | a byte read returns the addressed byte |
| Memory.ReadHalfAssembles | arm_simulator-1.4/memory.c:96-107 | a half read returns the two addressed bytes, assembled in the memory's byte order |
| Memory.ReadWordAssembles | arm_simulator-1.4/memory.c:109-118 | a word read returns the four addressed bytes, assembled in the memory's byte order |
| Memory.WriteByteLayout | arm_simulator-1.4/memory.c:120-127 | a byte write replaces exactly that byte |
| Memory.WriteHalfLayout | arm_simulator-1.4/memory.c:129-140 | a half write replaces exactly two bytes, by the digits of the value in the byte order |
| Memory.WriteWordLayout | arm_simulator-1.4/memory.c:142-155 | a word write replaces exactly four bytes, by the digits of the value in the byte order |
| Memory.WriteThenRead | arm_simulator-1.4/memory.c:109-155 | write then read of any accepted width is the identity on the low bits, in both byte orders; every other byte is unchanged |
| Memory.WordIsTwoHalves | arm_simulator-1.4/memory.c:96-118 | a word read is the two half reads combined in the byte order |
| Memory.HalfIsTwoBytes | arm_simulator-1.4/memory.c:85-107 | a half read is the two byte reads combined in the byte order |
| Memory.WordIsFourBytes | arm_simulator-1.4/memory.c:85-118 | a word read is the four byte reads combined in the byte order |
| Memory.WordWriteIsTwoHalfWrites | arm_simulator-1.4/memory.c:129-155 | a word write is the two half writes, in either order |
| Memory.HalfWriteIsTwoByteWrites | arm_simulator-1.4/memory.c:120-140 | a half write is the two byte writes |
| Memory.WordWriteIsFourByteWrites | arm_simulator-1.4/memory.c:120-155 | a word write is the four byte writes of its digits |
| Memory.HistoryByte | arm_simulator-1.4/memory.c:120-155 | after any sequence of writes each byte is what the last accepted write covering it gave, or its initial value |
| Memory.ReadAfterHistory | arm_simulator-1.4/memory.c:85-155 | after any sequence of writes a read of any width assembles the bytes last given to its addresses |
| Flags.CarryExact | arm_simulator-1.4/arm_data_processing.c:113-118 | `carryFrom` holds iff the integer sum is at least 2^32, in spite of its signed temporary |
| Flags.BorrowExact | arm_simulator-1.4/arm_data_processing.c:101-103 | `borrowFrom` holds iff the integer difference is negative |
| Flags.OverflowOfDifferenceExact | arm_simulator-1.4/arm_data_processing.c:127-132 | the subtraction test holds iff the signed difference leaves [-2^31, 2^31) |
| Flags.OverflowOfSumExactIff | arm_simulator-1.4/arm_data_processing.c:127-132 | the addition test, as written, decides signed overflow exactly when the operands' signs differ |
| Flags.OverflowOfSumIntended | arm_simulator-1.4/arm_data_processing.c:127-132 | with the sign inequality that is meant the addition test is exact |
| Flags.FoldedCarryExactIff | arm_simulator-1.4/arm_data_processing.c:186-206 | adding C to the operand first gives the three-operand carry except at operand 0xFFFFFFFF with C = 1 |
| Flags.FoldedOverflowExactIff | arm_simulator-1.4/arm_data_processing.c:186-206 | adding C to the operand first loses the signed overflow exactly at operand 0x7FFFFFFF with C = 1 |
| Flags.SetOneBitBits | arm_simulator-1.4/arm_data_processing.c:52-58 | `set_1_bit` sets exactly the named bit and keeps the other 31 |
| Flags.SetOneBitCommutes | arm_simulator-1.4/arm_data_processing.c:52-58 | updates of two different bits commute |
| Flags.NegatedBorrowCollides | arm_simulator-1.4/arm_data_processing.c:160 | the byte `~borrow` is the leave-alone value iff there is no borrow, and never a bit value |
| Flags.WriteFlagsExact | arm_simulator-1.4/arm_data_processing.c:76-83 | the update that is meant: N, Z from the result, C and V unless kept, bits 27..0 unchanged, all four together |
| Flags.WriteFlagsAgreesIff | arm_simulator-1.4/arm_data_processing.c:76-83 | `write_flags` as written (results dropped) performs that update exactly when every flag already has its value |
| Flags.CondAgreesIff | arm_simulator-1.4/arm_instruction.c:32-89 | the condition check decides each condition as section A3.2.1 of the ARM Architecture Reference Manual says, except LS exactly when C and Z are equal |
| Flags.CondPairs | arm_simulator-1.4/arm_instruction.c:32-89 | of conditions 2k and 2k+1 exactly one passes; in the source HI and LS only when C and Z differ |
| Shifter.RegisterShiftIsIterated | arm_simulator-1.4/arm_instruction.c:104-169 | for every type and amount, 0, 32 and beyond included, the one-shot result and carry-out are those of that many one-bit shifts |
| Shifter.ImmediateShiftIsIterated | arm_simulator-1.4/arm_instruction.c:170-214 | the same for immediate amounts, #0 meaning 32 for LSR and ASR |
| Shifter.RrxValue | arm_simulator-1.4/arm_instruction.c:206-208 | the RRX that the comment names is the 33-bit rotation through the carry; when the empty branch of the source comes to the same is part of OperandLimits.CodeShiftImmediateIff |
| Shifter.RotatedImmediateIsIterated | arm_simulator-1.4/arm_instruction.c:217-226 | a rotated immediate is that many one-bit rotations; with a nonzero rotation the carry-out is bit 31 of the result |
| Shifter.AsrFormula | arm_simulator-1.4/util.c:26-28 | `asr` is the quotient with the vacated bits filled by the sign |
| Shifter.RorFormula | arm_simulator-1.4/util.c:30-32 | `ror` puts the low bits on top of the quotient |
| Shifter.CodeImmediateShiftNarrows | arm_simulator-1.4/arm_instruction.c:170-214 | by an immediate the source computes the manual's shift of the low byte of Rm, cut to 16 bits, for every encoding but RRX |
| Shifter.CodePlainRegisterIff | arm_simulator-1.4/arm_instruction.c:173-177 | a plain register operand is right exactly when the register holds a byte |
| Shifter.CodeRegisterShiftIff | arm_simulator-1.4/arm_instruction.c:104-169 | given one amount, by a register the source is the manual's shift of the low byte, cut to 16 bits, exactly for LSL, LSR, ASR below 32, and ROR below 16 modulo 32 or of zero (amounts and registers as they are: OperandLimits.CodeShiftRegisterIff) |
| OperandLimits.CodeShiftImmediateIff | arm_simulator-1.4/arm_instruction.c:170-214 | for every type, amount n and 32-bit Rm, the value is the manual's exactly when: LSL, no bit of Rm above those that survive the cuts stays in the word; LSR and ASR, Rm < 2^max(8, n) (#0: always, and for a positive Rm); ROR, Rm is a byte whose rotation fits 16 bits (#0, the empty branch: C is clear and the leftover field is Rm / 2). The carry-out exactly when the bit shifted out is in the low byte or clear |
| OperandLimits.CodeImmediateShiftRefinesIff | arm_simulator-1.4/arm_instruction.c:170-214 | exactly there it refines the bit-by-bit shift of the whole register, #0 meaning 32 |
| OperandLimits.CodeRotatedImmediateIff | arm_simulator-1.4/arm_instruction.c:217-226 | a rotated immediate b, rotated by n, is right exactly when n = 0, or n < 16 and the low n bits of b are clear, or n >= 16 and b < 2^(n - 16); its carry exactly when n = 0 or the bit that ends up on top is clear |
| OperandLimits.CodeShiftRegisterIff | arm_simulator-1.4/arm_instruction.c:104-169 | for every type, Rm, Rs and register fields, the shift by k = Rd * 16 + so / 256 that the source makes is the manual's shift by m = Rs mod 256 exactly under conditions on k, m and Rm; LSR and ASR with k above m, or at least 8, are right exactly when Rm < 2^m, and ASR never for a negative Rm |
| OperandLimits.CodeRegisterCarryIff | arm_simulator-1.4/arm_instruction.c:104-169 | and its carry-out exactly when the bits of Rm that the two amounts select agree |
| OperandLimits.CodeAmountIff | arm_simulator-1.4/arm_instruction.c:104-169 | a source amount k made of register numbers is right in place of the manual's m for every byte in Rm exactly when: LSL, k = m <= 8, or k >= 16 and m >= 32; LSR, k = m, or both at least 8; ASR, the same with k below 32; ROR, k a multiple of 16 and m of 32 |
| OperandLimits.OperandIff | arm_simulator-1.4/arm_instruction.c:91-231 | the operand of any data-processing instruction, and its carry-out, are the manual's exactly under the two conditions of its class, in terms of its fields, Rm, Rs and C |
| DataProcessing.CodeValueIff | arm_simulator-1.4/arm_data_processing.c:134-326 | on the same operand the destination value is the manual's exactly for every operation but SBC and RSC, which are off by two |
| DataProcessing.FlagsThroughHelpers | arm_simulator-1.4/arm_data_processing.c:158-182 | the flag definitions of the comments coincide with the helper functions on two operands |
| DataProcessing.AdcCarryExact | arm_simulator-1.4/arm_data_processing.c:186-206 | for every 16-bit operand ADC's carry test is the carry of the three-operand sum |
| DataProcessing.RereadFlagsIff | arm_simulator-1.4/arm_data_processing.c:153-185 | with Rd = Rn the re-read source gives the right carry for ADD exactly when rn + 2 so does not wrap, and the right borrow for SUB exactly when rn >= 2 so |
| DataProcessing.RereadCarryIff | arm_simulator-1.4/arm_data_processing.c:153-242 | for all six arithmetic operations the re-read leaves the byte for C as it was exactly: ADD, ADC when rn + 2 (so + c) does not wrap; SUB when rn >= 2 so; SBC under a condition of the same kind; RSB and RSC always |
| DataProcessing.RereadOverflowIff | arm_simulator-1.4/arm_data_processing.c:153-242 | and the byte for V exactly: the sums when they do not wrap; SUB and SBC unless a negative rn gives a positive result; RSB and RSC unless so < rn for a positive rn |
| DataProcessing.LogicalBits | arm_simulator-1.4/arm_data_processing.c:134-326 | bit by bit the logical operations are the boolean functions of their names, C is the shifter's carry, V is kept |
| DataProcessing.DataProcessFrame | arm_simulator-1.4/arm_instruction.c:235-307 | no data-processing instruction of the source changes CPSR, memory or a register other than Rd |
| DataProcessing.DestinationIff | arm_simulator-1.4/arm_data_processing.c:134-326 | given an operand for each, the destination is the manual's exactly when the operands are equal; for AND and BIC, when they agree where Rn has a bit set; for ORR, where it has one clear; for SBC and RSC, when they differ by the two that the source is off |
| DataProcessing.DataProcessAgreesIff | arm_simulator-1.4/arm_instruction.c:235-307 | every data-processing instruction, in every state, has the manual's effect exactly when its destination agrees (OperandLimits.OperandIff where it needs the same operand, else DestinationIff on the two operands) and, if it sets flags, they have their values already |
| DataProcessing.CutOperandIff | arm_simulator-1.4/arm_instruction.c:235-307 | for an immediate (cut to 16 bits) and a plain register (cut to 8) the destination agrees exactly when: AND and BIC, Rn is clear where a lost bit is set; ORR, Rn has the lost bits; SBC and RSC, never; the others, no bit is lost |
| DataProcessing.CodeRegisterInstruction | arm_simulator-1.4/arm_instruction.c:235-307 | the source's instruction on a plain register: the operation on the low byte of Rm, written to Rd, and nothing else |
| DataProcessing.TestRegisterIff | arm_simulator-1.4/arm_data_processing.c:284-326 | if set_1_bit kept its results, the four tests, which pass their result for a register number, would be right exactly when the register of that number (or what lies beyond the file) has the sign of the result and is zero with it |
| DataProcessing.ExchangedIff | arm_simulator-1.4/arm_data_processing.c:66-83 | and the exchanged S and Rdest would be right exactly when the flags of r0, wrongly written for r1 without S, and those of Rd, not written for S into another register, have their values already |
| DataProcessing.ArmDataProcessingFrame | arm_simulator-1.4/arm_data_processing.c:66-83 | the intended instruction keeps CPSR bits 27..0, and all of CPSR unless S-suffixed (Rd not r15) or a test |
| DataProcessing.RegisterInstruction | arm_simulator-1.4/arm_instruction.c:235-307 | the intended instruction on a plain register: operation, destination and flags, and nothing else |
| DataProcessing.CmpInstruction | arm_simulator-1.4/arm_data_processing.c:298-308 | the intended CMP sets the comparison flags of Rn and Rm and changes nothing else |
| DataProcessing.CompareThenTest | arm_simulator-1.4/arm_data_processing.c:298-308 | after CMP a, b the conditions EQ/NE, HS/LO, HI/LS, GE/LT, GT/LE decide the integer comparisons, unsigned and signed |
| DataProcessing.CompareThenCodeTest | arm_simulator-1.4/arm_instruction.c:32-89 | with the source's condition check on those flags every comparison is decided, except that LS never passes: wrong exactly when a <= b |
| MultiWord.AddChain | arm_simulator-1.4/arm_data_processing.c:175-206 | an ADDS / ADCS chain over any number of limbs leaves exactly A + B with C as outgoing carry |
| MultiWord.AddChainOverflow | arm_simulator-1.4/arm_data_processing.c:175-206 | its final V is the signed overflow of the whole sum |
| MultiWord.SubChain | arm_simulator-1.4/arm_data_processing.c:153-227 | a SUBS / SBCS chain leaves A - B modulo 2^(32n) |
| MultiWord.SubChainCarry | arm_simulator-1.4/arm_data_processing.c:153-227 | its final C is set iff A >= B, unsigned |
| MultiWord.SubChainSigned | arm_simulator-1.4/arm_data_processing.c:153-227 | its final N differs from V iff A < B in two's complement, and V is the signed overflow |
| MultiWord.MultiWordCompare | arm_simulator-1.4/arm_instruction.c:32-89 | after the chain HS, LO, GE and LT decide the order of the two multi-word numbers |
| MultiWord.CodeChainIff | arm_simulator-1.4/arm_data_processing.c:175-206 | the source's ADD / ADC chain on 16-bit limbs leaves the true limbs exactly when every carry between limbs equals the carry flag it never updates |
| MultiWord.CodeSubChainIff | arm_simulator-1.4/arm_data_processing.c:153-227 | the source's SUB / SBC chain leaves the true limbs exactly when there is at most one: each SBC is one, two or three off |
| MultiWord.ProgramIsChain | arm_simulator-1.4/arm_instruction.c:235-307 | executing the intended instructions of a chain one after another on registers, whose destinations no later one reads, leaves the chain's limbs in them and its flags in CPSR; other registers and memory are unchanged |
| MultiWord.ProgramAdds | arm_simulator-1.4/arm_data_processing.c:175-206 | so an ADDS / ADCS program leaves the sum of the numbers in its source registers, with C as the carry out |
| MultiWord.ProgramSubtracts | arm_simulator-1.4/arm_data_processing.c:153-227 | and a SUBS / SBCS program their difference, with HS, LO, GE and LT deciding their order |
| MultiWord.CodeProgramIsChain | arm_simulator-1.4/arm_instruction.c:235-307 | executed by the source the same program leaves the source's chain on the low bytes of its second operands, every flag as it was, other registers and memory unchanged |
| MultiWord.CodeProgramAddsIff | arm_simulator-1.4/arm_data_processing.c:175-206 | so its ADDS / ADCS program leaves what the intended one leaves exactly when the second operands are bytes and every carry between limbs is the C it starts with, and the right C exactly when the carry out is that C too |
| MultiWord.CodeProgramSubtractsIff | arm_simulator-1.4/arm_data_processing.c:153-227 | and its SUBS / SBCS program exactly for one limb and a byte |
| LoadStore.TransfersKeep | arm_simulator-1.4/arm_load_store.c:29-157 | single transfers keep CPSR, the memory's size and its byte order |
| LoadStore.StoreThenLoad | arm_simulator-1.4/arm_load_store.c:29-157 | of the intended transfers: for every width and every pair of addressing forms, a store then a load at the same effective address yields the stored value truncated to the width; memory elsewhere is unchanged |
| LoadStore.StrThenLdr | arm_simulator-1.4/arm_load_store.c:132-157 | the source's own helpers make the same round trip; the value survives exactly when Rd is not Rn or it equals the address |
| LoadStore.PostIndexedPair | arm_simulator-1.4/arm_load_store.c:43-67 | of the intended transfers: post-indexing up then down by the same offset restores the base modulo 2^32 |
| LoadStore.CodeScaledIff | arm_simulator-1.4/arm_load_store.c:97-103 | the scaled offset is the manual's exactly unless the amount is the special #0 of LSR, ASR or ROR on a register it would change |
| LoadStore.CodeAddressIff | arm_simulator-1.4/arm_load_store.c:105-116 | the accessed address is the manual's exactly when P = 1 or the offset is zero |
| LoadStore.PreIndexedAgrees | arm_simulator-1.4/arm_load_store.c:111-126 | pre-indexed transfers with an immediate offset are exactly the manual's |
| TransferLimits.CodeStoreThenLoad | arm_simulator-1.4/arm_load_store.c:75-157 | arm_load_store itself: a store then a load of the same width at the same moved address, from any state with that memory; the value is in Rd exactly when Rd is not Rn or it equals the address, Rn holds the address, memory elsewhere is unchanged |
| TransferLimits.HalfStoreThenLoad | arm_simulator-1.4/arm_load_store.c:29-72 | arm_load_store_h itself: the same for half-words; the value survives exactly when the load does not write back over Rd or it equals the address |
| TransferLimits.CodePair | arm_simulator-1.4/arm_load_store.c:75-130 | arm_load_store itself: up then down by the same offset restores the base exactly when both write it back, or neither does, or the offset is zero |
| TransferLimits.HalfPair | arm_simulator-1.4/arm_load_store.c:29-72 | arm_load_store_h itself: the same, with the writeback bits |
| TransferLimits.SameStoreIff | arm_simulator-1.4/memory.c:120-155 | storing one value at two addresses leaves the same memory exactly when the addresses are equal, or both are refused or hold it already, or (half-words that overlap at odd addresses) all the bytes concerned are equal |
| TransferLimits.CodeWritebackIff | arm_simulator-1.4/arm_load_store.c:75-157 | what is left in the base register is the manual's, for every transfer and state, exactly when: both write back and the offsets agree; one does and its offset leaves the base alone; neither does; or, where the manual loads into the base, the value is the source's address |
| TransferLimits.HalfLeavesIff | arm_simulator-1.4/arm_load_store.c:29-72 | exactly when arm_load_store_h leaves given registers and no other change: the written ones have the loaded value or the address, the others are kept, and a store is refused or finds its value there |
| TransferLimits.WordLeavesIff | arm_simulator-1.4/arm_load_store.c:75-157 | the same for arm_load_store |
| TransferLimits.ArmTransferLeavesIff | arm_simulator-1.4/arm_load_store.c:29-157 | the same for the intended transfers of every width |
| TransferLimits.HalfAgreesIff | arm_simulator-1.4/arm_load_store.c:29-72 | every half-word transfer, in every state, has the manual's effect exactly when the memory at the two addresses says so: same value loaded, or same memory left, or the base equal to the loaded value where it is written over it |
| TransferLimits.TransferAgreesIff | arm_simulator-1.4/arm_load_store.c:75-157 | every word and byte transfer, offset, pre- or post-indexed, has the manual's effect exactly under the same conditions and when the base it leaves is the manual's |
| TransferLimits.HalfAgrees | arm_simulator-1.4/arm_load_store.c:29-72 | so half-word transfers are right whenever P = 1 or the offset is zero, but for a load over a base that is written back |
| LoadStoreMultiple.NumberOfRegisters | arm_simulator-1.4/arm_load_store.c:159-173 | the loop returns the number of listed registers among r0..r14 |
| LoadStoreMultiple.CountIsCardinality | arm_simulator-1.4/arm_load_store.c:159-173 | the count is the cardinality of the list's bit set |
| LoadStoreMultiple.CountAdditive | arm_simulator-1.4/arm_load_store.c:159-173 | and additive over disjoint lists |
| LoadStoreMultiple.CountsAllIff | arm_simulator-1.4/arm_load_store.c:161 | it counts the whole list exactly when r15 is not in it |
| LoadStoreMultiple.InitAddressesIff | arm_simulator-1.4/arm_load_store.c:175-196 | start and end address are those of section A5.4 of the ARM Architecture Reference Manual exactly when r15 is not listed or that end does not depend on the count |
| LoadStoreMultiple.EndOfRange | arm_simulator-1.4/arm_load_store.c:175-196 | in all four modes end = start + 4 * count - 4 modulo 2^32 |
| LoadStoreMultiple.ModesInvert | arm_simulator-1.4/arm_load_store.c:175-196 | mode 3 - m from the written-back base covers the same block and writes the original base back |
| LoadStoreMultiple.StoreLoopFrame | arm_simulator-1.4/arm_load_store.c:237-243 | the store loop ends one word past the last slot and changes no byte outside the slots of the listed registers |
| LoadStoreMultiple.StoreLoopStores | arm_simulator-1.4/arm_load_store.c:237-243 | each listed register i whose slot, start + 4 * (listed registers below i), is accepted is stored there |
| LoadStoreMultiple.LoadLoopLoads | arm_simulator-1.4/arm_load_store.c:220-227 | each listed register is loaded from that address, the others and memory are unchanged, and the loop ends one word past the last slot |
| LoadStoreMultiple.SlotsDisjoint | arm_simulator-1.4/arm_load_store.c:220-243 | different registers have disjoint slots, even when addresses wrap around |
| LoadStoreMultiple.FinalCheckNeverFires | arm_simulator-1.4/arm_load_store.c:232-247 | for every list, mode and direction the final check against end_address passes |
| LoadStoreMultiple.LoadedPc | arm_simulator-1.4/arm_load_store.c:228-231 | a listed r15 is loaded from the word after the others, bit 0 cleared |
| LoadStoreMultiple.TransferKeeps | arm_simulator-1.4/arm_load_store.c:199-250 | a multiple transfer keeps CPSR, the memory's size and its byte order |
| LoadStoreMultiple.TransferIsArmMultipleIff | arm_simulator-1.4/arm_load_store.c:175-250 | with r15 not listed, the transfer with the source's count and addresses is the manual's LDM / STM exactly unless it stores, where that slot is accepted, a base that it also writes back |
| LoadStoreMultiple.UpwardLoadIsArmMultiple | arm_simulator-1.4/arm_load_store.c:175-231 | with r15 listed too, for a load that counts up without writeback |
| LoadStoreMultiple.WrittenBackIff | arm_simulator-1.4/arm_load_store.c:159-219 | the base written back from the source's count is the manual's exactly when r15 is not listed |
| LoadStoreMultiple.PushEffect | arm_simulator-1.4/arm_load_store.c:175-248 | what a push leaves: the written-back base, the registers in their slots, memory unchanged outside them |
| LoadStoreMultiple.PopUndoesPush | arm_simulator-1.4/arm_load_store.c:175-248 | STM in mode m, then LDM in mode 3 - m from any state that kept the base and the pushed words, restores the listed registers and the base and changes nothing else |
| LoadStoreMultiple.PushThenPop | arm_simulator-1.4/arm_load_store.c:175-248 | back to back they restore all registers and flags, and memory outside the pushed words |
| LoadStoreMultiple.CodeMultipleDoesNothing | arm_simulator-1.4/arm_load_store.c:199-250 | as decoded by the source the list is empty for every instruction: no transfer, result 0 |
| LoadStoreMultiple.CodeAgreesIff | arm_simulator-1.4/arm_load_store.c:199-250 | a push or pop as the source decodes it has the effect and result of the transfer it encodes exactly when it lists nothing |
| Stack.CallsRestore | arm_simulator-1.4/arm_load_store.c:175-248 | any well-nested sequence of pushes, overwritten registers, inner calls and pops with room for its depth restores every register and the flags, and touches memory only in its stack |
| StackWords.WordsAreCalls | arm_simulator-1.4/arm_load_store.c:175-248 | executing the STM and LDM words of the calls, one by one through the condition gate, is executing the calls |
| StackWords.WordsRestore | arm_simulator-1.4/arm_load_store.c:175-248 | so the words of well-nested calls restore every register, the flags, and memory outside the stack |
| Branch.ExtendIsDisplacement | arm_simulator-1.4/arm_branch_other.c:45-52 | OR-ing 0x3F000000 and shifting left by 2 is 4 times the two's-complement field modulo 2^32 |
| Branch.DisplacementRange | arm_simulator-1.4/arm_branch_other.c:45-52 | the displacements are exactly the multiples of 4 in [-2^25, 2^25 - 4] |
| Branch.TargetReachedOnce | arm_simulator-1.4/arm_branch_other.c:45-55 | each target in that window is reached, by exactly one field value |
| Branch.BranchAgreesIff | arm_simulator-1.4/arm_branch_other.c:30-57 | the jump is always the manual's; the whole instruction is exactly when it does not link |
| Branch.LinkIsOneWordLate | arm_simulator-1.4/arm_branch_other.c:39-43 | the link is 4 larger than the address of the next instruction |
| Instruction.FetchReadsAhead | arm_simulator-1.4/arm_core.c:68-91 | at an aligned r15 the fetch takes the word there, moves on one word, and the instruction reads its own address plus 8 |
| Instruction.FetchAnywhere | arm_simulator-1.4/arm_core.c:68-140 | from any r15: 4 is added and bit 1 cleared, and the word before that address is fetched |
| Instruction.StepCpsr | arm_simulator-1.4/arm_instruction.c:358-387 | a step of the source returns 1 and resets exactly when its condition fails, and keeps CPSR otherwise |
| Instruction.RunCpsr | arm_simulator-1.4/arm_instruction.c:380-387 | over a run CPSR is the reset value if some condition failed, and unchanged otherwise |
| Instruction.RunKeepsControlBitsIff | arm_simulator-1.4/arm_instruction.c:380-387 | the source keeps bits 27..0 over a run exactly when no condition fails in it or they have the reset value already |
| Instruction.ArmStepCpsr | arm_simulator-1.4/arm_data_processing.c:66-83 | an intended step keeps bits 27..0, and changes bits 31..28 only at an S-suffixed or test instruction whose condition passed |
| Instruction.ArmRunKeepsControlBits | arm_simulator-1.4/arm_instruction.c:336-387 | bits 27..0, the memory's size and its byte order never change in any intended run |
| Instruction.ReachableAccessesInside | arm_simulator-1.4/memory.c:96-155 | in every state reachable by either machine an accepted access lies in one word of the original buffer |
| InstructionLimits.SelectBody | arm_simulator-1.4/arm_instruction.c:336-378 | the source executes an instruction alike under every condition field |
| InstructionLimits.DispatchIff | arm_simulator-1.4/arm_instruction.c:336-356 | a type-0 instruction has the effect of the class it is meant for exactly unless it is data processing on an immediate with bits 7 and 4 set and the half-word transfer it is run as does not happen to write the value meant |
| MultipleLimits.MultipleLeavesIff | arm_simulator-1.4/arm_load_store.c:199-250 | exactly when the manual's LDM or STM leaves given registers and no other change, register by register and slot by slot |
| MultipleLimits.CodeMultipleIff | arm_simulator-1.4/arm_load_store.c:199-250 | so any LDM or STM as the source decodes it is the manual's exactly when that leaves every register and slot as it is |
| InstructionLimits.InstructionIff | arm_simulator-1.4/arm_instruction.c:235-356 | every instruction, in every state, has the manual's effect exactly when the condition of its class holds |
| InstructionLimits.CodeLeavesIff | arm_simulator-1.4/arm_instruction.c:235-356 | exactly when an instruction of the source leaves given registers and no other change, class by class, from the state it starts with |
| InstructionLimits.ArmLeavesIff | arm_simulator-1.4/arm_instruction.c:235-356 | the same for the intended instruction, and exactly when it leaves a given status register |
| InstructionLimits.CodePcIs | arm_simulator-1.4/arm_instruction.c:235-356 | r15 after any instruction of the source, class by class |
| StepLimits.FailedStepAgreesIff | arm_simulator-1.4/arm_instruction.c:373-387 | where both find the condition failed, the source's step is the manual's exactly in a reset machine about to wrap to address 0 |
| StepLimits.StepAgreesIff | arm_simulator-1.4/arm_instruction.c:358-387 | from every state a whole step (fetch, condition, dispatch, execution) is the manual's exactly when its condition passes and the instruction is right; or it fails in such a machine; or LS is misjudged, the instruction leaves r15 zero and nothing else changed, and the status register comes out as the reset value (by class: ArmLeavesIff) |
| StepLimits.RunsAgreeIff | arm_simulator-1.4/arm_instruction.c:358-387 | hence the two machines stay in the same state after every step of a run exactly when each of its steps is so |
| StepLimits.BranchStepAgrees | arm_simulator-1.4/arm_instruction.c:358-387 | a plain branch whose condition passes is executed exactly as the manual says |
| StepLimits.PreIndexedStepAgrees | arm_simulator-1.4/arm_instruction.c:358-387 | so is a pre-indexed immediate transfer whose condition passes |
| StepLimits.ComplementaryPair | arm_simulator-1.4/arm_instruction.c:358-378 | of the intended gate: an instruction that leaves the flags alone, gated by 2k and then 2k+1 (k = 0..6), has the effect of running it once unconditionally |
| StepLimits.CodePairIff | arm_simulator-1.4/arm_instruction.c:358-387 | of the source's gate: the pair always ends with CPSR at its reset value, and has the effect of the instruction alone exactly when CPSR has that value before and: k < 4 (r15 not written), r15 = 0; k = 4 (HI, LS), the instruction leaves r15 zero and nothing else changed (by class: CodeLeavesIff); k = 5, 6, it leaves r15 zero |
| Encodings.EncodingRoundTrip | arm_simulator-1.4/arm_instruction.c:235-356 | assembling a word from condition, type, bits 25 to 20, two registers and twelve bits, and decoding it, are inverse to each other, for all field values and all words |
| Encodings.TransferWords | arm_simulator-1.4/arm_instruction.c:336-356 | in both machines the words c * 2^28 + 0x4000000 + x, x < 2^26, are word and byte transfers |
| Encodings.BranchWords | arm_simulator-1.4/arm_instruction.c:336-356 | those from c * 2^28 + 0xA000000, x < 2^25, are branches |
| Encodings.OtherWords | arm_simulator-1.4/arm_instruction.c:336-356 | those from c * 2^28 + 0xC000000, x < 2^26, change nothing |
| Encodings.TypeZeroWords | arm_simulator-1.4/arm_instruction.c:336-344 | those from c * 2^28, x < 2^26, are half-word transfers where bits 7 and 4 of x are set (in the manual only for x < 2^25), and data processing otherwise |
| Encodings.BranchEffect | arm_simulator-1.4/arm_branch_other.c:30-56 | for every condition, L and displacement d, a multiple of 4 from -2^25 to 2^25 - 4, the assembled word moves r15 to r15 as read plus d in both machines, and sets r14 for L = 1 alone, to r15 as read in the source and to the next instruction in the manual |
| Encodings.MultipleEffect | arm_simulator-1.4/arm_load_store.c:199-250 | the assembled LDM / STM word of any mode, list and base is skipped by the source and is that transfer in the manual |
| Encodings.PushAndPopWords | arm_simulator-1.4/arm_load_store.c:199-250 | a push word and the pop word of the inverse mode are the push and pop of the stack theorems |
| Encodings.StatusNumber | arm_simulator-1.4/arm_data_processing.c:76-93 | the flag update as a number: N, Z, C and V from bit 31 down, bits 27..0 kept, 0xFF leaving C or V alone |
| Encodings.ConditionNumbers | arm_simulator-1.4/arm_instruction.c:32-89 | all sixteen conditions from the top four bits of the status register |
| Encodings.ResetEffect | arm_simulator-1.4/arm_exception.c:33-40 | RESET leaves supervisor mode, ARM state, interrupts and aborts masked, flags clear, r15 zero and nothing else changed; other codes change nothing |
| OperandEncodings.ArmImmediateForms | arm_simulator-1.4/arm_instruction.c:170-214 | the manual's operand of 0x80 n + 0x20 k + m, as bit-by-bit shifts: k = 0 to 3 are LSL, LSR, ASR and ROR by n, #0 meaning 32, 32 and the rotation through the carry |
| OperandEncodings.ArmRegisterForms | arm_simulator-1.4/arm_instruction.c:104-169 | the same with bit 4 set, by Rs mod 256 |
| OperandEncodings.ArmImmediateOperand | arm_simulator-1.4/arm_instruction.c:217-226 | that of 0x100 r + b with I set: b rotated right by 2 r bits one at a time |
| OperandEncodings.CodeImmediateForms | arm_simulator-1.4/arm_instruction.c:170-214 | the source's operand of 0x80 n + 0x20 k + m as a number made of the low byte of Rm, n and k |
| OperandEncodings.CodeRegisterForms | arm_simulator-1.4/arm_instruction.c:104-169 | that of the register forms as a number made of the low byte of Rm and 16 Rd + Rs, 0xFFFF for ASR by 32 and more |
| OperandEncodings.CodeImmediateOperand | arm_simulator-1.4/arm_instruction.c:217-226 | that of a rotated immediate as a number, cut to 16 bits |
| OperandEncodings.ArmArithmetic | arm_simulator-1.4/arm_data_processing.c:153-308 | operations 2 to 7, 10 and 11 by their codes: the result modulo 2^32, C as an integer comparison and V as the range of the signed result |
| OperandEncodings.CodeCarryBytes | arm_simulator-1.4/arm_data_processing.c:153-308 | the byte the source passes for C, for the same operations, as an integer comparison: 1 and 0 for sums, 0xFF and 0xFE for differences |
| OperandEncodings.CodeOverflowBytes | arm_simulator-1.4/arm_data_processing.c:127-308 | and the byte for V, from the ranges of rn and the result |
| OperandEncodings.TestsWriteNothing | arm_simulator-1.4/arm_data_processing.c:284-326 | every instruction with operation 8 to 11 leaves all registers and memory alone in both machines, and the whole state in the source |
| OperandEncodings.ArmDataProcessingEffect | arm_simulator-1.4/arm_instruction.c:235-307 | the whole intended instruction from its field values: operands, destination, and flags for tests and for S with a destination other than r15 |
| OperandEncodings.CodeDataProcessingEffect | arm_simulator-1.4/arm_instruction.c:235-307 | the whole instruction of the source from its field values: the destination unless it is a test, and nothing else |
| TransferEncodings.ImmediateTransferEffect | arm_simulator-1.4/arm_load_store.c:75-157 | LDR, LDRB, STR and STRB with any 12-bit offset, from P, U, B, W, L, Rn and Rd, in both machines: address, width, value, direction and writeback |
| TransferEncodings.ScaledTransferEffect | arm_simulator-1.4/arm_load_store.c:89-157 | the same with Rm shifted by every type and amount for the offset |
| TransferEncodings.HalfTransferEffect | arm_simulator-1.4/arm_load_store.c:29-72 | LDRH and STRH with any 8-bit offset in two nibbles, or Rm, likewise |
| Debugger.StepsIff | arm_simulator-1.4/gdb_protocol.c:156-187 | the continue loop executes exactly the steps before the first breakpoint: a word at the fetch address that is one, or, in the first turn only, an unreadable word and a local that happens to be one |
| Debugger.NoBreakpointExecuted | arm_simulator-1.4/gdb_protocol.c:156-187 | no readable breakpoint is ever executed by it |
| Debugger.BreakpointIff | arm_simulator-1.4/gdb_protocol.c:156-187 | a word is a breakpoint exactly when bits 31 to 20 are 0xE7F and bits 7 to 4 are 0xF |
| Core.MemoryData.constructor | arm_simulator-1.4/memory.c:33-40 | a buffer of 4*size bytes, contents arbitrary |
| Core.MemoryData.ReadByte | arm_simulator-1.4/memory.c:85-94 | the in-place buffer's byte read is the value memory's |
| Core.MemoryData.ReadHalf | arm_simulator-1.4/memory.c:96-107 | the same for half-words |
| Core.MemoryData.ReadWord | arm_simulator-1.4/memory.c:109-118 | the same for words |
| Core.MemoryData.WriteByte | arm_simulator-1.4/memory.c:120-127 | the in-place byte write is the value memory's; 0 on acceptance, -1 on refusal |
| Core.MemoryData.WriteHalf | arm_simulator-1.4/memory.c:129-140 | the same for half-words |
| Core.MemoryData.WriteWord | arm_simulator-1.4/memory.c:142-155 | the same for words |
| Core.ArmCore.constructor | arm_simulator-1.4/arm_core.c:38-49 | a new core has the reset CPSR and program counter 0 over the given memory |
| Core.ArmCore.ReadUsrRegister | arm_simulator-1.4/arm_core.c:83-91 | r15 reads 4 ahead with bit 1 cleared, every other register as stored |
| Core.ArmCore.WriteUsrRegister | arm_simulator-1.4/registers.c:84-86 | writes that register and nothing else |
| Core.ArmCore.WriteFlags | arm_simulator-1.4/arm_data_processing.c:76-93 | reads the register of the number it is given (beyond the file: what lies there), computes the four updates, drops them and writes the old CPSR back |
| Core.ArmCore.UpdateFlags | arm_simulator-1.4/arm_data_processing.c:66-74 | writes the flags iff its S argument is 1 and its Rdest argument is not 15 |
| Core.ArmCore.TraitementAR | arm_simulator-1.4/arm_instruction.c:235-307 | shifter, operation, destination, re-read source and exchanged flag arguments have the effect of `DataProcess` |
| Core.ArmCore.LdrLdrb | arm_simulator-1.4/arm_load_store.c:132-147 | loads and always writes the address to Rn |
| Core.ArmCore.StrStrb | arm_simulator-1.4/arm_load_store.c:149-157 | stores the register or its low byte |
| Core.ArmCore.ArmLoadStore | arm_simulator-1.4/arm_load_store.c:74-130 | a word or byte transfer in place has the effect of `LoadStore` |
| Core.ArmCore.ArmLoadStoreH | arm_simulator-1.4/arm_load_store.c:29-70 | a half-word transfer in place has the effect of `LoadStoreHalf` |
| Core.ArmCore.ArmLoadStoreMultiple | arm_simulator-1.4/arm_load_store.c:199-250 | count, addresses, writeback, loops and final check in place have the effect and result of `Transfer` |
| Core.ArmCore.LoadRegisters | arm_simulator-1.4/arm_load_store.c:220-231 | the load loop in place is the recursive load loop, r15 included |
| Core.ArmCore.StoreRegisters | arm_simulator-1.4/arm_load_store.c:236-243 | the store loop in place is the recursive store loop |
| Core.ArmCore.BBlInstr | arm_simulator-1.4/arm_branch_other.c:30-57 | link and jump in place have the effect of `BranchLink` |
| Core.ArmCore.ArmFetch | arm_simulator-1.4/arm_core.c:129-139 | reads the word at r15 (or leaves CPSR in its place) and advances r15 |
| Core.ArmCore.SelectExecuteInstruction | arm_simulator-1.4/arm_instruction.c:336-356 | dispatches on bits 27..26, 25, 7 and 4 |
| Core.ArmCore.ArmExecuteInstruction | arm_simulator-1.4/arm_instruction.c:358-378 | fetch, condition check, dispatch; 1 when the condition fails |
| Core.ArmCore.ArmException | arm_simulator-1.4/arm_exception.c:33-40 | RESET sets CPSR to 0x1D3 and r15 to 0; other exceptions do nothing |
| Core.ArmCore.ArmStep | arm_simulator-1.4/arm_instruction.c:380-387 | one step in place is one step of the value machine |
| Core.ArmCore.Cont | arm_simulator-1.4/gdb_protocol.c:156-187 | the continue loop in place, breakpoint test and anticipated read included, is the run of its first Steps steps; it reports what the last of them returned |
| Departures.SumOverflow | arm_simulator-1.4/arm_data_processing.c:129 | 1 + 1 is reported as a signed overflow, 2^31 - 1 plus 1 is not |
| Departures.SubtractWithCarry | arm_simulator-1.4/arm_data_processing.c:218 | 5 - 3 with carry set gives 4 by SBC and by RSC |
| Departures.LowerOrSame | arm_simulator-1.4/arm_instruction.c:61-63 | LS does not pass after comparing 1 with 2 |
| Departures.NarrowOperand | arm_simulator-1.4/arm_instruction.c:108-155 | a register holding 256 is read as 0; ASR of a byte by 32 gives 0xFFFF |
| Departures.PostIndexedLoad | arm_simulator-1.4/arm_load_store.c:105-116 | a post-indexed load reads the moved address |
| Departures.ImmediateTakenForTransfer | arm_simulator-1.4/arm_instruction.c:339-344 | MOV r0, #0x90 is run as a half-word store |
| Departures.FailedCondition | arm_simulator-1.4/arm_instruction.c:373-387 | a failed EQ loses the control bits |
| Departures.Link | arm_simulator-1.4/arm_branch_other.c:39-43 | BL at 8 links to 16 |
| Departures.FlagsDropped | arm_simulator-1.4/arm_data_processing.c:60-83 | MOVS r0, #0 does not set Z |
| Departures.ResultForRegister | arm_simulator-1.4/arm_data_processing.c:298-308 | CMP of 5 and 3 passes 2 for a register number: r2 = 0 would set Z |
| Departures.ExchangedArguments | arm_simulator-1.4/arm_data_processing.c:66-74 | the exchanged arguments would make ADDS into r2 leave the flags alone and ADD into r1 set them |
| Departures.RereadSource | arm_simulator-1.4/arm_data_processing.c:175-185 | ADDS r0, r0, r1 with 0xFFFFFFFF and 1 reports no carry |
| Departures.BorrowComplemented | arm_simulator-1.4/arm_data_processing.c:160 | 2 - 1 asks for C to be left alone instead of set |
| Departures.TwoLimbs | arm_simulator-1.4/arm_data_processing.c:153-227 | over two limbs 0xFFFFFFFF + 1 gives 0, and 2^32 - 1 gives 3 * 2^32 - 1 |
| Departures.AmountFromFields | arm_simulator-1.4/arm_instruction.c:98-107 | LSL r2 shifts by 2 whatever r2 holds |
| Departures.RotateThroughCarry | arm_simulator-1.4/arm_instruction.c:206-208 | RRX of 2 gives 0x61, the field itself |
| Departures.RotateBySixteen | arm_simulator-1.4/arm_instruction.c:157-168 | 1 rotated by a register amount of 16 stays 1 |
| Departures.RotatedImmediate | arm_simulator-1.4/arm_instruction.c:217-226 | 0xFF rotated by 8 gives 0 with the carry clear |
| Departures.ScaledByZero | arm_simulator-1.4/arm_load_store.c:97-103 | an offset scaled by LSR #32 is not zero |
| Departures.BaseLeft | arm_simulator-1.4/arm_load_store.c:105-147 | LDR r0, [r1, #4] moves r1, STR r0, [r1, r2]! does not |
| Departures.PcNotCounted | arm_simulator-1.4/arm_load_store.c:159-173 | r15 alone counts as no register |
| Departures.EmptyList | arm_simulator-1.4/arm_load_store.c:199-250 | LDMIA r1!, {r6, r7} is decoded with an empty list |
| Departures.BoundTest | arm_simulator-1.4/memory.c:33-40 | in a memory of one word, address 4 passes the source's bound test |

## Left out

- Banked registers, SPSR, privileged modes and `MRS` / `MSR`; the source stubs them to constants or does not dispatch them.
- Exception vectors other than RESET, `swi`, coprocessor and undefined-instruction stubs: the dispatch ignores their results.
- The gdb server apart from its continue loop, sockets, scanner, traces, cycle counting, IRQ sender and messages.
- Multiplies, swaps and signed or double-word transfers: they share bits 7 and 4 with half-word transfers, the source runs them as LDRH / STRH, and so does the reference.
- Encodings of the four tests without S: the source runs them as tests, and so does the reference.
- LoadStoreMultiple.StoreLoopStores: the address and the register stored are the repaired ones; the cited write uses an uninitialised address and another register, and is unreachable since the decoded list is empty.
- LoadStoreMultiple.LoadLoopLoads: the register and the value loaded are the repaired ones; the cited write takes register contents for an index, and is unreachable likewise.
- Core.ArmCore.ArmLoadStoreMultiple: decoding, writeback and the transfer operands are repaired, as in the two lemmas above; what the cited body does is `CodeMultiple`.
- Core.ArmCore.LoadRegisters: loop control as in the C loop, register and value repaired.
- Core.ArmCore.StoreRegisters: loop control as in the C loop, address and register repaired.
- The T bit that an ARMv5 load into r15 copies to CPSR: there is no Thumb state in the source, which clears bit 0 of the loaded address, and so does the reference.
- Bodies of the LDM / STM transfer loops as written: with the list the source decodes they are never reached (`CodeMultipleDoesNothing`).
- The sixteen `*_instr` functions as separate methods: `TraitementAR` selects the operation through `CodeAlu`, `CodeFlagC` and `CodeFlagV`, which have one case for each.
- Stack.CallsRestore: asks that the stack region does not wrap around address 0; a single push and pop (`PopUndoesPush`) may wrap.
- DataProcessing.DataProcessAgreesIff: for AND, BIC, ORR, SBC and RSC on shifted registers the condition is on the two operands (DestinationIff); on immediates and plain registers it is on the fields and registers (CutOperandIff).
- LoadStoreMultiple.TransferIsArmMultipleIff: with r15 listed only the written-back base is characterised (WrittenBackIff), and upward loads without writeback are right.
- StepLimits.CodePairIff: for k < 4 not about instructions that write r15, which may also read it, so that a reset in front of them changes what they do.
- StepLimits.ComplementaryPair: is about the two gated operations, without the two fetches that would move r15, and so is `CodePairIff`.
- Debugger.StepsIff: a bounded number of turns of the loop, of any size, since the C loop need not end.
- `memory_2.c`, an older memory that the build does not use, and the example programs.
