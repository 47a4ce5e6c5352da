/**
A concrete input for each departure of the source listed in README. The exact conditions are the
lemmas ending in `Iff` of the other modules; these are their witnesses.
 */
module Departures {
  import opened Words
  import opened Flags
  import opened Registers
  import Memory
  import Shifter
  import DataProcessing
  import MultiWord
  import LoadStore
  import TransferLimits
  import LoadStoreMultiple
  import Branch
  import Instruction
  import InstructionLimits

  /** 1 + 1 is reported as a signed overflow; 2^31 - 1 plus 1, which is one, is not. */
  lemma SumOverflow()
    ensures OverflowFrom(1, 1, 2, 1) == 1 && SignedFits(Signed(1) + Signed(1))
    ensures OverflowFrom(0x7FFF_FFFF, 1, 0x8000_0000, 1) == 0 && !SignedFits(Signed(0x7FFF_FFFF) + Signed(1))
  {
    hide Shr;
    SignBit(1); SignBit(2); SignBit(0x7FFF_FFFF); SignBit(0x8000_0000);
  }

  /** 5 - 3 with carry set gives 4, in either direction. */
  lemma SubtractWithCarry()
    ensures DataProcessing.CodeAlu(DataProcessing.SBC, 5, 3, 1) == 4
    ensures DataProcessing.ArmAlu(DataProcessing.SBC, 5, 3, 0, 1).value == 2
    ensures DataProcessing.CodeAlu(DataProcessing.RSC, 3, 5, 1) == 4
    ensures DataProcessing.ArmAlu(DataProcessing.RSC, 3, 5, 0, 1).value == 2
  {
  }

  /** MOVS r0, #0 sets Z in the manual only. */
  lemma FlagsDropped(s: State, stale: Stale)
    requires FlagZ(s.cpsr) == 0
    ensures FlagZ(DataProcessing.DataProcess(s, 0xE3B0_0000, stale).cpsr) == 0
    ensures FlagZ(DataProcessing.ArmDataProcessing(s, 0xE3B0_0000).cpsr) == 1
  {
    hide FlagZ, ArmWriteFlags, DataProcessing.ArmDataProcessing, DataProcessing.DataProcess, DataProcessing.ArmOut;
    DataProcessing.DataProcessFrame(s, 0xE3B0_0000, stale);
    InstructionLimits.ArmDataProcessingWrites(s, 0xE3B0_0000);
    InstructionLimits.ArmOutArguments(s, 0xE3B0_0000);
    ZeroImmediate(s);
    var out := DataProcessing.ArmOut(s, 0xE3B0_0000);
    WriteFlagsExact(s.cpsr, out.value, out.c, out.v);
  }

  lemma ZeroImmediate(s: State)
    ensures DataProcessing.ArmOut(s, 0xE3B0_0000).value == 0
  {
    hide DataProcessing.ArmOperand, ReadReg;
    ZeroOperand(s);
  }

  lemma ZeroOperand(s: State)
    ensures DataProcessing.ArmOperand(s, 0xE3B0_0000).value == 0
  {
    hide Shifter.Ror, ReadReg, FlagC, Shifter.ArmShiftRegister, Shifter.ArmShiftImmediate;
    LoadStore.ShiftByNothing(0);
  }

  /** CMP r0, r1 with 5 and 3 hands over 2: with r2 = 0, kept results of `set_1_bit` would set Z. */
  lemma ResultForRegister(s: State, beyond: Word)
    requires s.regs[2] == 0
    ensures FlagZ(DataProcessing.RepairedFlags(s, 5 - 3, 1, 0, beyond).cpsr) == 1
    ensures FlagZ(ArmWriteFlags(s.cpsr, 5 - 3, 1, 0)) == 0
  {
    hide ArmWriteFlags, FlagZ;
    WriteFlagsExact(s.cpsr, 0, 1, 0);
    WriteFlagsExact(s.cpsr, 2, 1, 0);
  }

  /** The exchanged arguments would make ADDS r2, r3, r4 leave the flags alone, and ADD r1, r3, r4 set
      them. */
  lemma ExchangedArguments(s: State)
    requires s.regs[0] == 0 && s.regs[2] == 0 && FlagZ(s.cpsr) == 0
    ensures DataProcessing.RepairedUpdate(s, 1, 2, 0, 0) == s
    ensures FlagZ(DataProcessing.RepairedUpdate(s, 2, 1, 0, 0).cpsr) == 1
    ensures FlagZ(DataProcessing.RepairedUpdate(s, 0, 1, 0, 0).cpsr) == 1
    ensures DataProcessing.RepairedUpdate(s, 1, 0, 0, 0) == s
  {
    hide ArmWriteFlags, FlagZ;
    WriteFlagsExact(s.cpsr, 0, 0, 0);
  }

  /** ADDS r0, r0, r1 with 0xFFFFFFFF and 1: the carry is computed from the sum, 0, and 1. */
  lemma RereadSource()
    ensures DataProcessing.CodeFlagC(DataProcessing.ADD, Wrap(0xFFFF_FFFF + 1), 1, 0, 0) == 0
    ensures DataProcessing.Sum(0xFFFF_FFFF, 1, 0).c == 1
  {
    DataProcessing.RereadFlagsIff(0xFFFF_FFFF, 1);
    CarryExact(0, 1);
  }

  /** 2 - 1 does not borrow; the source asks for the carry to be left alone instead of set. */
  lemma BorrowComplemented()
    ensures DataProcessing.CodeFlagC(DataProcessing.CMP, 2, 1, 0, 0) == KEEP
    ensures DataProcessing.Difference(2, 1, 0).c == 1
  {
    BorrowExact(2, 1);
  }

  /** Over two limbs, with C clear: 0xFFFFFFFF + 1 gives 0, and 2^32 - 1 gives 3 * 2^32 - 1. */
  lemma TwoLimbs()
    ensures MultiWord.CodeChain(DataProcessing.ADD, DataProcessing.ADC, 0, [0xFFFF_FFFF, 0], [1, 0]) == [0, 0]
    ensures MultiWord.CodeChain(DataProcessing.SUB, DataProcessing.SBC, 0, [0, 1], [1, 0]) == [0xFFFF_FFFF, 2]
    ensures MultiWord.Value([0xFFFF_FFFF, 0]) + MultiWord.Value([1, 0]) == MultiWord.Value([0, 1])
    ensures MultiWord.Value([0, 1]) - MultiWord.Value([1, 0]) == MultiWord.Value([0xFFFF_FFFF, 0])
  {
    hide AndW, OrW, XorW;
    OneLimb(DataProcessing.ADD, DataProcessing.ADC, 0xFFFF_FFFF, 1);
    OneLimb(DataProcessing.SUB, DataProcessing.SBC, 0, 1);
    TwoLimbsOf(DataProcessing.ADD, DataProcessing.ADC, 0xFFFF_FFFF, 0, 1, 0);
    TwoLimbsOf(DataProcessing.SUB, DataProcessing.SBC, 0, 1, 1, 0);
    ValueOfTwo(0xFFFF_FFFF, 0);
    ValueOfTwo(1, 0);
    ValueOfTwo(0, 1);
  }

  lemma OneLimb(first: nat, next: nat, x: Word, y: Half)
    requires first < 16 && next < 16
    ensures MultiWord.CodeChain(first, next, 0, [x], [y]) == [DataProcessing.CodeAlu(first, x, y, 0)]
  {
    hide DataProcessing.CodeAlu;
    assert [x][..0] == [];
  }

  lemma TwoLimbsOf(first: nat, next: nat, x: Word, x': Word, y: Half, y': Half)
    requires first < 16 && next < 16
    ensures MultiWord.CodeChain(first, next, 0, [x, x'], [y, y'])
         == MultiWord.CodeChain(first, next, 0, [x], [y]) + [DataProcessing.CodeAlu(next, x', y', 0)]
  {
    hide DataProcessing.CodeAlu;
    assert [x, x'][..1] == [x] && [y as int, y' as int][..1] == [y as int];
  }

  lemma ValueOfTwo(x: Word, x': Word)
    ensures MultiWord.Value([x, x']) == x + WORD * x'
  {
    assert [x, x'][..1] == [x] && [x][..0] == [];
    assert MultiWord.Base(1) == WORD && MultiWord.Value([x]) == x;
  }

  /** 1 <= 2, but LS does not pass after CMP 1, 2. */
  lemma LowerOrSame(cpsr: Word)
    ensures ArmPasses(DataProcessing.ArmCompare(cpsr, 1, 2), 9)
    ensures CondFailed(DataProcessing.ArmCompare(cpsr, 1, 2), 9) == 1
  {
    hide DataProcessing.ArmCompare, ArmPasses, CondFailed;
    DataProcessing.CompareThenTest(cpsr, 1, 2);
    DataProcessing.CompareThenCodeTest(cpsr, 1, 2, 9);
  }

  /** A register operand of 256 is read as 0, and a byte shifted right arithmetically by 32 as 0xFFFF. */
  lemma NarrowOperand(c: Flag)
    ensures Shifter.CodeShiftImmediate(Shifter.LSL, 256, 0, c, 0, 0).value == 0
    ensures Shifter.ArmShiftImmediate(Shifter.LSL, 256, 0, c).value == 256
    ensures Shifter.CodeShiftRegister(Shifter.ASR, 1, 32, c).value == 0xFFFF
    ensures Shifter.ArmShiftRegister(Shifter.ASR, 1, 32, c).value == 0
  {
    hide Shr;
    Shifter.NoHighBits(1);
  }

  /** MOV r0, r1, LSL r2 with r1 = 1 shifts by 2 whatever r2 holds. */
  lemma AmountFromFields(s: State, stale: Stale)
    requires s.regs[1] == 1
    ensures DataProcessing.CodeOperand(s, 0xE1A0_0211, stale).value == 4
    ensures s.regs[2] == 5 ==> DataProcessing.ArmOperand(s, 0xE1A0_0211).value == 32
  {
    hide Shr, Shifter.Asr, Shifter.Ror, Shifter.ArmShiftImmediate, Shifter.CodeShiftImmediate, FlagC;
    Pow2Values();
  }

  /** MOV r0, r1, RRX with r1 = 2 and C clear: the source leaves the field, 0x61. */
  lemma RotateThroughCarry(stale: Flag)
    ensures Shifter.UpdateShifterOperand(2, 0, 0x61, 0, 0, stale).value == 0x61
    ensures Shifter.ArmShifterOperand(2, 0, 0x61, 0, 0).value == 1
  {
    hide Shl, Shr, Shifter.Asr, Shifter.Ror, Shifter.Rrx;
    Shifter.RrxValue(2, 0);
  }

  /** 1 rotated by a register amount of 16. */
  lemma RotateBySixteen(c: Flag)
    ensures Shifter.CodeShiftRegister(Shifter.ROR, 1, 16, c).value == 1
    ensures Shifter.ArmShiftRegister(Shifter.ROR, 1, 16, c).value == 0x1_0000
  {
    hide Shifter.Ror, Shr;
    Pow2Values();
    Shifter.RorFormula(1, 16);
  }

  /** #0xFF000000, that is 0xFF rotated by 8: the operand is 0 and its carry clear. */
  lemma RotatedImmediate(rm: Word, rs: Word, c: Flag, stale: Flag)
    ensures var code := Shifter.UpdateShifterOperand(rm, 0, 0x4FF, 1, c, stale); code.value == 0 && code.carry == 0
    ensures var arm := Shifter.ArmShifterOperand(rm, rs, 0x4FF, 1, c); arm.value == 0xFF00_0000 && arm.carry == 1
  {
    hide Shifter.Ror, Shr;
    Pow2Values();
    Shifter.RorFormula(0xFF, 8);
    SignBit(0xFF00_0000);
  }

  /** An offset r2, LSR #32 is r2 itself instead of 0. */
  lemma ScaledByZero(c: Flag)
    ensures LoadStore.CodeScaled(Shifter.LSR, 1, 0) == 1
    ensures Shifter.ArmShiftImmediate(Shifter.LSR, 1, 0, c).value == 0
  {
    hide Shr;
    LoadStore.ShiftByNothing(1);
  }

  /** LDR r0, [r1, #4] moves r1; STR r0, [r1, r2]! does not. */
  lemma BaseLeft(s: State, stale: Word)
    requires s.regs[1] == 0 && s.regs[2] == 4
    ensures LoadStore.LoadStore(s, 0xE591_0004, stale).regs[1] == 4
    ensures LoadStore.ArmLoadStore(s, 0xE591_0004, stale).regs[1] == 0
    ensures LoadStore.LoadStore(s, 0xE7A1_0002, stale).regs[1] == 0
    ensures LoadStore.ArmLoadStore(s, 0xE7A1_0002, stale).regs[1] == 4
  {
    hide LoadStore.LoadStore, LoadStore.CodeOffset, LoadStore.ArmOffset, Memory.Read, Memory.Write, AndW;
    FourUp();
    TransferLimits.CodeBaseAfter(s, 0xE591_0004, stale);
    TransferLimits.CodeBaseAfter(s, 0xE7A1_0002, stale);
    OffsetsOfFour(s);
  }

  lemma OffsetsOfFour(s: State)
    requires s.regs[2] == 4
    ensures LoadStore.CodeOffset(s, 0xE591_0004) == LoadStore.ArmOffset(s, 0xE591_0004) == 4
    ensures LoadStore.CodeOffset(s, 0xE7A1_0002) == LoadStore.ArmOffset(s, 0xE7A1_0002) == 4
  {
    hide Shl, Shr, Shifter.Asr, Shifter.Ror, Shifter.Rrx;
    LoadStore.ShiftByNothing(4);
  }

  /** LDR r0, [r1], #4 with r1 = 0 loads the word at 4 instead of the word at 0. */
  lemma PostIndexedLoad(s: State, stale: Word)
    requires s.regs[1] == 0 && s.mem == Memory.Mem([0, 0, 0, 1, 0, 0, 0, 2], true)
    ensures LoadStore.LoadStore(s, 0xE491_0004, stale).regs[0] == 2
    ensures LoadStore.ArmLoadStore(s, 0xE491_0004, stale).regs[0] == 1
  {
    hide Memory.ReadWord, Memory.ReadByte, LoadStore.Moved, LoadStore.StrStrb, Memory.Write, AndW, Rn, Rd, IBit,
      LoadStore.UBit, LoadStore.PBit, LoadStore.WBit, LoadStore.LBit, LoadStore.BBit, LoadStore.CodeOffset,
      LoadStore.ArmOffset;
    TwoWords();
    FourUp();
    PostIndexedFields(s);
  }

  lemma PostIndexedFields(s: State)
    ensures LoadStore.UBit(0xE491_0004) == LoadStore.LBit(0xE491_0004) == 1
    ensures LoadStore.PBit(0xE491_0004) == LoadStore.BBit(0xE491_0004) == IBit(0xE491_0004) == 0
    ensures Rn(0xE491_0004) == 1 && Rd(0xE491_0004) == 0
    ensures LoadStore.CodeOffset(s, 0xE491_0004) == LoadStore.ArmOffset(s, 0xE491_0004) == 4
  {
    hide LoadStore.CodeScaled, Shifter.ArmShiftImmediate;
  }

  lemma FourUp()
    ensures LoadStore.Moved(0, 1, 4) == 4
  {
  }

  lemma TwoWords()
    ensures var m := Memory.Mem([0, 0, 0, 1, 0, 0, 0, 2], true);
            Memory.ReadWord(m, 0) == Some(1) && Memory.ReadWord(m, 4) == Some(2)
  {
    hide Memory.ReverseBytes;
  }

  /** MOV r0, #0x90 is taken for a half-word store at r0 + r0, with writeback to r0. */
  lemma ImmediateTakenForTransfer(s: State, stale: Stale)
    ensures var address := LoadStore.Moved(s.regs[0], 1, s.regs[0]);
            (Instruction.SelectExecute(s, 0xE3A0_0090, stale).0
             == s.(regs := s.regs[0 := address], mem := Memory.WriteHalf(s.mem, address, s.regs[0] % 0x1_0000)))
    ensures Instruction.ArmOperation(s, 0xE3A0_0090, stale) == s.(regs := s.regs[0 := 0x90])
  {
    hide *;
    TakenForStore(s, stale.word);
    MovOperation(s, stale);
    Dispatched(s, stale);
  }

  lemma Dispatched(s: State, stale: Stale)
    ensures Instruction.SelectExecute(s, 0xE3A0_0090, stale).0 == LoadStore.LoadStoreHalf(s, 0xE3A0_0090, stale.word)
  {
    hide LoadStore.LoadStoreHalf, LoadStore.LoadStore, DataProcessing.DataProcess, Branch.BranchLink;
  }

  lemma TakenForStore(s: State, stale: Word)
    ensures var address := LoadStore.Moved(s.regs[0], 1, s.regs[0]);
            (LoadStore.LoadStoreHalf(s, 0xE3A0_0090, stale)
             == s.(regs := s.regs[0 := address], mem := Memory.WriteHalf(s.mem, address, s.regs[0] % 0x1_0000)))
  {
    hide Memory.WriteHalf, Memory.ReadHalf, LoadStore.Moved, And;
  }

  lemma MovOperation(s: State, stale: Stale)
    ensures Instruction.ArmOperation(s, 0xE3A0_0090, stale) == s.(regs := s.regs[0 := 0x90])
  {
    hide LoadStore.ArmLoadStoreHalf, LoadStore.ArmLoadStore, DataProcessing.ArmDataProcessing, Instruction.ArmOperation,
      DataProcessing.ArmOut, InstructionLimits.ArmDestination, Instruction.TypeField,
      Instruction.ArmHalfTransfer, DataProcessing.SetsFlags, Rd, ArmWriteFlags, Branch.ArmBranchLink;
    NinetyFields();
    InstructionLimits.OperationOfBody(s, 0xE3A0_0090, stale);
    InstructionLimits.ArmDataProcessingWrites(s, 0xE3A0_0090);
    NinetyImmediate(s);
  }

  lemma NinetyFields()
    ensures Instruction.TypeField(0xE3A0_0090) == 0 && !Instruction.ArmHalfTransfer(0xE3A0_0090)
    ensures !DataProcessing.SetsFlags(0xE3A0_0090) && Rd(0xE3A0_0090) == 0
  {
  }

  lemma NinetyImmediate(s: State)
    ensures InstructionLimits.ArmDestination(s, 0xE3A0_0090) == 0x90
  {
    hide DataProcessing.ArmOperand, ReadReg;
    NinetyOperand(s);
  }

  lemma NinetyOperand(s: State)
    ensures DataProcessing.ArmOperand(s, 0xE3A0_0090).value == 0x90
  {
    hide Shifter.Ror, ReadReg, FlagC, Shifter.ArmShiftRegister, Shifter.ArmShiftImmediate;
    LoadStore.ShiftByNothing(0x90);
  }

  /** STM of r15 alone: the source counts no register. */
  lemma PcNotCounted()
    ensures LoadStoreMultiple.Count(0x8000, 15) == 0
    ensures |LoadStoreMultiple.Listed(0x8000, 16)| == 1
  {
    hide LoadStoreMultiple.Count;
    Pow2Values();
    BitOfPow2(15, 15);
    LoadStoreMultiple.CountIsCardinality(0x8000, 16);
    LoadStoreMultiple.CountLast(0x8000, 15);
    NoneBelow(15);
  }

  lemma {:induction false} NoneBelow(n: nat)
    requires n <= 15
    ensures LoadStoreMultiple.Count(0x8000, n) == 0
  {
    if n == 0 { return; }
    NoneBelow(n - 1);
    LoadStoreMultiple.CountLast(0x8000, n - 1);
    Pow2Values();
    BitOfPow2(15, n - 1);
  }

  /** LDMIA r1!, {r6, r7} is decoded with an empty list and does nothing. */
  lemma EmptyList(s: State)
    ensures LoadStoreMultiple.CodeDecodedList(0xE8B1_00C0) == 0
    ensures LoadStoreMultiple.CodeMultiple(s, 0xE8B1_00C0) == (s, 0)
    ensures LoadStoreMultiple.Decode(0xE8B1_00C0).list == 0xC0
  {
    LoadStoreMultiple.CodeMultipleDoesNothing(s, 0xE8B1_00C0);
  }

  /** In a memory of one word the source lets address 4 through, the first byte outside. */
  lemma BoundTest(m: Memory.Mem)
    requires |m.bytes| == 4
    ensures !(4 / 4 > m.Size()) && !Memory.Accepts(m, 4, 1)
  {
  }

  /** A failed EQ at address 0 loses the control bits of a user-mode status register. */
  lemma FailedCondition(s: State, stale: Stale)
    requires s.regs[15] == 0 && s.cpsr == 0x10 && s.mem == Memory.Mem([0, 0, 0, 0], true)
    ensures Instruction.Step(s, stale).0.cpsr == Instruction.RESET_CPSR
    ensures Instruction.ArmStep(s, stale).cpsr == 0x10
  {
    ReadPc(s);
    assert Instruction.FetchAddress(s) == 0;
    assert Instruction.Fetched(s) == 0;
    EqFails();
    hide Instruction.Fetched, CondFailed, ArmPasses;
    Instruction.StepCpsr(s, stale);
    Instruction.ArmStepCpsr(s, stale);
  }

  lemma EqFails()
    ensures CondFailed(0x10, 0) == 1 && !ArmPasses(0x10, 0)
  {
    BitIsShift(0x10, Z);
    Pow2Values();
  }

  /** BL at address 8 links to 16 instead of 12; fetching has already moved r15 to 12. */
  lemma Link(s: State)
    requires s.regs[15] == 12
    ensures Branch.BranchLink(s, 0xEB00_0000).regs[14] == 16
    ensures Branch.ArmBranchLink(s, 0xEB00_0000).regs[14] == 12
  {
    hide Branch.Extend;
    Branch.LinkIsOneWordLate(s, 0xEB00_0000);
  }
}
