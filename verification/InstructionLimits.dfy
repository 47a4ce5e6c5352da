/**
Exactly when an instruction of the source is the manual's, class by class, and what each of the two
leaves in the registers.
 */
module InstructionLimits {
  import opened Words
  import opened Flags
  import opened Memory
  import opened Registers
  import opened Instruction
  import Shifter
  import DataProcessing
  import LoadStore
  import LoadStoreMultiple
  import Branch
  import TransferLimits
  import MultipleLimits

  // ----- the condition field -----

  lemma TransferBits(mot: Word)
    ensures var body := mot % 0x1000_0000;
            && IBit(body) == IBit(mot)
            && LoadStore.PBit(body) == LoadStore.PBit(mot) && LoadStore.UBit(body) == LoadStore.UBit(mot)
            && LoadStore.BBit(body) == LoadStore.BBit(mot) && LoadStore.WBit(body) == LoadStore.WBit(mot)
            && LoadStore.LBit(body) == LoadStore.LBit(mot)
  {
    FieldOfBody(mot, 0x200_0000, 2, 4);
    FieldOfBody(mot, 0x100_0000, 2, 8);
    FieldOfBody(mot, 0x80_0000, 2, 0x10);
    FieldOfBody(mot, 0x40_0000, 2, 0x20);
    FieldOfBody(mot, 0x20_0000, 2, 0x40);
    FieldOfBody(mot, 0x10_0000, 2, 0x80);
  }

  lemma TransferRegisters(mot: Word)
    ensures var body := mot % 0x1000_0000;
            && Rn(body) == Rn(mot) && Rd(body) == Rd(mot)
            && LoadStore.Rm(body) == LoadStore.Rm(mot)
            && (body / 0x20_0000) % 16 == (mot / 0x20_0000) % 16
  {
    FieldOfBody(mot, 0x1_0000, 16, 0x100);
    FieldOfBody(mot, 0x1000, 16, 0x1000);
    FieldOfBody(mot, 1, 16, 0x100_0000);
    FieldOfBody(mot, 0x20_0000, 16, 8);
  }

  lemma OffsetFields(mot: Word)
    ensures var body := mot % 0x1000_0000;
            && body % 0x1000 == mot % 0x1000
            && (body / 32) % 4 == (mot / 32) % 4 && (body / 128) % 32 == (mot / 128) % 32
            && (body / 256) % 16 == (mot / 256) % 16
  {
    FieldOfBody(mot, 1, 0x1000, 0x1_0000);
    FieldOfBody(mot, 32, 4, 0x20_0000);
    FieldOfBody(mot, 128, 32, 0x1_0000);
    FieldOfBody(mot, 256, 16, 0x1_0000);
  }

  lemma TransferFields(mot: Word)
    ensures var body := mot % 0x1000_0000;
            && IBit(body) == IBit(mot)
            && LoadStore.PBit(body) == LoadStore.PBit(mot) && LoadStore.UBit(body) == LoadStore.UBit(mot)
            && LoadStore.BBit(body) == LoadStore.BBit(mot) && LoadStore.WBit(body) == LoadStore.WBit(mot)
            && LoadStore.LBit(body) == LoadStore.LBit(mot)
            && Rn(body) == Rn(mot) && Rd(body) == Rd(mot)
            && LoadStore.Rm(body) == LoadStore.Rm(mot)
            && body % 0x1000 == mot % 0x1000
            && (body / 32) % 4 == (mot / 32) % 4 && (body / 128) % 32 == (mot / 128) % 32
            && (body / 256) % 16 == (mot / 256) % 16
            && (body / 0x20_0000) % 16 == (mot / 0x20_0000) % 16
  {
    hide IBit, LoadStore.PBit, LoadStore.UBit, LoadStore.BBit, LoadStore.WBit, LoadStore.LBit,
      Rn, Rd, LoadStore.Rm;
    TransferBits(mot);
    TransferRegisters(mot);
    OffsetFields(mot);
  }

  lemma BranchFields(mot: Word)
    ensures Branch.OffsetField(mot % 0x1000_0000) == Branch.OffsetField(mot)
    ensures Branch.LinkBit(mot % 0x1000_0000) == Branch.LinkBit(mot)
  {
    FieldOfBody(mot, 0x100_0000, 2, 8);
    FieldOfBody(mot, 1, 0x100_0000, 0x10);
  }

  lemma OffsetsOfBody(s: State, mot: Word)
    ensures var body := mot % 0x1000_0000;
            && LoadStore.CodeOffset(s, body) == LoadStore.CodeOffset(s, mot)
            && LoadStore.ArmOffset(s, body) == LoadStore.ArmOffset(s, mot)
            && LoadStore.HalfOffset(s, body) == LoadStore.HalfOffset(s, mot)
  {
    hide ReadReg, LoadStore.BBit, IBit, LoadStore.CodeScaled, Shifter.ArmShiftImmediate,
      Shifter.TypeOf;
    TransferFields(mot);
  }

  /** No transfer looks at the condition field. */
  lemma TransferBody(s: State, mot: Word, stale: Word)
    ensures var body := mot % 0x1000_0000;
            && LoadStore.LoadStore(s, body, stale) == LoadStore.LoadStore(s, mot, stale)
            && LoadStore.LoadStoreHalf(s, body, stale) == LoadStore.LoadStoreHalf(s, mot, stale)
            && LoadStore.ArmLoadStore(s, body, stale) == LoadStore.ArmLoadStore(s, mot, stale)
            && LoadStore.ArmLoadStoreHalf(s, body, stale) == LoadStore.ArmLoadStoreHalf(s, mot, stale)
  {
    hide ReadReg, LoadStore.Moved, LoadStore.PBit, LoadStore.WBit, LoadStore.LBit, Rd, LoadStore.ArmTransfer,
      Rn, IBit, LoadStore.BBit, LoadStore.UBit, LoadStore.LdrLdrb, LoadStore.StrStrb,
      ReadHalf, WriteHalf, LoadStore.CodeOffset, LoadStore.ArmOffset, LoadStore.HalfOffset;
    TransferFields(mot);
    OffsetsOfBody(s, mot);
    ArmTransferBody(s, mot, if LoadStore.BBit(mot) == 1 then 1 else 4, LoadStore.ArmOffset(s, mot), stale);
    ArmTransferBody(s, mot, 2, LoadStore.HalfOffset(s, mot), stale);
  }

  lemma ArmTransferBody(s: State, mot: Word, n: nat, offset: Word, stale: Word)
    requires Width(n)
    ensures LoadStore.ArmTransfer(s, mot % 0x1000_0000, n, offset, stale)
         == LoadStore.ArmTransfer(s, mot, n, offset, stale)
  {
    hide ReadReg, LoadStore.Moved, Read, Write, AndW, LoadStore.PBit, LoadStore.WBit, LoadStore.LBit, Rd,
      Rn, LoadStore.UBit;
    TransferFields(mot);
  }

  lemma DataProcessingFields(mot: Word)
    ensures var body := mot % 0x1000_0000;
            && DataProcessing.OpCode(body) == DataProcessing.OpCode(mot)
            && DataProcessing.SBit(body) == DataProcessing.SBit(mot)
            && IBit(body) == IBit(mot)
            && Rn(body) == Rn(mot)
            && Rd(body) == Rd(mot)
            && body % 0x1000 == mot % 0x1000
  {
    TransferFields(mot);
  }

  /** Nor does data processing. */
  lemma DataProcessingBody(s: State, mot: Word, stale: Stale)
    ensures var body := mot % 0x1000_0000;
            && DataProcessing.DataProcess(s, body, stale) == DataProcessing.DataProcess(s, mot, stale)
            && DataProcessing.ArmDataProcessing(s, body) == DataProcessing.ArmDataProcessing(s, mot)
            && DataProcessing.SetsFlags(body) == DataProcessing.SetsFlags(mot)
  {
    hide ReadReg, DataProcessing.OpCode, DataProcessing.SBit, IBit, Rn, Rd,
      DataProcessing.CodeAlu, DataProcessing.ArmAlu, DataProcessing.CodeFlagC, DataProcessing.CodeFlagV,
      Shifter.UpdateShifterOperand, Shifter.ArmShifterOperand;
    DataProcessingFields(mot);
  }

  lemma BranchBody(s: State, mot: Word)
    ensures var body := mot % 0x1000_0000;
            && Branch.BranchLink(s, body) == Branch.BranchLink(s, mot)
            && Branch.ArmBranchLink(s, body) == Branch.ArmBranchLink(s, mot)
  {
    hide ReadReg, Wrap, Branch.Extend, Branch.Displacement, Branch.OffsetField, Branch.LinkBit;
    BranchFields(mot);
  }

  /** The source executes an instruction alike under every condition that passes. */
  lemma SelectBody(s: State, mot: Word, stale: Stale)
    ensures SelectExecute(s, mot % 0x1000_0000, stale) == SelectExecute(s, mot, stale)
  {
    hide LoadStore.LoadStoreHalf, LoadStore.LoadStore, DataProcessing.DataProcess, Branch.BranchLink, TypeField, IBit,
      HalfTransfer;
    FieldsOfBody(mot);
    TransferBody(s, mot, stale.word);
    DataProcessingBody(s, mot, stale);
    BranchBody(s, mot);
  }

  // ----- data processing -----

  /** The destination after a data-processing instruction of the source. */
  function CodeDestination(s: State, ins: Word, stale: Stale): Word {
    if DataProcessing.IsTest(DataProcessing.OpCode(ins)) then s.regs[Rd(ins)]
    else DataProcessing.CodeAlu(DataProcessing.OpCode(ins), ReadReg(s, Rn(ins)),
                                DataProcessing.CodeOperand(s, ins, stale).value, FlagC(s.cpsr))
  }

  function ArmDestination(s: State, ins: Word): Word {
    if DataProcessing.IsTest(DataProcessing.OpCode(ins)) then s.regs[Rd(ins)]
    else DataProcessing.ArmOut(s, ins).value
  }

  lemma DataProcessWrites(s: State, ins: Word, stale: Stale)
    ensures DataProcessing.DataProcess(s, ins, stale)
         == WriteReg(s, Rd(ins), CodeDestination(s, ins, stale))
  {
    hide Shifter.UpdateShifterOperand, DataProcessing.CodeAlu, DataProcessing.CodeFlagC, DataProcessing.CodeFlagV,
      ReadReg;
    var want := WriteReg(s, Rd(ins), CodeDestination(s, ins, stale));
    assert DataProcessing.DataProcess(s, ins, stale).regs == want.regs;
  }

  /** The manual's writes its result, and its flags if it sets them. */
  lemma ArmDataProcessingWrites(s: State, ins: Word)
    ensures var out := DataProcessing.ArmOut(s, ins);
            (DataProcessing.ArmDataProcessing(s, ins)
             == WriteReg(s, Rd(ins), ArmDestination(s, ins)).(
                  cpsr := if DataProcessing.SetsFlags(ins) then ArmWriteFlags(s.cpsr, out.value, out.c, out.v)
                          else s.cpsr))
  {
    hide Shifter.ArmShifterOperand, DataProcessing.ArmAlu, ReadReg, ArmWriteFlags;
    assert s.regs[Rd(ins) := s.regs[Rd(ins)]] == s.regs;
  }

  /** What a type-0 instruction is meant for. */
  function Intended(s: State, mot: Word, stale: Stale): State {
    if ArmHalfTransfer(mot) then LoadStore.LoadStoreHalf(s, mot, stale.word)
    else DataProcessing.DataProcess(s, mot, stale)
  }

  /** The dispatch does not look at bit 25, so data processing on an immediate that sets bits 7 and 4 is
      run as a half-word transfer. A type-0 instruction has the effect of the one it is meant for exactly
      unless that happens to it and the transfer does not leave what was meant. */
  lemma DispatchIff(s: State, mot: Word, stale: Stale)
    requires TypeField(mot) == 0
    ensures SelectExecute(s, mot, stale).0 == Intended(s, mot, stale)
       <==> (IBit(mot) == 1 && HalfTransfer(mot) ==>
               TransferLimits.HalfLeaves(s, mot, s.regs[Rd(mot) := CodeDestination(s, mot, stale)], stale.word))
  {
    hide LoadStore.LoadStoreHalf, DataProcessing.DataProcess, TransferLimits.HalfLeaves, CodeDestination;
    DataProcessWrites(s, mot, stale);
    TransferLimits.HalfLeavesIff(s, mot, s.regs[Rd(mot) := CodeDestination(s, mot, stale)], stale.word);
  }

  // ----- instructions -----

  predicate FlagsRight(s: State, ins: Word) {
    DataProcessing.SetsFlags(ins) ==> DataProcessing.FlagsSettled(s.cpsr, DataProcessing.ArmOut(s, ins))
  }

  /** When the source executes an instruction as the manual does. It skips LDM and STM, so they must be
      idle. */
  predicate InstructionRight(s: State, mot: Word, stale: Stale) {
    match TypeField(mot)
    case 0 =>
      if ArmHalfTransfer(mot) then TransferLimits.HalfRight(s, mot, stale.word)
      else if HalfTransfer(mot) then
        TransferLimits.HalfLeaves(s, mot, s.regs[Rd(mot) := ArmDestination(s, mot)], stale.word) && FlagsRight(s, mot)
      else DataProcessing.DestinationAgrees(s, mot, stale) && FlagsRight(s, mot)
    case 1 => TransferLimits.TransferRight(s, mot, stale.word)
    case 2 =>
      if IBit(mot) == 1 then Branch.LinkBit(mot) == 0
      else MultipleLimits.MultipleLeaves(s, LoadStoreMultiple.Decode(mot), s.regs, stale.word)
    case _ => true
  }

  lemma MisdispatchedIff(s: State, mot: Word, stale: Stale)
    ensures LoadStore.LoadStoreHalf(s, mot, stale.word) == DataProcessing.ArmDataProcessing(s, mot)
       <==> && TransferLimits.HalfLeaves(s, mot, s.regs[Rd(mot) := ArmDestination(s, mot)], stale.word)
            && FlagsRight(s, mot)
  {
    hide LoadStore.LoadStoreHalf, DataProcessing.ArmDataProcessing, TransferLimits.HalfLeaves, ArmDestination,
      ArmWriteFlags, DataProcessing.ArmOut, DataProcessing.SetsFlags, FlagN, FlagZ, FlagC, FlagV;
    var out := DataProcessing.ArmOut(s, mot);
    ArmOutArguments(s, mot);
    LoadStore.TransfersKeep(s, mot, stale.word);
    ArmDataProcessingWrites(s, mot);
    TransferLimits.HalfLeavesIff(s, mot, s.regs[Rd(mot) := ArmDestination(s, mot)], stale.word);
    WriteFlagsAgreesIff(s.cpsr, out.value, out.c, out.v);
  }

  lemma ArmOutArguments(s: State, ins: Word)
    ensures FlagArgument(DataProcessing.ArmOut(s, ins).c) && FlagArgument(DataProcessing.ArmOut(s, ins).v)
  {
    hide DataProcessing.ArmAlu;
    DataProcessing.ArmAluFlagArguments(DataProcessing.OpCode(ins), ReadReg(s, Rn(ins)),
      DataProcessing.ArmOperand(s, ins).value, DataProcessing.ArmOperand(s, ins).carry, FlagC(s.cpsr));
  }

  lemma DecodedBody(mot: Word)
    ensures LoadStoreMultiple.Decode(mot % 0x1000_0000) == LoadStoreMultiple.Decode(mot)
  {
    TransferFields(mot);
    FieldOfBody(mot, 0x80_0000, 4, 8);
    FieldOfBody(mot, 1, 0x1_0000, 0x1000);
  }

  lemma OperationOfBody(s: State, mot: Word, stale: Stale)
    ensures ArmOperation(s, mot, stale) ==
            match TypeField(mot)
            case 0 =>
              if ArmHalfTransfer(mot) then LoadStore.ArmLoadStoreHalf(s, mot, stale.word)
              else DataProcessing.ArmDataProcessing(s, mot)
            case 1 => LoadStore.ArmLoadStore(s, mot, stale.word)
            case 2 =>
              if IBit(mot) == 1 then Branch.ArmBranchLink(s, mot)
              else LoadStoreMultiple.ArmMultiple(s, LoadStoreMultiple.Decode(mot), stale.word)
            case _ => s
  {
    hide LoadStore.ArmLoadStoreHalf, LoadStore.ArmLoadStore, DataProcessing.ArmDataProcessing, Branch.ArmBranchLink,
      LoadStoreMultiple.ArmMultiple, LoadStoreMultiple.Decode, TypeField, IBit, HalfTransfer;
    DecodedBody(mot);
    FieldsOfBody(mot);
    TransferBody(s, mot, stale.word);
    DataProcessingBody(s, mot, stale);
    BranchBody(s, mot);
  }

  /** Every instruction has the manual's effect exactly then. */
  lemma InstructionIff(s: State, mot: Word, stale: Stale)
    ensures SelectExecute(s, mot, stale) == (ArmOperation(s, mot, stale), 0) <==> InstructionRight(s, mot, stale)
  {
    hide LoadStore.ArmLoadStoreHalf, LoadStore.ArmLoadStore, DataProcessing.ArmDataProcessing, Branch.ArmBranchLink,
      LoadStore.LoadStoreHalf, LoadStore.LoadStore, DataProcessing.DataProcess, Branch.BranchLink, ArmOperation, IBit,
      TransferLimits.HalfRight, TransferLimits.TransferRight, TransferLimits.HalfLeaves,
      DataProcessing.DestinationAgrees, DataProcessing.FlagsSettled, DataProcessing.SetsFlags, ArmDestination,
      DataProcessing.ArmOut, LoadStoreMultiple.ArmMultiple, MultipleLimits.MultipleLeaves, LoadStoreMultiple.Decode;
    OperationOfBody(s, mot, stale);
    MultipleLimits.MultipleLeavesIff(s, LoadStoreMultiple.Decode(mot), s.regs, stale.word);
    TransferLimits.HalfAgreesIff(s, mot, stale.word);
    TransferLimits.TransferAgreesIff(s, mot, stale.word);
    MisdispatchedIff(s, mot, stale);
    DataProcessing.DataProcessAgreesIff(s, mot, stale);
    Branch.BranchAgreesIff(s, mot);
  }

  // ----- what an instruction leaves -----

  predicate BranchLeaves(s: State, mot: Word, regs: RegisterFile, link: Word, target: Word) {
    && KeepsOthers(s, regs, if Branch.LinkBit(mot) == 1 then {14, 15} else {15})
    && regs[15] == target
    && (Branch.LinkBit(mot) == 1 ==> regs[14] == link)
  }

  /** The source's instruction leaves these registers, and no other change. */
  predicate CodeLeaves(s: State, mot: Word, regs: RegisterFile, stale: Stale) {
    match TypeField(mot)
    case 0 =>
      if HalfTransfer(mot) then TransferLimits.HalfLeaves(s, mot, regs, stale.word)
      else regs[Rd(mot)] == CodeDestination(s, mot, stale) && KeepsOthers(s, regs, {Rd(mot)})
    case 1 => TransferLimits.WordLeaves(s, mot, regs, stale.word)
    case 2 =>
      if IBit(mot) == 1 then
        BranchLeaves(s, mot, regs, ReadReg(s, 15), Wrap(ReadReg(s, 15) + Branch.Extend(Branch.OffsetField(mot))))
      else regs == s.regs
    case _ => regs == s.regs
  }

  lemma CodeBranchLeavesIff(s: State, mot: Word, regs: RegisterFile)
    ensures Branch.BranchLink(s, mot) == s.(regs := regs)
       <==> BranchLeaves(s, mot, regs, ReadReg(s, 15), Wrap(ReadReg(s, 15) + Branch.Extend(Branch.OffsetField(mot))))
  {
    hide ReadReg, Wrap, Branch.Extend, Branch.OffsetField, Branch.LinkBit;
    TransferLimits.SameRegisters(Branch.BranchLink(s, mot).regs, regs);
  }

  lemma OneWritten(s: State, r: nat, v: Word, regs: RegisterFile)
    requires r < 16
    ensures WriteReg(s, r, v) == s.(regs := regs) <==> regs[r] == v && KeepsOthers(s, regs, {r})
  {
    TransferLimits.SameRegisters(s.regs[r := v], regs);
  }

  lemma CodeLeavesIff(s: State, mot: Word, regs: RegisterFile, stale: Stale)
    ensures SelectExecute(s, mot, stale).0 == s.(regs := regs) <==> CodeLeaves(s, mot, regs, stale)
  {
    hide LoadStore.LoadStoreHalf, LoadStore.LoadStore, DataProcessing.DataProcess, Branch.BranchLink, BranchLeaves,
      HalfTransfer, IBit, TransferLimits.HalfLeaves, TransferLimits.WordLeaves, CodeDestination, KeepsOthers, WriteReg;
    TransferLimits.HalfLeavesIff(s, mot, regs, stale.word);
    TransferLimits.WordLeavesIff(s, mot, regs, stale.word);
    DataProcessWrites(s, mot, stale);
    OneWritten(s, Rd(mot), CodeDestination(s, mot, stale), regs);
    CodeBranchLeavesIff(s, mot, regs);
  }

  /** The manual's operation leaves these registers. */
  predicate ArmLeaves(s: State, mot: Word, regs: RegisterFile, stale: Stale) {
    match TypeField(mot)
    case 0 =>
      if ArmHalfTransfer(mot) then
        TransferLimits.ArmTransferLeaves(s, mot, 2, LoadStore.HalfOffset(s, mot), regs, stale.word)
      else regs[Rd(mot)] == ArmDestination(s, mot) && KeepsOthers(s, regs, {Rd(mot)})
    case 1 =>
      TransferLimits.ArmTransferLeaves(s, mot, TransferLimits.CodeWidth(mot), LoadStore.ArmOffset(s, mot), regs,
                                       stale.word)
    case 2 =>
      if IBit(mot) == 1 then
        BranchLeaves(s, mot, regs, s.regs[15], Wrap(ReadReg(s, 15) + Branch.Displacement(Branch.OffsetField(mot))))
      else MultipleLimits.MultipleLeaves(s, LoadStoreMultiple.Decode(mot), regs, stale.word)
    case _ => regs == s.regs
  }

  /** And this status register. */
  predicate ArmStatus(s: State, mot: Word, cpsr: Word) {
    if TypeField(mot) == 0 && !ArmHalfTransfer(mot) && DataProcessing.SetsFlags(mot) then
      DataProcessing.FlagsBecome(s.cpsr, DataProcessing.ArmOut(s, mot), cpsr)
    else cpsr == s.cpsr
  }

  lemma ArmBranchLeavesIff(s: State, mot: Word, regs: RegisterFile)
    ensures Branch.ArmBranchLink(s, mot) == s.(regs := regs)
       <==> BranchLeaves(s, mot, regs, s.regs[15], Wrap(ReadReg(s, 15) + Branch.Displacement(Branch.OffsetField(mot))))
  {
    hide ReadReg, Wrap, Branch.Displacement, Branch.OffsetField, Branch.LinkBit;
    TransferLimits.SameRegisters(Branch.ArmBranchLink(s, mot).regs, regs);
  }

  lemma ArmDataProcessingLeavesIff(s: State, ins: Word, regs: RegisterFile, cpsr: Word)
    ensures DataProcessing.ArmDataProcessing(s, ins) == s.(regs := regs, cpsr := cpsr)
       <==> && regs[Rd(ins)] == ArmDestination(s, ins) && KeepsOthers(s, regs, {Rd(ins)})
            && (if DataProcessing.SetsFlags(ins) then
                  DataProcessing.FlagsBecome(s.cpsr, DataProcessing.ArmOut(s, ins), cpsr)
                else cpsr == s.cpsr)
  {
    hide DataProcessing.ArmDataProcessing, ArmDestination, DataProcessing.ArmOut, DataProcessing.SetsFlags,
      DataProcessing.FlagsBecome, ArmWriteFlags, KeepsOthers;
    ArmDataProcessingWrites(s, ins);
    ArmOutArguments(s, ins);
    DataProcessing.FlagsBecomeIff(s.cpsr, DataProcessing.ArmOut(s, ins), cpsr);
    OneWritten(s, Rd(ins), ArmDestination(s, ins), regs);
  }

  lemma ArmLeavesIff(s: State, mot: Word, regs: RegisterFile, cpsr: Word, stale: Stale)
    ensures ArmOperation(s, mot, stale) == s.(regs := regs, cpsr := cpsr)
       <==> ArmLeaves(s, mot, regs, stale) && ArmStatus(s, mot, cpsr)
  {
    hide LoadStore.ArmTransfer, DataProcessing.ArmDataProcessing, Branch.ArmBranchLink, BranchLeaves, ArmOperation,
      ArmHalfTransfer, IBit, TransferLimits.ArmTransferLeaves, LoadStoreMultiple.ArmMultiple, LoadStoreMultiple.Decode,
      MultipleLimits.MultipleLeaves, ArmDestination, KeepsOthers, DataProcessing.SetsFlags, DataProcessing.FlagsBecome,
      DataProcessing.ArmOut, LoadStore.HalfOffset, LoadStore.ArmOffset, LoadStore.BBit;
    OperationOfBody(s, mot, stale);
    var b, n := LoadStoreMultiple.Decode(mot), TransferLimits.CodeWidth(mot);
    TransferLimits.ArmTransferLeavesIff(s, mot, 2, LoadStore.HalfOffset(s, mot), regs, stale.word);
    TransferLimits.ArmTransferLeavesIff(s, mot, n, LoadStore.ArmOffset(s, mot), regs, stale.word);
    LoadStore.TransfersKeep(s, mot, stale.word);
    ArmDataProcessingLeavesIff(s, mot, regs, cpsr);
    ArmBranchLeavesIff(s, mot, regs);
    BranchKeepsStatus(s, mot);
    MultipleLimits.MultipleLeavesIff(s, b, regs, stale.word);
    LoadStoreMultiple.ArmMultipleKeeps(s, b, stale.word);
  }

  lemma BranchKeepsStatus(s: State, mot: Word)
    ensures Branch.ArmBranchLink(s, mot).cpsr == s.cpsr
  {
  }

  /** r15 after an instruction of the source. */
  function CodePc(s: State, mot: Word, stale: Stale): Word {
    var rd, rn := Rd(mot), Rn(mot);
    match TypeField(mot)
    case 0 =>
      if HalfTransfer(mot) then
        if LoadStore.Writeback(mot) && rn == 15 then TransferLimits.HalfAddress(s, mot)
        else if LoadStore.LBit(mot) == 1 && rd == 15 then
          TransferLimits.Received(s, mot, 2, TransferLimits.HalfAddress(s, mot), stale.word)
        else s.regs[15]
      else if rd == 15 then CodeDestination(s, mot, stale) else s.regs[15]
    case 1 =>
      if TransferLimits.CodeWritesBack(mot) && rn == 15 then TransferLimits.CodeAddress(s, mot)
      else if LoadStore.LBit(mot) == 1 && rd == 15 then
        TransferLimits.Received(s, mot, TransferLimits.CodeWidth(mot), TransferLimits.CodeAddress(s, mot), stale.word)
      else s.regs[15]
    case 2 =>
      if IBit(mot) == 1 then Wrap(ReadReg(s, 15) + Branch.Extend(Branch.OffsetField(mot))) else s.regs[15]
    case _ => s.regs[15]
  }

  lemma CodePcIs(s: State, mot: Word, stale: Stale)
    ensures SelectExecute(s, mot, stale).0.regs[15] == CodePc(s, mot, stale)
  {
    hide LoadStore.LoadStoreHalf, LoadStore.LoadStore, DataProcessing.DataProcess, CodeDestination, ReadReg, Wrap,
      Branch.Extend, Branch.OffsetField, HalfTransfer, IBit, TransferLimits.Received, TransferLimits.HalfAddress,
      TransferLimits.CodeAddress, TransferLimits.CodeWidth, TransferLimits.CodeWritesBack, LoadStore.Writeback,
      TransferLimits.HalfLeaves, TransferLimits.WordLeaves;
    DataProcessWrites(s, mot, stale);
    HalfPc(s, mot, stale.word);
    WordPc(s, mot, stale.word);
  }

  lemma HalfPc(s: State, ins: Word, stale: Word)
    ensures LoadStore.LoadStoreHalf(s, ins, stale).regs[15]
         == if LoadStore.Writeback(ins) && Rn(ins) == 15 then TransferLimits.HalfAddress(s, ins)
            else if LoadStore.LBit(ins) == 1 && Rd(ins) == 15 then
              TransferLimits.Received(s, ins, 2, TransferLimits.HalfAddress(s, ins), stale)
            else s.regs[15]
  {
    hide ReadReg, LoadStore.Moved, LoadStore.HalfOffset, ReadHalf, WriteHalf;
  }

  lemma WordPc(s: State, ins: Word, stale: Word)
    ensures LoadStore.LoadStore(s, ins, stale).regs[15]
         == if TransferLimits.CodeWritesBack(ins) && Rn(ins) == 15 then TransferLimits.CodeAddress(s, ins)
            else if LoadStore.LBit(ins) == 1 && Rd(ins) == 15 then
              TransferLimits.Received(s, ins, TransferLimits.CodeWidth(ins), TransferLimits.CodeAddress(s, ins), stale)
            else s.regs[15]
  {
    hide ReadReg, LoadStore.Moved, LoadStore.CodeOffset, ReadByte, ReadWord, WriteByte, WriteWord, AndW;
  }
}
