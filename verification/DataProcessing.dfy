/**
The sixteen data-processing instructions. `ArmAlu` states each operation's value and flags over
the integers, as the source's comments and the manual define them; `CodeAlu`, `CodeFlagC` and
`CodeFlagV` are what the source computes on its 16-bit operands.
 */
module DataProcessing {
  import opened Words
  import opened Flags
  import opened Shifter
  import opened Registers
  import opened OperandLimits

  const SUB: nat := 2
  const ADD: nat := 4
  const ADC: nat := 5
  const SBC: nat := 6
  const RSC: nat := 7
  const CMP: nat := 10

  predicate IsTest(op: nat) {
    8 <= op <= 11
  }

  // ----- decoding -----

  function OpCode(ins: Word): (op: nat) ensures op < 16 { (ins / 0x20_0000) % 16 }
  function SBit(ins: Word): Flag { (ins / 0x10_0000) % 2 }

  // ----- the operations -----

  /** A result and its flag arguments; KEEP leaves a flag alone. */
  datatype AluOut = AluOut(value: Word, c: Byte, v: Byte)

  function Sum(x: Word, y: Word, carry: Flag): AluOut {
    AluOut(Wrap(x + y + carry),
           if x + y + carry >= WORD then 1 else 0,
           if SignedFits(Signed(x) + Signed(y) + carry) then 0 else 1)
  }

  /** C is NOT borrow. */
  function Difference(x: Word, y: Word, borrow: Flag): AluOut {
    AluOut(Wrap(x - y - borrow),
           if x - y - borrow < 0 then 0 else 1,
           if SignedFits(Signed(x) - Signed(y) - borrow) then 0 else 1)
  }

  function ArmAlu(op: nat, rn: Word, so: Word, shifterCarry: Flag, c: Flag): AluOut
    requires op < 16
  {
    match op
    case 0 => AluOut(AndW(rn, so), shifterCarry, KEEP)
    case 1 => AluOut(XorW(rn, so), shifterCarry, KEEP)
    case 2 => Difference(rn, so, 0)
    case 3 => Difference(so, rn, 0)
    case 4 => Sum(rn, so, 0)
    case 5 => Sum(rn, so, c)
    case 6 => Difference(rn, so, 1 - c)
    case 7 => Difference(so, rn, 1 - c)
    case 8 => AluOut(AndW(rn, so), shifterCarry, KEEP)
    case 9 => AluOut(XorW(rn, so), shifterCarry, KEEP)
    case 10 => Difference(rn, so, 0)
    case 11 => Sum(rn, so, 0)
    case 12 => AluOut(OrW(rn, so), shifterCarry, KEEP)
    case 13 => AluOut(so, shifterCarry, KEEP)
    case 14 => AluOut(AndW(rn, Not(so)), shifterCarry, KEEP)
    case _ => AluOut(Not(so), shifterCarry, KEEP)
  }

  /** The value the source puts in the destination register (or compares): `~` on the promoted flag
      is -1 - c. */
  function CodeAlu(op: nat, rn: Word, so: Half, c: Flag): Word
    requires op < 16
  {
    match op
    case 0 => AndW(rn, so)
    case 1 => XorW(rn, so)
    case 2 => Wrap(rn - so)
    case 3 => Wrap(so - rn)
    case 4 => Wrap(rn + so)
    case 5 => Wrap(rn + so + c)
    case 6 => Wrap(rn - so - (-1 - c))
    case 7 => Wrap(so - rn - (-1 - c))
    case 8 => AndW(rn, so)
    case 9 => XorW(rn, so)
    case 10 => Wrap(rn - so)
    case 11 => Wrap(rn + so)
    case 12 => OrW(rn, so)
    case 13 => so
    case 14 => AndW(rn, Not(so))
    case _ => Not(so)
  }

  /** The byte the source passes for C. `rn` is re-read after the destination was written. */
  function CodeFlagC(op: nat, rn: Word, so: Half, shifterCarry: Flag, c: Flag): Byte
    requires op < 16
  {
    match op
    case 2 => 0xFF - BorrowFrom(rn, so)
    case 3 => 0xFF - BorrowFrom(so, rn)
    case 4 => CarryFrom(rn, so)
    case 5 => CarryFrom(rn, so + c)
    case 6 => 0xFF - BorrowFrom(rn, so + 1 + c)
    case 7 => 0xFF - BorrowFrom(so + 1 + c, rn)
    case 10 => 0xFF - BorrowFrom(rn, so)
    case 11 => CarryFrom(rn, so)
    case _ => shifterCarry
  }

  function CodeFlagV(op: nat, rn: Word, so: Half, value: Word, c: Flag): Byte
    requires op < 16
  {
    match op
    case 2 => OverflowFrom(rn, so, value, 0)
    case 3 => OverflowFrom(so, rn, value, 0)
    case 4 => OverflowFrom(so, rn, value, 1)
    case 5 => OverflowFrom(so + c, rn, value, 1)
    case 6 => OverflowFrom(rn, so + 1 + c, value, 0)
    case 7 => OverflowFrom(so + 1 + c, rn, value, 0)
    case 10 => OverflowFrom(rn, so, value, 0)
    case 11 => OverflowFrom(rn, so, value, 1)
    case _ => KEEP
  }

  // ----- whole instructions -----

  /** Flags are written by S-suffixed instructions (not into the program counter, since no mode has a
      saved status register) and by the four tests. */
  function ArmDataProcessing(s: State, ins: Word): State {
    var c, op, so := FlagC(s.cpsr), OpCode(ins), ins % 0x1000;
    var operand := ArmShifterOperand(ReadReg(s, so % 16), ReadReg(s, so / 256), so, IBit(ins), c);
    var out := ArmAlu(op, ReadReg(s, Rn(ins)), operand.value, operand.carry, c);
    var s' := if IsTest(op) then s else WriteReg(s, Rd(ins), out.value);
    if IsTest(op) || (SBit(ins) == 1 && Rd(ins) != 15) then
      s'.(cpsr := ArmWriteFlags(s.cpsr, out.value, out.c, out.v))
    else s'
  }

  /** `update_flags` as written. No mode has a saved status register to restore. */
  function UpdateFlags(s: State, rdest: nat, sBit: nat, flagC: Byte, flagV: Byte): State
    requires rdest < 16
  {
    if sBit == 1 && rdest == 15 then s
    else if sBit == 1 then s.(cpsr := WriteFlags(s.cpsr, ReadReg(s, rdest), flagC, flagV))
    else s
  }

  /** `traitement_AR` as written: `update_flags` is called with Rdest and S exchanged, and the four tests
      hand `write_flags` their result, cut to a byte, for a register number. */
  function DataProcess(s: State, ins: Word, stale: Stale): State {
    var c, op, so := FlagC(s.cpsr), OpCode(ins), ins % 0x1000;
    var operand := UpdateShifterOperand(ReadReg(s, so % 16), Rd(ins), so, IBit(ins), c, stale.carry);
    var value := CodeAlu(op, ReadReg(s, Rn(ins)), operand.value, c);
    if IsTest(op) then
      var rn := ReadReg(s, Rn(ins));
      s.(cpsr := WriteFlags(s.cpsr, Numbered(s, value % 0x100, stale.word),
                            CodeFlagC(op, rn, operand.value, operand.carry, c),
                            CodeFlagV(op, rn, operand.value, value, c)))
    else
      var s' := WriteReg(s, Rd(ins), value);
      var rn := ReadReg(s', Rn(ins));
      UpdateFlags(s', SBit(ins), Rd(ins), CodeFlagC(op, rn, operand.value, operand.carry, c),
                  CodeFlagV(op, rn, operand.value, value, c))
  }

  // ----- how the two compare -----

  /** On the same 16-bit operand the source's value is the manual's for every operation but SBC and
      RSC, whose value is off by exactly two. */
  lemma CodeValueIff(op: nat, rn: Word, so: Half, shifterCarry: Flag, c: Flag)
    requires op < 16
    ensures CodeAlu(op, rn, so, c) == ArmAlu(op, rn, so, shifterCarry, c).value <==> op != SBC && op != RSC
    ensures op == SBC || op == RSC ==> CodeAlu(op, rn, so, c) == Wrap(ArmAlu(op, rn, so, shifterCarry, c).value + 2)
  {
    hide AndW, OrW, XorW, Wrap;
    OffByTwo(rn - so - (1 - c));
    OffByTwo(so - rn - (1 - c));
    if op == 6 {
    } else if op == 7 {
    } else {
    }
  }

  lemma OffByTwo(x: int)
    ensures Wrap(x + 2) == Wrap(Wrap(x) + 2) != Wrap(x)
  {
  }

  /** Bit by bit, the logical operations are the boolean functions of their names, and leave V alone. */
  lemma LogicalBits(op: nat, rn: Word, so: Word, shifterCarry: Flag, c: Flag, i: nat)
    requires op < 16 && i < 32 && (op in {0, 1, 8, 9} || op >= 12)
    ensures var out := ArmAlu(op, rn, so, shifterCarry, c);
            var x, y := Bit(rn, i) == 1, Bit(so, i) == 1;
            && out.c == shifterCarry && out.v == KEEP
            && (Bit(out.value, i) == 1 <==>
                  if op == 0 || op == 8 then x && y else if op == 1 || op == 9 then x != y
                  else if op == 12 then x || y else if op == 13 then y else if op == 14 then x && !y else !y)
  {
    hide And, Or, Xor, Bit, Not;
    BitAnd(rn, so, i);
    BitXor(rn, so, i);
    BitOr(rn, so, i);
    BitNot(so, i);
    BitAnd(rn, Not(so), i);
  }

  /** The flag definitions of the comments, through the source's helper functions. */
  lemma FlagsThroughHelpers(x: Word, y: Word)
    ensures Difference(x, y, 0).c == 1 - BorrowFrom(x, y)
    ensures Difference(x, y, 0).v == OverflowFrom(x, y, Difference(x, y, 0).value, 0)
    ensures Sum(x, y, 0).c == CarryFrom(x, y)
  {
    OverflowOfDifferenceExact(x, y);
    CarryExact(x, y);
  }

  /** For a 16-bit operand ADC's folded carry test is the carry of the three-operand sum. */
  lemma AdcCarryExact(rn: Word, so: Half, c: Flag)
    ensures CodeFlagC(ADC, rn, so, 0, c) == Sum(rn, so, c).c
  {
    FoldedCarryExactIff(rn, so, c);
  }

  /** The source re-reads Rn for the flags after writing Rd. When they are the same register the carry
      of an ADD is still right exactly when rn + 2 so does not wrap, the borrow of a SUB exactly when
      rn is at least 2 so. */
  lemma RereadFlagsIff(rn: Word, so: Half)
    ensures CodeFlagC(ADD, Wrap(rn + so), so, 0, 0) == Sum(rn, so, 0).c <==> rn + 2 * so < WORD
    ensures CodeFlagC(SUB, Wrap(rn - so), so, 0, 0) == 0xFF - BorrowFrom(rn, so) <==> rn >= 2 * so
  {
    CarryExact(Wrap(rn + so), so);
  }

  /** What the flag helpers get for the second operand besides so. */
  function Extra(op: nat, c: Flag): nat {
    if op == ADC then c else if op == SBC || op == RSC then 1 + c else 0
  }

  /** When the re-read leaves the byte for C as it was: for the sums, when rn and twice the operand do not
      wrap; for SUB, when rn is at least twice the operand; for SBC, whose value is two too large, when it
      does not wrap and stays on its side; for RSB and RSC, always. */
  predicate RereadCarryRight(op: nat, rn: Word, so: Half, c: Flag) {
    var d := Extra(op, c);
    if op == ADD || op == ADC then rn + 2 * (so + d) < WORD
    else if op == SUB then rn >= 2 * so
    else if op == SBC then 0 <= rn - so + d < WORD && (rn < so + d <==> rn < 2 * so)
    else true
  }

  /** And the byte for V: the second reading is the result, so that SUB and SBC never report an overflow
      and RSB and RSC report one for every negative result. */
  predicate RereadOverflowRight(op: nat, rn: Word, so: Half, c: Flag) {
    var d := Extra(op, c);
    if op == ADD || op == ADC then rn + so + d < WORD
    else if op == SUB then !(rn >= 0x8000_0000 && rn - so < 0x8000_0000)
    else if op == SBC then !(rn >= 0x8000_0000 && Wrap(rn - so + d) < 0x8000_0000)
    else !(so + d < rn < 0x8000_0000)
  }

  lemma RereadCarryIff(op: nat, rn: Word, so: Half, c: Flag)
    requires SUB <= op <= RSC
    ensures CodeFlagC(op, CodeAlu(op, rn, so, c), so, 0, c) == CodeFlagC(op, rn, so, 0, c)
       <==> RereadCarryRight(op, rn, so, c)
  {
    hide AndW, OrW, XorW, Not, Wrap, CarryFrom;
    match op {
      case 2 => Wrapped(rn - so);
      case 3 => Wrapped(so - rn);
      case 6 => Wrapped(rn - so + 1 + c);
      case 7 => Wrapped(so - rn + 1 + c);
      case _ =>
        Wrapped(rn + so + Extra(op, c));
        CarryExact(rn, so + Extra(op, c));
        CarryExact(Wrap(rn + so + Extra(op, c)), so + Extra(op, c));
    }
  }

  lemma RereadOverflowIff(op: nat, rn: Word, so: Half, c: Flag)
    requires SUB <= op <= RSC
    ensures var value := CodeAlu(op, rn, so, c);
            (CodeFlagV(op, value, so, value, c) == CodeFlagV(op, rn, so, value, c)
             <==> RereadOverflowRight(op, rn, so, c))
  {
    hide AndW, OrW, XorW, Not, Wrap, Shr;
    var value := CodeAlu(op, rn, so, c);
    SignBit(value);
    SignBit(rn);
    SignBit(so + Extra(op, c));
    match op {
      case 2 => Wrapped(rn - so);
      case 3 => Wrapped(so - rn);
      case 6 => Wrapped(rn - so + 1 + c);
      case 7 => Wrapped(so - rn + 1 + c);
      case _ => Wrapped(rn + so + Extra(op, c));
    }
  }

  lemma Wrapped(x: int)
    requires -WORD <= x < 2 * WORD
    ensures Wrap(x) == if x < 0 then x + WORD else if x < WORD then x else x - WORD
  {
  }

  // ----- the flag update, if `set_1_bit` kept its results -----

  /** `write_flags` with the results of `set_1_bit` kept: N and Z from the register of that number. */
  function RepairedFlags(s: State, rdest: Byte, flagC: Byte, flagV: Byte, beyond: Word): State {
    s.(cpsr := ArmWriteFlags(s.cpsr, Numbered(s, rdest, beyond), flagC, flagV))
  }

  function RepairedUpdate(s: State, rdest: nat, sBit: nat, flagC: Byte, flagV: Byte): State
    requires rdest < 16
  {
    if sBit == 1 && rdest != 15 then RepairedFlags(s, rdest, flagC, flagV, 0) else s
  }

  /** N and Z tell the two values apart. */
  predicate SameSign(x: Word, y: Word) {
    (Signed(x) < 0 <==> Signed(y) < 0) && (x == 0 <==> y == 0)
  }

  lemma SameFlagsIff(cpsr: Word, x: Word, y: Word, c: Byte, v: Byte)
    requires FlagArgument(c) && FlagArgument(v)
    ensures ArmWriteFlags(cpsr, x, c, v) == ArmWriteFlags(cpsr, y, c, v) <==> SameSign(x, y)
  {
    hide ArmWriteFlags, FlagN, FlagZ, FlagC, FlagV;
    WriteFlagsExact(cpsr, x, c, v);
    WriteFlagsExact(cpsr, y, c, v);
    if SameSign(x, y) { OnlySignMatters(cpsr, x, y, c, v); }
  }

  lemma OnlySignMatters(cpsr: Word, x: Word, y: Word, c: Byte, v: Byte)
    requires FlagArgument(c) && FlagArgument(v) && SameSign(x, y)
    ensures ArmWriteFlags(cpsr, x, c, v) == ArmWriteFlags(cpsr, y, c, v)
  {
    hide ArmWriteFlags, Bit;
    forall i: nat | i < 32 ensures Bit(ArmWriteFlags(cpsr, x, c, v), i) == Bit(ArmWriteFlags(cpsr, y, c, v), i) {
      WriteFlagsBit(cpsr, x, c, v, i);
      WriteFlagsBit(cpsr, y, c, v, i);
    }
    SameWord(ArmWriteFlags(cpsr, x, c, v), ArmWriteFlags(cpsr, y, c, v));
  }

  /** Then the four tests, which hand over their result for a register number, would be right exactly when
      the register of that number (or what lies beyond the file) has its sign and is zero with it. */
  lemma TestRegisterIff(s: State, value: Word, c: Byte, v: Byte, beyond: Word)
    requires FlagArgument(c) && FlagArgument(v)
    ensures RepairedFlags(s, value % 0x100, c, v, beyond) == s.(cpsr := ArmWriteFlags(s.cpsr, value, c, v))
       <==> SameSign(if value % 0x100 < 16 then ReadReg(s, value % 0x100) else beyond, value)
  {
    hide ArmWriteFlags, ReadReg;
    SameFlagsIff(s.cpsr, Numbered(s, value % 0x100, beyond), value, c, v);
  }

  /** And the exchange of Rdest and S would update the flags for the instructions into r1 instead of those
      with S set: right exactly when the flags that should not have been written (those of r0, for r1
      without S) or should have been (those of Rd, for S into another register) have their values. */
  lemma ExchangedIff(s: State, rd: nat, sBit: Flag, c: Byte, v: Byte)
    requires rd < 16 && FlagArgument(c) && FlagArgument(v)
    ensures RepairedUpdate(s, sBit, rd, c, v) == RepairedUpdate(s, rd, sBit, c, v)
       <==> && (rd == 1 && sBit == 0 ==> FlagsSettled(s.cpsr, AluOut(ReadReg(s, 0), c, v)))
            && (rd != 1 && rd != 15 && sBit == 1 ==> FlagsSettled(s.cpsr, AluOut(ReadReg(s, rd), c, v)))
  {
    hide ArmWriteFlags, ReadReg, FlagN, FlagZ, FlagC, FlagV;
    WriteFlagsAgreesIff(s.cpsr, ReadReg(s, 0), c, v);
    WriteFlagsAgreesIff(s.cpsr, ReadReg(s, rd), c, v);
  }

  /** A data-processing instruction of the source never changes the status register, nor memory, nor
      any register but its destination. */
  lemma DataProcessFrame(s: State, ins: Word, stale: Stale)
    ensures var s' := DataProcess(s, ins, stale);
            && s'.cpsr == s.cpsr && s'.mem == s.mem
            && (forall r :: 0 <= r < 16 && (IsTest(OpCode(ins)) || r != Rd(ins)) ==> s'.regs[r] == s.regs[r])
  {
    hide UpdateShifterOperand, CodeAlu, CodeFlagC, CodeFlagV, ReadReg;
  }

  lemma ArmAluFlagArguments(op: nat, rn: Word, so: Word, shifterCarry: Flag, c: Flag)
    requires op < 16
    ensures FlagArgument(ArmAlu(op, rn, so, shifterCarry, c).c)
    ensures FlagArgument(ArmAlu(op, rn, so, shifterCarry, c).v)
  {
  }

  /** The instructions that may change the flags. */
  predicate SetsFlags(ins: Word) {
    IsTest(OpCode(ins)) || (SBit(ins) == 1 && Rd(ins) != 15)
  }

  /** The manual's instruction keeps CPSR bits 27..0 and memory, and all of CPSR unless it sets
      flags; when it does, N and Z describe its result. */
  lemma ArmDataProcessingFrame(s: State, ins: Word)
    ensures var s' := ArmDataProcessing(s, ins);
            && s'.cpsr % 0x1000_0000 == s.cpsr % 0x1000_0000
            && (!SetsFlags(ins) ==> s'.cpsr == s.cpsr)
            && s'.mem == s.mem
  {
    hide ArmShifterOperand, ArmAlu, ReadReg, ArmWriteFlags;
    var c, op, so := FlagC(s.cpsr), OpCode(ins), ins % 0x1000;
    var operand := ArmShifterOperand(ReadReg(s, so % 16), ReadReg(s, so / 256), so, IBit(ins), c);
    var rn := ReadReg(s, Rn(ins));
    var out := ArmAlu(op, rn, operand.value, operand.carry, c);
    ArmAluFlagArguments(op, rn, operand.value, operand.carry, c);
    WriteFlagsExact(s.cpsr, out.value, out.c, out.v);
  }

  // ----- whole instructions compared -----

  function ArmOperand(s: State, ins: Word): Shifted {
    var so := ins % 0x1000;
    ArmShifterOperand(ReadReg(s, so % 16), ReadReg(s, so / 256), so, IBit(ins), FlagC(s.cpsr))
  }

  function CodeOperand(s: State, ins: Word, stale: Stale): Operand {
    var so := ins % 0x1000;
    UpdateShifterOperand(ReadReg(s, so % 16), Rd(ins), so, IBit(ins), FlagC(s.cpsr), stale.carry)
  }

  /** The manual's result and flags. */
  function ArmOut(s: State, ins: Word): AluOut {
    ArmAlu(OpCode(ins), ReadReg(s, Rn(ins)), ArmOperand(s, ins).value, ArmOperand(s, ins).carry, FlagC(s.cpsr))
  }

  /** When operand x gives the source the value that operand y gives the manual: for AND and BIC they
      agree on the bits of rn that are set, for ORR on those that are clear; SBC and RSC need operands
      that make up for the two they are off by; the others need the same operand. */
  predicate DestinationRight(op: nat, rn: Word, x: Half, y: Word)
    requires op < 16
  {
    match op
    case 0 => SameWhere(rn, 1, x, y)
    case 14 => SameWhere(rn, 1, x, y)
    case 12 => SameWhere(rn, 0, x, y)
    case 6 => x == Wrap(y + 2)
    case 7 => Wrap(x + 2) == y
    case _ => x == y
  }

  lemma WrapSame(u: int, v: int)
    ensures Wrap(u) == Wrap(v) <==> (u - v) % WORD == 0
  {
  }

  lemma ForwardIff(op: nat, rn: Word, x: Half, y: Word, shifterCarry: Flag, c: Flag)
    requires op == SUB || op == ADD || op == ADC
    ensures CodeAlu(op, rn, x, c) == ArmAlu(op, rn, y, shifterCarry, c).value <==> x == y
  {
    hide Wrap, AndW, OrW, XorW, SignedFits, Not;
    match op {
      case 2 => WrapSame(rn - x, rn - y);
      case 4 => WrapSame(rn + x, rn + y);
      case _ => WrapSame(rn + x + c, rn + y + c);
    }
  }

  lemma ReverseIff(rn: Word, x: Half, y: Word, shifterCarry: Flag, c: Flag)
    ensures CodeAlu(3, rn, x, c) == ArmAlu(3, rn, y, shifterCarry, c).value <==> x == y
  {
    hide Wrap, AndW, OrW, XorW, SignedFits, Not;
    WrapSame(x - rn, y - rn);
  }

  lemma SbcIff(rn: Word, x: Half, y: Word, shifterCarry: Flag, c: Flag)
    ensures CodeAlu(SBC, rn, x, c) == ArmAlu(SBC, rn, y, shifterCarry, c).value <==> x == Wrap(y + 2)
  {
    hide Wrap, AndW, OrW, XorW, SignedFits, Not;
    WrapSame(rn - x - (-1 - c), rn - y - (1 - c));
    WrapSame(x, y + 2);
    WrapWord(x);
  }

  lemma RscIff(rn: Word, x: Half, y: Word, shifterCarry: Flag, c: Flag)
    ensures CodeAlu(RSC, rn, x, c) == ArmAlu(RSC, rn, y, shifterCarry, c).value <==> Wrap(x + 2) == y
  {
    hide Wrap, AndW, OrW, XorW, SignedFits, Not;
    WrapSame(x - rn - (-1 - c), y - rn - (1 - c));
    WrapSame(x + 2, y);
    WrapWord(y);
  }

  lemma ArithmeticIff(op: nat, rn: Word, x: Half, y: Word, shifterCarry: Flag, c: Flag)
    requires 2 <= op <= 7
    ensures CodeAlu(op, rn, x, c) == ArmAlu(op, rn, y, shifterCarry, c).value <==> DestinationRight(op, rn, x, y)
  {
    hide CodeAlu, ArmAlu, Wrap;
    match op {
      case 3 => ReverseIff(rn, x, y, shifterCarry, c);
      case 6 => SbcIff(rn, x, y, shifterCarry, c);
      case 7 => RscIff(rn, x, y, shifterCarry, c);
      case _ => ForwardIff(op, rn, x, y, shifterCarry, c);
    }
  }

  /** x and y agree on the bits where rn has bit b. */
  predicate SameWhere(rn: Word, b: Flag, x: Word, y: Word) {
    forall i: nat :: i < 32 && Bit(rn, i) == b ==> Bit(x, i) == Bit(y, i)
  }

  lemma MaskedAnd(rn: Word, x: Word, y: Word)
    ensures AndW(rn, x) == AndW(rn, y) <==> SameWhere(rn, 1, x, y)
  {
    hide And, Bit;
    forall i: nat
      ensures Bit(And(rn, x), i) == if Bit(rn, i) == 1 && Bit(x, i) == 1 then 1 else 0
      ensures Bit(And(rn, y), i) == if Bit(rn, i) == 1 && Bit(y, i) == 1 then 1 else 0
    {
      BitAnd(rn, x, i);
      BitAnd(rn, y, i);
    }
    if SameWhere(rn, 1, x, y) { SameWord(AndW(rn, x), AndW(rn, y)); }
  }

  lemma ComplementedWhere(rn: Word, x: Word, y: Word)
    ensures SameWhere(rn, 1, Not(x), Not(y)) <==> SameWhere(rn, 1, x, y)
  {
    hide Not, Bit;
    forall i: nat | i < 32
      ensures Bit(Not(x), i) == 1 - Bit(x, i)
      ensures Bit(Not(y), i) == 1 - Bit(y, i)
    {
      BitNot(x, i);
      BitNot(y, i);
    }
  }

  lemma MaskedOr(rn: Word, x: Word, y: Word)
    ensures OrW(rn, x) == OrW(rn, y) <==> SameWhere(rn, 0, x, y)
  {
    hide Or, Bit;
    forall i: nat
      ensures Bit(Or(rn, x), i) == if Bit(rn, i) == 1 || Bit(x, i) == 1 then 1 else 0
      ensures Bit(Or(rn, y), i) == if Bit(rn, i) == 1 || Bit(y, i) == 1 then 1 else 0
    {
      BitOr(rn, x, i);
      BitOr(rn, y, i);
    }
    if SameWhere(rn, 0, x, y) { SameWord(OrW(rn, x), OrW(rn, y)); }
  }

  lemma XorCancels(rn: Word, x: Word, y: Word)
    ensures XorW(rn, x) == XorW(rn, y) <==> x == y
  {
    hide Xor, Bit;
    forall i: nat
      ensures Bit(Xor(rn, x), i) == if Bit(rn, i) != Bit(x, i) then 1 else 0
      ensures Bit(Xor(rn, y), i) == if Bit(rn, i) != Bit(y, i) then 1 else 0
    {
      BitXor(rn, x, i);
      BitXor(rn, y, i);
    }
    if XorW(rn, x) == XorW(rn, y) { SameWord(x, y); }
  }

  /** Two operands, one for each, give the same destination exactly under that condition. */
  lemma DestinationIff(op: nat, rn: Word, x: Half, y: Word, shifterCarry: Flag, c: Flag)
    requires op < 16 && !IsTest(op)
    ensures CodeAlu(op, rn, x, c) == ArmAlu(op, rn, y, shifterCarry, c).value <==> DestinationRight(op, rn, x, y)
  {
    if 2 <= op <= 7 {
      ArithmeticIff(op, rn, x, y, shifterCarry, c);
    } else {
      hide AndW, OrW, XorW, SameWhere;
      MaskedAnd(rn, x, y);
      MaskedAnd(rn, Not(x), Not(y));
      ComplementedWhere(rn, x, y);
      MaskedOr(rn, x, y);
      XorCancels(rn, x, y);
    }
  }

  /** The destination of an instruction, from its fields and the registers it names. */
  predicate DestinationAgrees(s: State, ins: Word, stale: Stale) {
    var op, so := OpCode(ins), ins % 0x1000;
    if IsTest(op) then true
    else if op in {0, 6, 7, 12, 14} then
      DestinationRight(op, ReadReg(s, Rn(ins)), CodeOperand(s, ins, stale).value, ArmOperand(s, ins).value)
    else OperandRight(ReadReg(s, so % 16), ReadReg(s, so / 256), Rd(ins), so, IBit(ins), FlagC(s.cpsr))
  }

  /** The flag update by an outcome turns one status register into the other. */
  predicate FlagsBecome(cpsr: Word, out: AluOut, cpsr': Word) {
    && cpsr' % 0x1000_0000 == cpsr % 0x1000_0000
    && (FlagN(cpsr') == 1 <==> Signed(out.value) < 0)
    && (FlagZ(cpsr') == 1 <==> out.value == 0)
    && FlagC(cpsr') == (if out.c == KEEP then FlagC(cpsr) else out.c)
    && FlagV(cpsr') == (if out.v == KEEP then FlagV(cpsr) else out.v)
  }

  /** Every flag that an outcome would set has its value already. */
  predicate FlagsSettled(cpsr: Word, out: AluOut) {
    FlagsBecome(cpsr, out, cpsr)
  }

  lemma SameStatus(x: Word, y: Word)
    requires x % 0x1000_0000 == y % 0x1000_0000
    requires FlagN(x) == FlagN(y) && FlagZ(x) == FlagZ(y) && FlagC(x) == FlagC(y) && FlagV(x) == FlagV(y)
    ensures x == y
  {
    hide Bit;
    forall i: nat | i < 32 ensures Bit(x, i) == Bit(y, i) {
      if i < 28 {
        Pow2Values();
        BitOfMod(x, 28, i);
        BitOfMod(y, 28, i);
      }
    }
    SameWord(x, y);
  }

  lemma FlagsBecomeIff(cpsr: Word, out: AluOut, cpsr': Word)
    requires FlagArgument(out.c) && FlagArgument(out.v)
    ensures ArmWriteFlags(cpsr, out.value, out.c, out.v) == cpsr' <==> FlagsBecome(cpsr, out, cpsr')
  {
    hide ArmWriteFlags, FlagN, FlagZ, FlagC, FlagV;
    WriteFlagsExact(cpsr, out.value, out.c, out.v);
    if FlagsBecome(cpsr, out, cpsr') { SameStatus(ArmWriteFlags(cpsr, out.value, out.c, out.v), cpsr'); }
  }

  lemma DestinationValueIff(s: State, ins: Word, stale: Stale)
    requires !IsTest(OpCode(ins))
    ensures CodeAlu(OpCode(ins), ReadReg(s, Rn(ins)), CodeOperand(s, ins, stale).value, FlagC(s.cpsr))
         == ArmOut(s, ins).value
       <==> DestinationAgrees(s, ins, stale)
  {
    hide CodeAlu, ArmAlu, UpdateShifterOperand, ArmShifterOperand, OperandRight, ReadReg;
    var so := ins % 0x1000;
    DestinationIff(OpCode(ins), ReadReg(s, Rn(ins)), CodeOperand(s, ins, stale).value, ArmOperand(s, ins).value,
                   ArmOperand(s, ins).carry, FlagC(s.cpsr));
    OperandIff(ReadReg(s, so % 16), ReadReg(s, so / 256), Rd(ins), so, IBit(ins), FlagC(s.cpsr), stale.carry);
  }

  /** From bit w on, y is clear where rn has bit b. */
  predicate ClearFrom(rn: Word, b: Flag, y: Word, w: nat) {
    forall i: nat :: w <= i < 32 && Bit(rn, i) == b ==> Bit(y, i) == 0
  }

  /** When an operand cut to its low w bits does for the whole one: AND and BIC must not need the bits that
      are lost, ORR must have them already, and SBC and RSC, off by two, never get the right value. */
  predicate CutRight(op: nat, rn: Word, y: Word, w: nat) {
    match op
    case 0 => ClearFrom(rn, 1, y, w)
    case 14 => ClearFrom(rn, 1, y, w)
    case 12 => ClearFrom(rn, 0, y, w)
    case 6 => false
    case 7 => false
    case _ => y < Pow2(w)
  }

  lemma CutBits(rn: Word, b: Flag, y: Word, w: nat, x: Word)
    requires w <= 16 && x == y % Pow2(w)
    ensures SameWhere(rn, b, x, y) <==> ClearFrom(rn, b, y, w)
  {
    hide Bit, Pow2;
    DivMod(y, Pow2(w));
    forall i: nat ensures Bit(x, i) == if i < w then Bit(y, i) else 0 {
      if i < w { BitOfMod(y, w, i); } else { BitAboveWidth(x, w, i); }
    }
    if SameWhere(rn, b, x, y) {
      forall i: nat | w <= i < 32 && Bit(rn, i) == b ensures Bit(y, i) == 0 {
        assert Bit(x, i) == Bit(y, i);
      }
    }
  }

  lemma NeverTwoApart(x: Half, y: Word)
    requires x % 0x100 == y % 0x100
    ensures x != Wrap(y + 2) && Wrap(x + 2) != y
  {
  }

  lemma CutDestinationIff(op: nat, rn: Word, x: Half, y: Word, w: nat)
    requires op < 16 && (w == 8 || w == 16) && x == y % Pow2(w)
    ensures DestinationRight(op, rn, x, y) <==> CutRight(op, rn, y, w)
  {
    Pow2Values();
    hide Bit, Pow2, Wrap;
    CutBits(rn, 0, y, w, x);
    CutBits(rn, 1, y, w, x);
    hide SameWhere, ClearFrom;
    LowByteOfCut(y, w);
    NeverTwoApart(x, y);
    SmallMod(y, Pow2(w));
  }

  lemma LowByteOfCut(y: Word, w: nat)
    requires w == 8 || w == 16
    ensures (y % Pow2(w)) % 0x100 == y % 0x100
  {
    Pow2Values();
    ModPow(y, 8, w);
  }

  /** An immediate is cut to 16 bits and a plain register to 8. For these operands the destination agrees
      exactly when the lost bits do not matter. */
  lemma CutOperandIff(s: State, ins: Word, stale: Stale)
    requires !IsTest(OpCode(ins)) && (IBit(ins) == 1 || (ins / 16) % 256 == 0)
    ensures DestinationAgrees(s, ins, stale)
       <==> CutRight(OpCode(ins), ReadReg(s, Rn(ins)), ArmOperand(s, ins).value, if IBit(ins) == 1 then 16 else 8)
  {
    hide UpdateShifterOperand, ArmShifterOperand, OperandRight, ReadReg, OpCode, Rn, Rd, IBit, FlagC, CutRight;
    var so := ins % 0x1000;
    var rm, rs := ReadReg(s, so % 16), ReadReg(s, so / 256);
    CutOperand(rm, rs, Rd(ins), so, IBit(ins), FlagC(s.cpsr), stale.carry) by {
      if IBit(ins) != 1 { PlainFields(ins); }
    }
    OperandIff(rm, rs, Rd(ins), so, IBit(ins), FlagC(s.cpsr), stale.carry);
    CutDestinationIff(OpCode(ins), ReadReg(s, Rn(ins)), CodeOperand(s, ins, stale).value, ArmOperand(s, ins).value,
                      if IBit(ins) == 1 then 16 else 8);
  }

  lemma CutOperand(rm: Word, rs: Word, rdest: nat, so: nat, i: Flag, c: Flag, stale: Flag)
    requires rdest < 16 && so < 0x1000 && (i == 1 || so < 16)
    ensures UpdateShifterOperand(rm, rdest, so, i, c, stale).value
         == ArmShifterOperand(rm, rs, so, i, c).value % Pow2(if i == 1 then 16 else 8)
  {
    Pow2Values();
    hide Shl, Shr, Asr, Ror, Rrx, Pow2;
    if i != 1 {
      PlainRegister(rm, rs, so, c);
      assert so / 32 == 0 && so / 16 == 0 && so / 128 == 0;
    }
  }

  /** Every data-processing instruction of the source is the manual's exactly when its destination
      agrees and, if it sets flags, they have their values already. */
  lemma DataProcessAgreesIff(s: State, ins: Word, stale: Stale)
    ensures DataProcess(s, ins, stale) == ArmDataProcessing(s, ins)
       <==> DestinationAgrees(s, ins, stale) && (SetsFlags(ins) ==> FlagsSettled(s.cpsr, ArmOut(s, ins)))
  {
    hide UpdateShifterOperand, ArmShifterOperand, CodeAlu, ArmAlu, CodeFlagC, CodeFlagV, ReadReg, ArmWriteFlags,
      DestinationAgrees, FlagN, FlagZ, FlagC, FlagV;
    var out := ArmOut(s, ins);
    ArmAluFlagArguments(OpCode(ins), ReadReg(s, Rn(ins)), ArmOperand(s, ins).value, ArmOperand(s, ins).carry,
                        FlagC(s.cpsr));
    WriteFlagsAgreesIff(s.cpsr, out.value, out.c, out.v);
    DataProcessFrame(s, ins, stale);
    if IsTest(OpCode(ins)) {
      TestsAgree(s, ins, stale);
    } else {
      DestinationValueIff(s, ins, stale);
      assert DataProcess(s, ins, stale).regs[Rd(ins)]
          == CodeAlu(OpCode(ins), ReadReg(s, Rn(ins)), CodeOperand(s, ins, stale).value, FlagC(s.cpsr));
      assert ArmDataProcessing(s, ins).regs[Rd(ins)] == out.value;
    }
  }

  lemma TestsAgree(s: State, ins: Word, stale: Stale)
    requires IsTest(OpCode(ins))
    ensures DestinationAgrees(s, ins, stale)
  {
  }

  /** The manual's instruction on a plain register operand: the operation applied to Rn and Rm. */
  lemma RegisterInstruction(s: State, ins: Word)
    requires IBit(ins) == 0 && (ins / 16) % 256 == 0
    ensures var out := ArmAlu(OpCode(ins), ReadReg(s, Rn(ins)), ReadReg(s, ins % 16), FlagC(s.cpsr), FlagC(s.cpsr));
            (ArmDataProcessing(s, ins)
             == State(if IsTest(OpCode(ins)) then s.regs else s.regs[Rd(ins) := out.value],
                      if SetsFlags(ins) then ArmWriteFlags(s.cpsr, out.value, out.c, out.v) else s.cpsr,
                      s.mem))
  {
    hide ArmAlu, ReadReg, ArmWriteFlags, OpCode, Rn, Rd, IBit, SBit, FlagC, ArmShifterOperand;
    var so := ins % 0x1000;
    PlainFields(ins);
    PlainRegister(ReadReg(s, so % 16), ReadReg(s, so / 256), so, FlagC(s.cpsr));
  }

  /** The source's, on such an operand: the low byte of Rm, and no flags. */
  lemma CodeRegisterInstruction(s: State, ins: Word, stale: Stale)
    requires IBit(ins) == 0 && (ins / 16) % 256 == 0 && !IsTest(OpCode(ins))
    ensures DataProcess(s, ins, stale)
         == WriteReg(s, Rd(ins), CodeAlu(OpCode(ins), ReadReg(s, Rn(ins)), ReadReg(s, ins % 16) % 0x100, FlagC(s.cpsr)))
  {
    hide CodeAlu, CodeFlagC, CodeFlagV, ReadReg, OpCode, Rn, Rd, IBit, SBit, FlagC, UpdateShifterOperand;
    var so := ins % 0x1000;
    PlainFields(ins);
    PlainCodeRegister(ReadReg(s, so % 16), Rd(ins), so, FlagC(s.cpsr), stale.carry);
  }

  lemma PlainCodeRegister(rm: Word, rdest: nat, so: nat, c: Flag, stale: Flag)
    requires rdest < 16 && so < 16
    ensures UpdateShifterOperand(rm, rdest, so, 0, c, stale) == Operand(rm % 0x100, c)
  {
    hide Shl, Shr, Asr, Ror;
    assert so / 32 == 0 && so / 16 == 0 && so / 128 == 0;
  }

  lemma PlainFields(ins: Word)
    requires (ins / 16) % 256 == 0
    ensures var so := ins % 0x1000; so / 16 == 0 && so == ins % 16
  {
  }

  lemma PlainRegister(rm: Word, rs: Word, so: nat, c: Flag)
    requires so < 16
    ensures ArmShifterOperand(rm, rs, so, 0, c) == Shifted(rm, c)
  {
    hide Shl, Shr, Asr, Ror, Rrx;
    assert so / 32 == 0 && so / 16 == 0 && so / 128 == 0;
  }

  // ----- compare, then test -----

  function ArmCompare(cpsr: Word, a: Word, b: Word): Word {
    var out := ArmAlu(CMP, a, b, 0, 0);
    ArmWriteFlags(cpsr, out.value, out.c, out.v)
  }

  lemma CompareFlags(cpsr: Word, a: Word, b: Word)
    ensures var f := ArmCompare(cpsr, a, b);
            && (FlagZ(f) == 1 <==> a == b)
            && (FlagC(f) == 1 <==> a >= b)
            && (FlagN(f) != FlagV(f) <==> Signed(a) < Signed(b))
  {
    hide ArmWriteFlags, FlagN, FlagZ, FlagC, FlagV;
    var out := Difference(a, b, 0);
    WriteFlagsExact(cpsr, out.value, out.c, out.v);
  }

  /** The CMP instruction on registers is that comparison, and changes nothing else. */
  lemma CmpInstruction(s: State, ins: Word)
    requires OpCode(ins) == CMP && IBit(ins) == 0 && (ins / 16) % 256 == 0
    ensures ArmDataProcessing(s, ins) == s.(cpsr := ArmCompare(s.cpsr, ReadReg(s, Rn(ins)), ReadReg(s, ins % 16)))
  {
    hide ReadReg, ArmWriteFlags;
    RegisterInstruction(s, ins);
  }

  /** After CMP a, b the ten comparison conditions decide the integer comparisons, unsigned and
      signed. */
  lemma CompareThenTest(cpsr: Word, a: Word, b: Word)
    ensures var f := ArmCompare(cpsr, a, b);
            && (ArmPasses(f, 0) <==> a == b) && (ArmPasses(f, 1) <==> a != b)
            && (ArmPasses(f, 2) <==> a >= b) && (ArmPasses(f, 3) <==> a < b)
            && (ArmPasses(f, 8) <==> a > b) && (ArmPasses(f, 9) <==> a <= b)
            && (ArmPasses(f, 10) <==> Signed(a) >= Signed(b)) && (ArmPasses(f, 11) <==> Signed(a) < Signed(b))
            && (ArmPasses(f, 12) <==> Signed(a) > Signed(b)) && (ArmPasses(f, 13) <==> Signed(a) <= Signed(b))
  {
    hide ArmCompare, FlagN, FlagZ, FlagC, FlagV;
    CompareFlags(cpsr, a, b);
  }

  /** With the source's own condition check on those flags every comparison is still decided, except
      that LS never passes: it is right exactly when a > b. */
  lemma CompareThenCodeTest(cpsr: Word, a: Word, b: Word, cond: Byte)
    requires cond < 16
    ensures var f := ArmCompare(cpsr, a, b);
            && ((CondFailed(f, cond) == 0 <==> ArmPasses(f, cond)) <==> !(cond == 9 && a <= b))
            && CondFailed(f, 9) == 1
  {
    hide ArmCompare, FlagN, FlagZ, FlagC, FlagV;
    CompareFlags(cpsr, a, b);
    CondAgreesIff(ArmCompare(cpsr, a, b), cond);
  }
}
