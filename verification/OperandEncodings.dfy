/**
Data-processing words by their fields: the operand of each of the eleven forms as bit-by-bit shifts and as
numbers, the sixteen operations as integers, and the whole instruction. No statement names a decoding
function.
 */
module OperandEncodings {
  import opened Words
  import opened Flags
  import opened Shifter
  import opened Registers
  import opened DataProcessing
  import opened OperandLimits
  import opened Encodings
  import InstructionLimits

  // ----- the manual's operand -----

  /** The low twelve bits: an amount (or Rs and a zero), a two-bit type, bit 4 and Rm. */
  lemma OperandFields(n: nat, k: nat, r: Flag, m: nat)
    requires n < 32 && k < 4 && m < 16
    ensures var so := 0x80 * n + 0x20 * k + 0x10 * r + m;
            && so / 128 == n && (so / 32) % 4 == k && (so / 16) % 2 == r && so % 16 == m && so / 256 == n / 2
  {
    var so := 0x80 * n + 0x20 * k + 0x10 * r + m;
    DivUnique(so, 128, n, 0x20 * k + 0x10 * r + m);
    Field(so, n, k, 0x10 * r + m, 32, 4);
    Field(so, n * 4 + k, r, m, 16, 2);
    DivUnique(so, 16, n * 8 + k * 2 + r, m);
    DivDiv(so, 128, 2);
  }

  /** Shift by an immediate n: types 0 to 3 are LSL, LSR, ASR and ROR; #0 means 32 for LSR and ASR, and the
      33-bit rotation for ROR. */
  lemma ArmImmediateForms(rm: Word, rs: Word, n: nat, m: nat, c: Flag)
    requires n < 32 && m < 16
    ensures ArmShifterOperand(rm, rs, 0x80 * n + m, 0, c) == Iterate(LSL, rm, n, c)
    ensures ArmShifterOperand(rm, rs, 0x80 * n + 0x20 + m, 0, c) == Iterate(LSR, rm, if n == 0 then 32 else n, c)
    ensures ArmShifterOperand(rm, rs, 0x80 * n + 0x40 + m, 0, c) == Iterate(ASR, rm, if n == 0 then 32 else n, c)
    ensures ArmShifterOperand(rm, rs, 0x80 * n + 0x60 + m, 0, c)
         == if n == 0 then Shifted(rm / 2 + c * 0x8000_0000, rm % 2) else Iterate(ROR, rm, n, c)
  {
    hide ArmShiftRegister, Rrx, Iterate, ArmRotatedImmediate;
    OperandFields(n, 0, 0, m);
    OperandFields(n, 1, 0, m);
    OperandFields(n, 2, 0, m);
    OperandFields(n, 3, 0, m);
    RegisterShiftIsIterated(LSL, rm, n, c);
    RegisterShiftIsIterated(LSR, rm, if n == 0 then 32 else n, c);
    RegisterShiftIsIterated(ASR, rm, if n == 0 then 32 else n, c);
    RegisterShiftIsIterated(ROR, rm, n, c);
    RrxStep(rm, c);
  }

  lemma RrxStep(rm: Word, c: Flag)
    ensures Rrx(rm, c) == Shifted(rm / 2 + c * 0x8000_0000, rm % 2)
  {
    RrxValue(rm, c);
  }

  /** Shift by the low byte of Rs. */
  lemma ArmRegisterForms(rm: Word, rs: Word, n: nat, m: nat, c: Flag)
    requires n < 32 && m < 16
    ensures ArmShifterOperand(rm, rs, 0x80 * n + 0x10 + m, 0, c) == Iterate(LSL, rm, rs % 0x100, c)
    ensures ArmShifterOperand(rm, rs, 0x80 * n + 0x30 + m, 0, c) == Iterate(LSR, rm, rs % 0x100, c)
    ensures ArmShifterOperand(rm, rs, 0x80 * n + 0x50 + m, 0, c) == Iterate(ASR, rm, rs % 0x100, c)
    ensures ArmShifterOperand(rm, rs, 0x80 * n + 0x70 + m, 0, c) == Iterate(ROR, rm, rs % 0x100, c)
  {
    hide ArmShiftRegister, ArmShiftImmediate, Iterate, ArmRotatedImmediate;
    OperandFields(n, 0, 1, m);
    OperandFields(n, 1, 1, m);
    OperandFields(n, 2, 1, m);
    OperandFields(n, 3, 1, m);
    RegisterShiftIsIterated(LSL, rm, rs % 256, c);
    RegisterShiftIsIterated(LSR, rm, rs % 256, c);
    RegisterShiftIsIterated(ASR, rm, rs % 256, c);
    RegisterShiftIsIterated(ROR, rm, rs % 256, c);
  }

  /** A byte b rotated right by 2 r. */
  lemma ArmImmediateOperand(rm: Word, rs: Word, r: nat, b: Byte, c: Flag)
    requires r < 16
    ensures ArmShifterOperand(rm, rs, 0x100 * r + b, 1, c) == Iterate(ROR, b, 2 * r, c)
  {
    hide ArmShiftRegister, ArmShiftImmediate, Iterate, ArmRotatedImmediate;
    DivUnique(0x100 * r + b, 0x100, r, b);
    RotatedImmediateIsIterated(b, r, c);
  }

  // ----- the source's operand -----

  lemma ShlByteCut(b: Byte, n: nat)
    requires n < 32
    ensures Shl(b, n) % 0x1_0000 == (b * Pow2(n)) % 0x1_0000
  {
    hide Pow2;
    var k: nat := 0x1_0000;
    NonNegative(b, Pow2(n));
    ModMod(b * Pow2(n), 0x1_0000, k);
  }

  lemma NonNegative(x: nat, y: nat)
    ensures x * y >= 0
  {
  }

  lemma NothingLeft(b: Byte, n: nat)
    requires n >= 16
    ensures (b * Pow2(n)) % 0x1_0000 == 0
  {
    hide Pow2;
    Pow2Values();
    Pow2Add(16, n - 16);
    NoLowHalf(b, Pow2(n - 16));
  }

  /** By an immediate, as numbers: the low byte shifted and cut to 16 bits; #0 gives 0 for LSR and ASR, and
      the twelve bits themselves for ROR. */
  lemma CodeImmediateForms(rm: Word, rdest: nat, n: nat, m: nat, c: Flag, stale: Flag)
    requires rdest < 16 && n < 32 && m < 16
    ensures var b := rm % 0x100;
            && UpdateShifterOperand(rm, rdest, 0x80 * n + m, 0, c, stale).value == (b * Pow2(n)) % 0x1_0000
            && UpdateShifterOperand(rm, rdest, 0x80 * n + 0x20 + m, 0, c, stale).value
               == (if n == 0 then 0 else b / Pow2(n))
            && UpdateShifterOperand(rm, rdest, 0x80 * n + 0x40 + m, 0, c, stale).value
               == (if n == 0 then 0 else b / Pow2(n))
            && UpdateShifterOperand(rm, rdest, 0x80 * n + 0x60 + m, 0, c, stale).value
               == if n == 0 then 0x60 + m else (b / Pow2(n) + (b % Pow2(n)) * Pow2(32 - n)) % 0x1_0000
  {
    hide CodeShiftRegister, CodeShiftImmediate, Pow2, Ror;
    OperandFields(n, 0, 0, m);
    OperandFields(n, 1, 0, m);
    OperandFields(n, 2, 0, m);
    OperandFields(n, 3, 0, m);
    CodeImmediateLsl(rm, n, c, 0x80 * n + m, stale);
    CodeImmediateRight(rm, n, c, 0x80 * n + 0x20 + m, stale);
    CodeImmediateRight(rm, n, c, 0x80 * n + 0x40 + m, stale);
    CodeImmediateRor(rm, n, c, 0x80 * n + 0x60 + m, stale);
  }

  lemma CodeImmediateLsl(rm: Word, n: nat, c: Flag, so: nat, stale: Flag)
    requires n < 32 && so < 0x1000
    ensures CodeShiftImmediate(LSL, rm, n, c, so, stale).value == ((rm % 0x100) * Pow2(n)) % 0x1_0000
  {
    hide Shl, Shr, Pow2;
    ShlByteCut(rm % 0x100, n);
    ByNothing(rm % 0x100);
  }

  lemma CodeImmediateRight(rm: Word, n: nat, c: Flag, so: nat, stale: Flag)
    requires n < 32 && so < 0x1000
    ensures CodeShiftImmediate(LSR, rm, n, c, so, stale).value == if n == 0 then 0 else (rm % 0x100) / Pow2(n)
    ensures CodeShiftImmediate(ASR, rm, n, c, so, stale).value == if n == 0 then 0 else (rm % 0x100) / Pow2(n)
  {
    hide Shl, Shr, Asr, Pow2;
    var b: Byte := rm % 0x100;
    ShlTop(b);
    ShrNumber(b, n);
    if n > 0 { AsrOfByte(b, n); }
  }

  lemma CodeImmediateRor(rm: Word, n: nat, c: Flag, so: nat, stale: Flag)
    requires n < 32 && so < 0x1000
    ensures var b := rm % 0x100;
            (CodeShiftImmediate(ROR, rm, n, c, so, stale).value
             == if n == 0 then so else (b / Pow2(n) + (b % Pow2(n)) * Pow2(32 - n)) % 0x1_0000)
  {
    hide Shr, Ror, Pow2;
    RorFormula(rm % 0x100, n);
  }

  /** By a register: the low byte shifted by 16 Rd + Rs, the fields and not the registers, cut to 16 bits;
      ASR by 32 and more gives 0xFFFF, and ROR shifts right by the amount modulo 16. */
  lemma CodeRegisterForms(rm: Word, rdest: nat, q: nat, m: nat, c: Flag, stale: Flag)
    requires rdest < 16 && q < 16 && m < 16
    ensures var b, k := rm % 0x100, 16 * rdest + q;
            && UpdateShifterOperand(rm, rdest, 0x100 * q + 0x10 + m, 0, c, stale).value == (b * Pow2(k)) % 0x1_0000
            && UpdateShifterOperand(rm, rdest, 0x100 * q + 0x30 + m, 0, c, stale).value == b / Pow2(k)
            && UpdateShifterOperand(rm, rdest, 0x100 * q + 0x50 + m, 0, c, stale).value
               == (if k < 32 then b / Pow2(k) else 0xFFFF)
            && UpdateShifterOperand(rm, rdest, 0x100 * q + 0x70 + m, 0, c, stale).value == b / Pow2(k % 16)
  {
    hide CodeShiftRegister, CodeShiftImmediate, Pow2, Ror;
    OperandFields(2 * q, 0, 1, m);
    OperandFields(2 * q, 1, 1, m);
    OperandFields(2 * q, 2, 1, m);
    OperandFields(2 * q, 3, 1, m);
    CodeLslNumber(rm, 16 * rdest + q, c);
    CodeRightNumbers(rm, 16 * rdest + q, c);
  }

  lemma CodeLslNumber(rm: Word, k: Byte, c: Flag)
    ensures CodeShiftRegister(LSL, rm, k, c).value == ((rm % 0x100) * Pow2(k)) % 0x1_0000
  {
    hide Shl, Shr, Pow2;
    ByNothing(rm % 0x100);
    if k < 32 { ShlByteCut(rm % 0x100, k); } else { NothingLeft(rm % 0x100, k); }
  }

  lemma CodeRightNumbers(rm: Word, k: Byte, c: Flag)
    ensures CodeShiftRegister(LSR, rm, k, c).value == (rm % 0x100) / Pow2(k)
    ensures CodeShiftRegister(ASR, rm, k, c).value == if k < 32 then (rm % 0x100) / Pow2(k) else 0xFFFF
    ensures CodeShiftRegister(ROR, rm, k, c).value == (rm % 0x100) / Pow2(k % 16)
  {
    hide Asr, Shr, Shl, Pow2;
    var b: Byte := rm % 0x100;
    NoHighBits(b);
    ShrNothing(b);
    ShrNumber(b, k);
    ShrNumber(b, k % 16);
    if k == 0 {
    } else if k < 32 {
      AsrOfByte(b, k);
      if k % 16 != 0 { AsrOfByte(b, k % 16); }
    } else {
      ShrBig(b, k);
      if k % 16 != 0 { AsrOfByte(b, k % 16); }
    }
  }

  lemma ShrNumber(x: Word, n: nat)
    ensures Shr(x, n) == x / Pow2(n)
  {
  }

  lemma ByNothing(b: Byte)
    ensures b / Pow2(0) == b && (b * Pow2(0)) % 0x1_0000 == b
  {
    DivUnique(b, 1, b, 0);
  }

  /** A rotated byte, cut to 16 bits. */
  lemma CodeImmediateOperand(rm: Word, rdest: nat, r: nat, b: Byte, c: Flag, stale: Flag)
    requires rdest < 16 && r < 16
    ensures UpdateShifterOperand(rm, rdest, 0x100 * r + b, 1, c, stale).value
         == (b / Pow2(2 * r) + (b % Pow2(2 * r)) * Pow2(32 - 2 * r)) % 0x1_0000
  {
    hide Shl, Asr, Ror, Pow2;
    DivUnique(0x100 * r + b, 0x100, r, b);
    RorFormula(b, 2 * r);
  }

  // ----- the operations -----

  /** A result modulo 2^32, a carry, and whether the signed result leaves its range. */
  predicate IsOutcome(out: AluOut, result: int, carry: bool, signed: int) {
    && out.value == result % 0x1_0000_0000
    && out.c == (if carry then 1 else 0)
    && out.v == (if -0x8000_0000 <= signed < 0x8000_0000 then 0 else 1)
  }

  /** The arithmetic operations by their codes: 2 SUB, 3 RSB, 4 ADD, 5 ADC, 6 SBC, 7 RSC, 10 CMP, 11 CMN. */
  lemma ArmArithmetic(rn: Word, so: Word, sc: Flag, c: Flag)
    ensures var x, y := Signed(rn), Signed(so);
            && IsOutcome(ArmAlu(2, rn, so, sc, c), rn - so, rn >= so, x - y)
            && IsOutcome(ArmAlu(3, rn, so, sc, c), so - rn, so >= rn, y - x)
            && IsOutcome(ArmAlu(4, rn, so, sc, c), rn + so, rn + so >= 0x1_0000_0000, x + y)
            && IsOutcome(ArmAlu(5, rn, so, sc, c), rn + so + c, rn + so + c >= 0x1_0000_0000, x + y + c)
            && IsOutcome(ArmAlu(6, rn, so, sc, c), rn - so - (1 - c), rn >= so + (1 - c), x - y - (1 - c))
            && IsOutcome(ArmAlu(7, rn, so, sc, c), so - rn - (1 - c), so >= rn + (1 - c), y - x - (1 - c))
            && IsOutcome(ArmAlu(10, rn, so, sc, c), rn - so, rn >= so, x - y)
            && IsOutcome(ArmAlu(11, rn, so, sc, c), rn + so, rn + so >= 0x1_0000_0000, x + y)
  {
    hide AndW, OrW, XorW, Not, Signed;
  }

  /** The bytes the source passes for C: the sums are right; the differences give 0xFF (leave alone) without a
      borrow and 0xFE with one, SBC and RSC against so + 1 + c. */
  lemma CodeCarryBytes(rn: Word, so: Half, sc: Flag, c: Flag)
    ensures CodeFlagC(4, rn, so, sc, c) == (if rn + so >= 0x1_0000_0000 then 1 else 0)
    ensures CodeFlagC(5, rn, so, sc, c) == (if rn + so + c >= 0x1_0000_0000 then 1 else 0)
    ensures CodeFlagC(11, rn, so, sc, c) == (if rn + so >= 0x1_0000_0000 then 1 else 0)
    ensures CodeFlagC(2, rn, so, sc, c) == CodeFlagC(10, rn, so, sc, c) == (if rn >= so then 0xFF else 0xFE)
    ensures CodeFlagC(3, rn, so, sc, c) == (if so >= rn then 0xFF else 0xFE)
    ensures CodeFlagC(6, rn, so, sc, c) == (if rn >= so + 1 + c then 0xFF else 0xFE)
    ensures CodeFlagC(7, rn, so, sc, c) == (if so + 1 + c >= rn then 0xFF else 0xFE)
  {
    hide CarryFrom;
    CarryExact(rn, so);
    CarryExact(rn, so + c);
  }

  /** And for V, on the result of the same operands: the differences are right (those of so + 1 + c by the
      signs of what they are given), the sums are 1 exactly for a positive rn and a positive result. */
  lemma CodeOverflowBytes(rn: Word, so: Half, value: Word, c: Flag)
    ensures CodeFlagV(4, rn, so, value, c) == CodeFlagV(5, rn, so, value, c) == CodeFlagV(11, rn, so, value, c)
         == (if rn < 0x8000_0000 && value < 0x8000_0000 then 1 else 0)
    ensures CodeFlagV(2, rn, so, value, c) == CodeFlagV(6, rn, so, value, c) == CodeFlagV(10, rn, so, value, c)
         == (if rn >= 0x8000_0000 && value < 0x8000_0000 then 1 else 0)
    ensures CodeFlagV(3, rn, so, value, c) == CodeFlagV(7, rn, so, value, c)
         == (if rn >= 0x8000_0000 && value >= 0x8000_0000 then 1 else 0)
  {
    hide Shr;
    SignBit(rn);
    SignBit(so);
    SignBit(so + c);
    SignBit(so + 1 + c);
    SignBit(value);
  }

  /** The four tests, 8 to 11, write no register and no memory in either machine. */
  lemma TestsWriteNothing(s: State, ins: Word, stale: Stale)
    requires 8 <= (ins / 0x20_0000) % 16 <= 11
    ensures DataProcess(s, ins, stale) == s
    ensures ArmDataProcessing(s, ins).regs == s.regs && ArmDataProcessing(s, ins).mem == s.mem
  {
    hide UpdateShifterOperand, ArmShifterOperand, CodeAlu, ArmAlu, CodeFlagC, CodeFlagV, ReadReg, ArmWriteFlags;
  }

  // ----- the whole instruction -----

  /** A data-processing word of type 00 with operation op = 8 p + 4 u + 2 b + w and S = l: the manual's takes its
      operand from Rm and Rs, writes Rd unless op is a test, and the flags for the tests and for S with a
      destination other than r15. */
  lemma ArmDataProcessingEffect(s: State, e: Encoding)
    requires e.Fits()
    ensures var c := (s.cpsr / 0x2000_0000) % 2;
            var op := 8 * e.p + 4 * e.u + 2 * e.b + e.w;
            var operand := ArmShifterOperand(ReadReg(s, e.low % 16), ReadReg(s, e.low / 0x100), e.low, e.i, c);
            var out := ArmAlu(op, ReadReg(s, e.rn), operand.value, operand.carry, c);
            (ArmDataProcessing(s, e.Assembled())
             == State(if 8 <= op <= 11 then s.regs else s.regs[e.rd := out.value],
                      if 8 <= op <= 11 || (e.l == 1 && e.rd != 15) then ArmWriteFlags(s.cpsr, out.value, out.c, out.v)
                      else s.cpsr,
                      s.mem))
  {
    hide ArmShifterOperand, ArmAlu, ReadReg, ArmWriteFlags, FlagC, OpCode, SBit, IBit, Rn, Rd;
    BitsRoundTrip(e);
    FieldsRoundTrip(e);
    StatusBits(s.cpsr);
  }

  /** The source's writes Rd unless op is a test, and nothing else. */
  lemma CodeDataProcessingEffect(s: State, e: Encoding, stale: Stale)
    requires e.Fits()
    ensures var c := (s.cpsr / 0x2000_0000) % 2;
            var op := 8 * e.p + 4 * e.u + 2 * e.b + e.w;
            var operand := UpdateShifterOperand(ReadReg(s, e.low % 16), e.rd, e.low, e.i, c, stale.carry);
            (DataProcess(s, e.Assembled(), stale)
             == if 8 <= op <= 11 then s
                else s.(regs := s.regs[e.rd := CodeAlu(op, ReadReg(s, e.rn), operand.value, c)]))
  {
    hide UpdateShifterOperand, CodeAlu, CodeFlagC, CodeFlagV, ReadReg, FlagC, OpCode, SBit, IBit, Rn, Rd;
    BitsRoundTrip(e);
    FieldsRoundTrip(e);
    StatusBits(s.cpsr);
  }
}
