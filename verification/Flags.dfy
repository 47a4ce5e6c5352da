/**
The condition flags: the carry, borrow and overflow tests, the single-bit update of the status
register, and the sixteen condition codes of section A3.2.1 of the ARM Architecture Reference
Manual. Functions named after the source compute what the source computes; functions starting
with `Arm` are the reference they are compared with.
 */
module Flags {
  import opened Words

  const N: nat := 31
  const Z: nat := 30
  const C: nat := 29
  const V: nat := 28

  /** "Leave this flag alone" in the source's flag arguments. */
  const KEEP: Byte := 0xFF

  // ----- carry, borrow, overflow -----

  function BorrowFrom(operande1: Word, operande2: Word): Flag {
    if operande1 < operande2 then 1 else 0
  }

  /** `temp` is a signed int in the source; comparing it with an unsigned operand converts it back. */
  function CarryFrom(operande1: Word, operande2: Word): Flag {
    var temp := Signed(WORD - 1 - operande1);
    if operande2 > Wrap(temp) then 1 else 0
  }

  /** `operation` 1 is addition, anything else subtraction. */
  function OverflowFrom(operande1: Word, operande2: Word, result: Word, operation: Byte): Flag {
    var s1, s2, r := Shr(operande1, 31), Shr(operande2, 31), Shr(result, 31);
    if operation == 1 then (if s1 == s2 && s1 == r then 1 else 0)
    else (if s1 != s2 && s1 != r then 1 else 0)
  }

  predicate SignedFits(x: int) {
    -0x8000_0000 <= x < 0x8000_0000
  }

  lemma SignBit(x: Word)
    ensures Shr(x, 31) == if Signed(x) < 0 then 1 else 0
  {
    Pow2Values();
  }

  lemma CarryExact(a: Word, b: Word)
    ensures CarryFrom(a, b) == 1 <==> a + b >= WORD
  {
    assert Wrap(Signed(WORD - 1 - a)) == WORD - 1 - a;
  }

  lemma BorrowExact(a: Word, b: Word)
    ensures BorrowFrom(a, b) == 1 <==> a - b < 0
  {
  }

  lemma OverflowOfDifferenceExact(a: Word, b: Word)
    ensures OverflowFrom(a, b, Wrap(a - b), 0) == 1 <==> !SignedFits(Signed(a) - Signed(b))
  {
    hide Shr;
    SignBit(a); SignBit(b); SignBit(Wrap(a - b));
  }

  /** The addition branch tests the result's sign for equality where inequality is meant: it decides
      signed overflow of a + b exactly when the operands' signs differ (and there is none). */
  lemma OverflowOfSumExactIff(a: Word, b: Word)
    ensures (OverflowFrom(a, b, Wrap(a + b), 1) == 1 <==> !SignedFits(Signed(a) + Signed(b)))
       <==> (Signed(a) < 0) != (Signed(b) < 0)
  {
    hide Shr;
    SignBit(a); SignBit(b); SignBit(Wrap(a + b));
  }

  /** With the inequality that is meant, the test is exact on all operands. */
  lemma OverflowOfSumIntended(a: Word, b: Word)
    ensures (Shr(a, 31) == Shr(b, 31) && Shr(a, 31) != Shr(Wrap(a + b), 31))
       <==> !SignedFits(Signed(a) + Signed(b))
  {
    hide Shr;
    SignBit(a); SignBit(b); SignBit(Wrap(a + b));
  }

  /** Folding the carry into the operand, as ADC does, gives the carry of the three-operand sum
      except for the one operand that wraps. */
  lemma FoldedCarryExactIff(rn: Word, operand: Word, c: Flag)
    ensures (CarryFrom(rn, Wrap(operand + c)) == 1 <==> rn + operand + c >= WORD)
       <==> !(operand == 0xFFFF_FFFF && c == 1)
  {
    CarryExact(rn, Wrap(operand + c));
  }

  /** The same folding loses the signed overflow exactly for the operand whose sign it flips,
      even with the addition test repaired. */
  lemma FoldedOverflowExactIff(rn: Word, operand: Word, c: Flag)
    ensures ((Shr(rn, 31) == Shr(Wrap(operand + c), 31) && Shr(rn, 31) != Shr(Wrap(rn + operand + c), 31))
             <==> !SignedFits(Signed(rn) + Signed(operand) + c))
       <==> !(operand == 0x7FFF_FFFF && c == 1)
  {
    hide Shr;
    SignBit(rn); SignBit(Wrap(operand + c)); SignBit(Wrap(rn + operand + c));
  }

  // ----- single-bit update -----

  function SetOneBit(res: Word, numBit: nat, setBit: Byte): Word
    requires numBit < 32
  {
    var masque := Not(Shl(1, numBit));
    OrW(AndW(res, masque), Shl(setBit, numBit))
  }

  lemma ShlOneBit(b: Flag, n: nat, i: nat)
    requires n < 32
    ensures Bit(Shl(b, n), i) == if i == n then b else 0
  {
    Pow2Values();
    Pow2Mono(n, 31);
    if b == 1 { BitOfPow2(n, i); } else { BitZero(i); }
  }

  /** `SetOneBit` sets exactly the named bit and keeps the other thirty-one. */
  lemma SetOneBitBits(res: Word, n: nat, b: Flag, i: nat)
    requires n < 32 && i < 32
    ensures Bit(SetOneBit(res, n, b), i) == if i == n then b else Bit(res, i)
  {
    hide Shl;
    var one := Shl(1, n);
    ShlOneBit(1, n, i);
    ShlOneBit(b, n, i);
    BitNot(one, i);
    BitAnd(res, Not(one), i);
    BitOr(AndW(res, Not(one)), Shl(b, n), i);
  }

  lemma SetOneBitCommutes(res: Word, n: nat, b: Flag, n': nat, b': Flag)
    requires n < 32 && n' < 32 && n != n'
    ensures SetOneBit(SetOneBit(res, n, b), n', b') == SetOneBit(SetOneBit(res, n', b'), n, b)
  {
    var x, y := SetOneBit(res, n, b), SetOneBit(res, n', b');
    forall i: nat | i < 32 ensures Bit(SetOneBit(x, n', b'), i) == Bit(SetOneBit(y, n, b), i) {
      SetOneBitBits(res, n, b, i);
      SetOneBitBits(res, n', b', i);
      SetOneBitBits(x, n', b', i);
      SetOneBitBits(y, n, b, i);
    }
    SameWord(SetOneBit(x, n', b'), SetOneBit(y, n, b));
  }

  /** The source passes ~borrow as an unsigned byte: without a borrow that is the value that means
      "leave alone", so C is never set by it, and with a borrow it is no bit value at all. */
  lemma NegatedBorrowCollides(a: Word, b: Word)
    ensures 0xFF - BorrowFrom(a, b) == KEEP <==> a >= b
    ensures 0xFF - BorrowFrom(a, b) > 1
  {
  }

  // ----- writing the flags -----

  predicate FlagArgument(f: Byte) {
    f <= 1 || f == KEEP
  }

  /** The update `write_flags` is for: N and Z from the result, C and V unless told to keep them. */
  function ArmWriteFlags(cpsr: Word, value: Word, flagC: Byte, flagV: Byte): Word {
    var c0 := SetOneBit(cpsr, N, Shr(value, 31) % 2);
    var c1 := SetOneBit(c0, Z, if value == 0 then 1 else 0);
    var c2 := if flagC != KEEP then SetOneBit(c1, C, flagC) else c1;
    if flagV != KEEP then SetOneBit(c2, V, flagV) else c2
  }

  function FlagN(cpsr: Word): Flag { Bit(cpsr, N) }
  function FlagZ(cpsr: Word): Flag { Bit(cpsr, Z) }
  function FlagC(cpsr: Word): Flag { Bit(cpsr, C) }
  function FlagV(cpsr: Word): Flag { Bit(cpsr, V) }

  lemma WriteFlagsBit(cpsr: Word, value: Word, c: Byte, v: Byte, i: nat)
    requires FlagArgument(c) && FlagArgument(v) && i < 32
    ensures Bit(ArmWriteFlags(cpsr, value, c, v), i)
         == if i == N then (if Signed(value) < 0 then 1 else 0)
            else if i == Z then (if value == 0 then 1 else 0)
            else if i == C && c != KEEP then c
            else if i == V && v != KEEP then v
            else Bit(cpsr, i)
  {
    hide SetOneBit, Bit, Shr;
    SignBit(value);
    var z := if value == 0 then 1 else 0;
    var c0 := SetOneBit(cpsr, N, Shr(value, 31) % 2);
    var c1 := SetOneBit(c0, Z, z);
    var c2 := if c != KEEP then SetOneBit(c1, C, c) else c1;
    SetOneBitBits(cpsr, N, Shr(value, 31) % 2, i);
    SetOneBitBits(c0, Z, z, i);
    if c != KEEP { SetOneBitBits(c1, C, c, i); }
    if v != KEEP { SetOneBitBits(c2, V, v, i); }
  }

  /** The four flags together: each has its value, and bits 27..0 are kept. */
  lemma WriteFlagsExact(cpsr: Word, value: Word, c: Byte, v: Byte)
    requires FlagArgument(c) && FlagArgument(v)
    ensures var cpsr' := ArmWriteFlags(cpsr, value, c, v);
            && (FlagN(cpsr') == 1 <==> Signed(value) < 0)
            && (FlagZ(cpsr') == 1 <==> value == 0)
            && FlagC(cpsr') == (if c == KEEP then FlagC(cpsr) else c)
            && FlagV(cpsr') == (if v == KEEP then FlagV(cpsr) else v)
            && cpsr' % 0x1000_0000 == cpsr % 0x1000_0000
  {
    var cpsr' := ArmWriteFlags(cpsr, value, c, v);
    forall i: nat | i < 32 ensures i < 28 ==> Bit(cpsr', i) == Bit(cpsr, i) {
      WriteFlagsBit(cpsr, value, c, v, i);
    }
    WriteFlagsBit(cpsr, value, c, v, N);
    WriteFlagsBit(cpsr, value, c, v, Z);
    WriteFlagsBit(cpsr, value, c, v, C);
    WriteFlagsBit(cpsr, value, c, v, V);
    Pow2Values();
    SameLowBits(cpsr', cpsr, 28);
  }

  /** What `write_flags` does: every `set_1_bit` result is dropped and the old value written back. */
  function WriteFlags(cpsr: Word, value: Word, flagC: Byte, flagV: Byte): Word {
    var newCpsr := cpsr;
    newCpsr
  }

  /** So it performs the update exactly when there is nothing to update. */
  lemma WriteFlagsAgreesIff(cpsr: Word, value: Word, c: Byte, v: Byte)
    requires FlagArgument(c) && FlagArgument(v)
    ensures WriteFlags(cpsr, value, c, v) == ArmWriteFlags(cpsr, value, c, v)
       <==> (&& (FlagN(cpsr) == 1 <==> Signed(value) < 0)
             && (FlagZ(cpsr) == 1 <==> value == 0)
             && (c == KEEP || FlagC(cpsr) == c)
             && (v == KEEP || FlagV(cpsr) == v))
  {
    var cpsr' := ArmWriteFlags(cpsr, value, c, v);
    WriteFlagsExact(cpsr, value, c, v);
    if FlagN(cpsr) == FlagN(cpsr') && FlagZ(cpsr) == FlagZ(cpsr')
       && (c == KEEP || FlagC(cpsr) == c) && (v == KEEP || FlagV(cpsr) == v) {
      forall i: nat | i < 32 ensures Bit(cpsr', i) == Bit(cpsr, i) {
        WriteFlagsBit(cpsr, value, c, v, i);
      }
      SameWord(cpsr', cpsr);
    }
  }

  // ----- conditions -----

  function CheckCondFailed(n: Flag, z: Flag, v: Flag, c: Flag, cond: Byte): Flag {
    match cond
    case 0 => if z == 1 then 0 else 1
    case 1 => if z == 0 then 0 else 1
    case 2 => if c == 1 then 0 else 1
    case 3 => if c == 0 then 0 else 1
    case 4 => if n == 1 then 0 else 1
    case 5 => if n == 0 then 0 else 1
    case 6 => if v == 1 then 0 else 1
    case 7 => if v == 0 then 0 else 1
    case 8 => if c == 1 && z == 0 then 0 else 1
    case 9 => if c == 0 && z == 1 then 0 else 1
    case 10 => if (n == 1 && v == 1) || (n == 0 && v == 0) then 0 else 1
    case 11 => if (n == 1 && v == 0) || (n == 0 && v == 1) then 0 else 1
    case 12 => if z == 0 && ((n == 1 && v == 1) || (n == 0 && v == 0)) then 0 else 1
    case 13 => if z == 1 || (n == 1 && v == 0) || (n == 0 && v == 1) then 0 else 1
    case 14 => 0
    case 15 => 1
    case _ => 0
  }

  /** Section A3.2.1: eight tests, each with its negation. */
  predicate ArmPasses(cpsr: Word, cond: Byte)
    requires cond < 16
  {
    var n, z, c, v := FlagN(cpsr), FlagZ(cpsr), FlagC(cpsr), FlagV(cpsr);
    var test := match cond / 2
      case 0 => z == 1
      case 1 => c == 1
      case 2 => n == 1
      case 3 => v == 1
      case 4 => c == 1 && z == 0
      case 5 => n == v
      case 6 => z == 0 && n == v
      case _ => true;
    test != (cond % 2 == 1)
  }

  /** The condition check of a state: the flags come from the status register. */
  function CondFailed(cpsr: Word, cond: Byte): Flag {
    CheckCondFailed(FlagN(cpsr), FlagZ(cpsr), FlagV(cpsr), FlagC(cpsr), cond)
  }

  /** The source decides every condition right except LS (9), where it asks for C clear and Z set
      instead of one of the two: wrong exactly when C and Z agree. */
  lemma CondAgreesIff(cpsr: Word, cond: Byte)
    requires cond < 16
    ensures (CondFailed(cpsr, cond) == 0 <==> ArmPasses(cpsr, cond))
       <==> !(cond == 9 && FlagC(cpsr) == FlagZ(cpsr))
  {
  }

  /** Conditions 2k and 2k+1 are complementary; in the source the pair HI / LS only when C and Z
      differ. */
  lemma CondPairs(cpsr: Word, k: nat)
    requires k < 8
    ensures ArmPasses(cpsr, 2 * k) != ArmPasses(cpsr, 2 * k + 1)
    ensures CondFailed(cpsr, 2 * k) != CondFailed(cpsr, 2 * k + 1) <==> !(k == 4 && FlagC(cpsr) == FlagZ(cpsr))
  {
  }
}
