/**
Exactly when the source's shifter operand, cut to a byte on the way in and to 16 bits on the way
out, is the manual's. The conditions are on the fields of the instruction and on the contents of
Rm and Rs, for every 32-bit content.
 */
module OperandLimits {
  import opened Words
  import opened Flags
  import opened Shifter

  // ----- parts of a word -----

  lemma ModMod(x: nat, p: nat, k: nat)
    requires p > 0 && k > 0
    ensures p * k > 0
    ensures (x % (p * k)) % p == x % p
  {
    ModScale(x, p, k);
    DivMod(x, p);
    DivMod(x / p, k);
    DivUnique(x % (p * k), p, (x / p) % k, x % p);
  }

  lemma ModPow(x: nat, a: nat, b: nat)
    requires a <= b
    ensures (x % Pow2(b)) % Pow2(a) == x % Pow2(a)
  {
    Pow2Add(a, b - a);
    ModMod(x, Pow2(a), Pow2(b - a));
  }

  lemma SmallMod(x: nat, p: nat)
    requires p > 0
    ensures x % p == x <==> x < p
  {
    DivMod(x, p);
    if x < p { DivUnique(x, p, 0, x); }
  }

  lemma CancelFactor(x: int, y: int, p: nat)
    requires p > 0
    ensures x * p == y * p <==> x == y
  {
    if x < y { MulMono(p, x + 1, y); } else if y < x { MulMono(p, y + 1, x); }
  }

  /** The low byte, read through another modulus. */
  lemma LowByte(rm: Word)
    ensures rm % Pow2(8) == rm % 256
  {
    Pow2Values();
  }

  /** A small quotient of the low byte. */
  lemma ByteShr(b: Byte, n: nat)
    requires n >= 8
    ensures Shr(b, n) == 0
  {
    Pow2Values();
    Pow2Mono(8, n);
    SmallShr(b, n);
  }

  /** A quotient by at most 2^8, from the parts above and in the low byte. */
  lemma QuotientParts(rm: Word, n: nat)
    requires n <= 8
    ensures Shr(rm, n) == (rm / 256) * Pow2(8 - n) + Shr(rm % 256, n)
  {
    Pow2Values();
    Pow2Add(n, 8 - n);
    DivMod(rm % 256, Pow2(n));
    QuotientOfParts(rm, rm / 256, rm % 256, Pow2(n), Pow2(8 - n));
  }

  lemma QuotientOfParts(x: nat, h: nat, b: nat, p: nat, q: nat)
    requires p > 0 && p * q == 256 && x == 256 * h + b
    ensures x / p == h * q + b / p
  {
    DivMod(b, p);
    assert p * (h * q + b / p) == (p * q) * h + p * (b / p);
    DivUnique(x, p, h * q + b / p, b % p);
  }

  /** A quotient by 2^8 or more does not see the low byte. */
  lemma QuotientAbove(rm: Word, n: nat)
    requires n >= 8
    ensures Shr(rm, n) == (rm / 256) / Pow2(n - 8)
  {
    Pow2Values();
    Pow2Add(8, n - 8);
    DivDiv(rm, 256, Pow2(n - 8));
  }

  lemma QuotientZero(rm: Word, n: nat)
    ensures Shr(rm, n) == 0 <==> rm < Pow2(n)
  {
    DivMod(rm, Pow2(n));
    if rm < Pow2(n) { SmallShr(rm, n); } else { DivAtLeast(rm, Pow2(n), 1); }
  }

  // ----- left shifts -----

  /** How many low bits of Rm survive a left shift by n that starts from a byte and ends in 16 bits. */
  function Kept(n: nat): nat {
    if n <= 8 then 8 else if n < 16 then 16 - n else 0
  }

  lemma ShlByte(b: Byte, n: nat)
    requires n < 16
    ensures Shl(b, n) == b * Pow2(n)
  {
    Pow2Values();
    Pow2Mono(n, 16);
    hide Pow2, Wrap;
    ByteProduct(b, Pow2(n));
    WrapWord(b * Pow2(n));
  }

  lemma ByteProduct(b: Byte, p: nat)
    requires p <= 0x1_0000
    ensures 0 <= b * p < WORD
  {
    MulMono(b, p, 0x1_0000);
    MulMono(b, 0, p);
  }

  /** Low byte, shifted, low half. */
  lemma CodeLslValue(rm: Word, n: nat)
    requires n < 32
    ensures Shl(rm % 256, n) % 0x1_0000 == (rm % Pow2(Kept(n))) * Pow2(n)
  {
    hide Shl;
    if n < 16 {
      ShlByte(rm % 256, n);
      ByteTimes(rm, n);
    } else {
      LslVanishes(rm % 256, n);
      DivUnique(rm, 1, rm, 0);
    }
  }

  lemma ByteKept(rm: Word, n: nat)
    requires n < 16
    ensures (rm % 256) % Pow2(16 - n) == rm % Pow2(Kept(n))
  {
    LowByte(rm);
    if n <= 8 {
      Pow2Values();
      Pow2Mono(8, 16 - n);
      SmallMod(rm % 256, Pow2(16 - n));
    } else {
      ModPow(rm, 16 - n, 8);
    }
  }

  lemma ByteTimes(rm: Word, n: nat)
    requires n < 16
    ensures ((rm % 256) * Pow2(n)) % 0x1_0000 == (rm % Pow2(Kept(n))) * Pow2(n)
  {
    hide Pow2, Kept;
    Pow2Values();
    Pow2Add(16 - n, n);
    LowTimes(rm % 256, Pow2(16 - n), Pow2(n));
    ByteKept(rm, n);
  }

  lemma LslVanishes(b: Byte, n: nat)
    requires 16 <= n < 32
    ensures Shl(b, n) % 0x1_0000 == 0
  {
    hide Shl;
    ShlKeepsLow(b, 32 - n);
    assert Pow2(n) == 0x1_0000 * Pow2(n - 16) by { Pow2Add(16, n - 16); Pow2Values(); }
    NoLowHalf(b % Pow2(32 - n), Pow2(n - 16));
  }

  lemma NoLowHalf(x: int, k: int)
    ensures (x * (0x1_0000 * k)) % 0x1_0000 == 0
  {
    assert x * (0x1_0000 * k) == 0x1_0000 * (x * k);
  }

  /** LSL by n is right exactly when no bit of Rm above the kept ones stays in the word. */
  lemma LslValueIff(rm: Word, n: nat)
    requires n < 32
    ensures Shl(rm % 256, n) % 0x1_0000 == Shl(rm, n) <==> rm % Pow2(32 - n) < Pow2(Kept(n))
  {
    hide Shl;
    CodeLslValue(rm, n);
    ShlKeepsLow(rm, 32 - n);
    KeptPart(rm, n);
    var x: nat, y: nat := LowPart(rm, 32 - n), LowPart(rm, Kept(n));
    CancelFactor(x, y, Pow2(n));
  }

  function LowPart(x: nat, n: nat): (r: nat)
    ensures r == x % Pow2(n) && r < Pow2(n)
  {
    DivMod(x, Pow2(n));
    x % Pow2(n)
  }

  lemma KeptPart(rm: Word, n: nat)
    requires n < 32
    ensures rm % Pow2(32 - n) == rm % Pow2(Kept(n)) <==> rm % Pow2(32 - n) < Pow2(Kept(n))
  {
    ModPow(rm, Kept(n), 32 - n);
    SmallMod(LowPart(rm, 32 - n), Pow2(Kept(n)));
  }

  // ----- right shifts -----

  /** LSR by n is right exactly when Rm is a byte, or small enough to vanish altogether. */
  lemma LsrValueIff(rm: Word, n: nat)
    requires n < 32
    ensures Shr(rm % 256, n) == Shr(rm, n) <==> rm < Pow2(if n < 8 then 8 else n)
  {
    hide Shr;
    Pow2Values();
    if n < 8 {
      QuotientParts(rm, n);
      CancelFactor(rm / 256, 0, Pow2(8 - n));
    } else {
      ByteShr(rm % 256, n);
      QuotientZero(rm, n);
    }
  }

  lemma AsrPositive(rm: Word, n: nat)
    requires 1 <= n <= 32 && rm < 0x8000_0000
    ensures Asr(rm, n) == Shr(rm, n)
  {
    AsrFormula(rm, n);
  }

  lemma AsrNegative(rm: Word, n: nat)
    requires 1 <= n < 32 && rm >= 0x8000_0000
    ensures Asr(rm, n) >= 0x8000_0000
  {
    AsrFormula(rm, n);
    AsrStaysNegative(rm, n);
  }

  /** ASR by n: the same as LSR; a negative Rm is never right. */
  lemma AsrValueIff(rm: Word, n: nat)
    requires 1 <= n < 32
    ensures Asr(rm % 256, n) % 0x1_0000 == Asr(rm, n) <==> rm < Pow2(if n < 8 then 8 else n)
  {
    hide Asr, Shr;
    AsrOfByte(rm % 256, n);
    Pow2Values();
    Pow2Mono(if n < 8 then 8 else n, 31);
    if rm < 0x8000_0000 {
      AsrPositive(rm, n);
      LsrValueIff(rm, n);
    } else {
      AsrNegative(rm, n);
    }
  }

  // ----- rotations -----

  /** A rotation by n < 16 of a byte register whose low n bits are clear, or by n >= 16 of a register
      below 2^(n-16). */
  predicate RotationFits(rm: Word, n: nat) {
    rm < 256 && (if n < 16 then rm % Pow2(n) == 0 else rm < Pow2(n - 16))
  }

  /** The two parts of a rotation. */
  lemma RorPartsOf(rm: Word, n: nat) returns (h: nat, l: nat)
    requires n < 32
    ensures h == rm / Pow2(n) && l == rm % Pow2(n) && h < Pow2(32 - n)
    ensures Ror(rm, n) == h + l * Pow2(32 - n)
    ensures rm == Pow2(n) * h + l
  {
    RorFormula(rm, n);
    ShrFits(rm, n);
    DivMod(rm, Pow2(n));
    h, l := rm / Pow2(n), rm % Pow2(n);
  }

  lemma RorLowIff(rm: Word, n: nat)
    requires 1 <= n < 16
    ensures Ror(rm % 256, n) % 0x1_0000 == Ror(rm, n) <==> RotationFits(rm, n)
  {
    hide Ror, Shr, Pow2;
    RotatedByteLow(rm % 256, n);
    var h, l := RorPartsOf(rm, n);
    if l > 0 {
      HighParts(h, l, n);
    } else {
      LsrValueIff(rm, n);
      WholeQuotient(rm, h, n);
    }
  }

  lemma HighParts(h: nat, l: nat, n: nat)
    requires n < 16 && l > 0
    ensures h + l * Pow2(32 - n) >= 0x1_0000
  {
    Pow2Values();
    Pow2Mono(16, 32 - n);
    MulMono(Pow2(32 - n), 1, l);
  }

  lemma WholeQuotient(rm: Word, h: nat, n: nat)
    requires 1 <= n < 16 && rm == Pow2(n) * h && h == rm / Pow2(n)
    ensures Shr(rm, n) == h
    ensures rm < Pow2(if n < 8 then 8 else n) <==> rm < 256
  {
    Pow2Values();
    if n >= 8 {
      Pow2Mono(8, n);
      if h > 0 { MulMono(Pow2(n), 1, h); }
    }
  }

  lemma RorHighIff(rm: Word, n: nat)
    requires 16 <= n < 32
    ensures Ror(rm % 256, n) % 0x1_0000 == Ror(rm, n) <==> RotationFits(rm, n)
  {
    hide Ror;
    var b, r, q := rm % 256, n - 16, Pow2(32 - n);
    RotatedByteHigh(b, r);
    Pow2Values();
    Pow2Add(r, 16 - r);
    LowTimes(b, Pow2(r), q);
    var h, l := RorPartsOf(rm, n);
    var y := LowPart(b, r);
    SmallDigits(h, l, y, q);
    SmallMod(b, Pow2(r));
    SameQuotient(rm, h, l, n);
    Pow2Mono(r, n);
    if rm == y { assert rm < 256; }
  }

  /** h + l q is y q, with h < q, exactly when h = 0 and l = y. */
  lemma SmallDigits(h: nat, l: nat, y: nat, q: nat)
    requires h < q
    ensures h + l * q == q * y <==> h == 0 && l == y
  {
    if h + l * q == q * y { EuclidUnique(q, l, h, y, 0); }
  }

  lemma SameQuotient(rm: Word, h: nat, l: nat, n: nat)
    requires rm == Pow2(n) * h + l && l < Pow2(n)
    ensures h == 0 <==> rm < Pow2(n)
    ensures h == 0 ==> l == rm
  {
    if h > 0 { MulMono(Pow2(n), 1, h); }
  }

  lemma RorValueIff(rm: Word, n: nat)
    requires 1 <= n < 32
    ensures Ror(rm % 256, n) % 0x1_0000 == Ror(rm, n) <==> RotationFits(rm, n)
  {
    if n < 16 { RorLowIff(rm, n); } else { RorHighIff(rm, n); }
  }

  // ----- carries -----

  lemma ShrBit(x: Word, k: nat)
    ensures Shr(x, k) % 2 == Bit(x, k)
  {
    BitIsShift(x, k);
  }

  /** The source sees the bits of the low byte only. */
  lemma ByteBit(rm: Word, k: nat)
    ensures Bit(rm % 256, k) == if k < 8 then Bit(rm, k) else 0
  {
    Pow2Values();
    if k < 8 { BitOfMod(rm, 8, k); } else { BitAboveWidth(rm % 256, 8, k); }
  }

  lemma CodeBit(rm: Word, k: nat)
    ensures Shr(rm % 256, k) % 2 == if k < 8 then Bit(rm, k) else 0
  {
    ShrBit(rm % 256, k);
    ByteBit(rm, k);
  }

  // ----- shift by an immediate -----

  /** What the value of an immediate shift needs. ROR #0 keeps the field `so` instead of rotating
      through the carry. */
  predicate ImmediateValueRight(t: ShiftType, rm: Word, imm: nat, so: nat, c: Flag)
    requires imm < 32
  {
    match t
    case LSL => rm % Pow2(32 - imm) < Pow2(Kept(imm))
    case LSR => imm == 0 || rm < Pow2(if imm < 8 then 8 else imm)
    case ASR => if imm == 0 then rm < 0x8000_0000 else rm < Pow2(if imm < 8 then 8 else imm)
    case ROR => if imm == 0 then c == 0 && rm / 2 == so else RotationFits(rm, imm)
  }

  /** What its carry-out needs: the bit shifted out is in the low byte, or clear. */
  predicate ImmediateCarryRight(t: ShiftType, rm: Word, imm: nat, stale: Flag)
    requires imm < 32
  {
    match t
    case LSL => imm == 0 || imm > 24 || Bit(rm, 32 - imm) == 0
    case LSR => if imm == 0 then rm < 0x8000_0000 else imm <= 8 || Bit(rm, imm - 1) == 0
    case ASR => if imm == 0 then rm < 0x8000_0000 else imm <= 8 || Bit(rm, imm - 1) == 0
    case ROR => if imm == 0 then stale == rm % 2 else imm <= 8 || Bit(rm, imm - 1) == 0
  }

  lemma ShlNothing(rm: Word)
    ensures Shl(rm, 0) == rm
  {
    WrapWord(rm);
  }

  lemma ImmediateLslIff(rm: Word, imm: nat, c: Flag, so: nat, stale: Flag)
    requires imm < 32 && so < 0x1000
    ensures var code, arm := CodeShiftImmediate(LSL, rm, imm, c, so, stale), ArmShiftImmediate(LSL, rm, imm, c);
            && (code.value == arm.value <==> ImmediateValueRight(LSL, rm, imm, so, c))
            && (code.carry == arm.carry <==> ImmediateCarryRight(LSL, rm, imm, stale))
  {
    hide Shl, Shr, Asr, Ror, Rrx, Bit, Pow2, Kept;
    LslValueIff(rm, imm);
    ShlNothing(rm);
    ShlNothing(rm % 256);
    if imm > 0 {
      CodeBit(rm, 32 - imm);
      ShrBit(rm, 32 - imm);
    }
  }

  lemma ImmediateLsrIff(rm: Word, imm: nat, c: Flag, so: nat, stale: Flag)
    requires imm < 32 && so < 0x1000
    ensures var code, arm := CodeShiftImmediate(LSR, rm, imm, c, so, stale), ArmShiftImmediate(LSR, rm, imm, c);
            && (code.value == arm.value <==> ImmediateValueRight(LSR, rm, imm, so, c))
            && (code.carry == arm.carry <==> ImmediateCarryRight(LSR, rm, imm, stale))
  {
    hide Shr, Bit;
    NoHighBits(rm % 256);
    SignBit(rm);
    if imm > 0 {
      LsrValueIff(rm, imm);
      CodeBit(rm, imm - 1);
      ShrBit(rm, imm - 1);
    }
  }

  lemma ImmediateAsrIff(rm: Word, imm: nat, c: Flag, so: nat, stale: Flag)
    requires imm < 32 && so < 0x1000
    ensures var code, arm := CodeShiftImmediate(ASR, rm, imm, c, so, stale), ArmShiftImmediate(ASR, rm, imm, c);
            && (code.value == arm.value <==> ImmediateValueRight(ASR, rm, imm, so, c))
            && (code.carry == arm.carry <==> ImmediateCarryRight(ASR, rm, imm, stale))
  {
    hide Shl, Shr, Asr, Bit;
    NoHighBits(rm % 256);
    ShlTop(rm % 256);
    SignBit(rm);
    if imm > 0 {
      AsrValueIff(rm, imm);
      CodeBit(rm, imm - 1);
      ShrBit(rm, imm - 1);
    }
  }

  lemma ImmediateRorIff(rm: Word, imm: nat, c: Flag, so: nat, stale: Flag)
    requires imm < 32 && so < 0x1000
    ensures var code, arm := CodeShiftImmediate(ROR, rm, imm, c, so, stale), ArmShiftImmediate(ROR, rm, imm, c);
            && (code.value == arm.value <==> ImmediateValueRight(ROR, rm, imm, so, c))
            && (code.carry == arm.carry <==> ImmediateCarryRight(ROR, rm, imm, stale))
  {
    hide Shr, Ror, Bit, Rrx, RotationFits;
    RrxValue(rm, c);
    if imm > 0 {
      RorValueIff(rm, imm);
      CodeBit(rm, imm - 1);
      ShrBit(rm, imm - 1);
    }
  }

  /** For every type, amount and 32-bit register, the operand and the carry-out of an immediate shift
      are the manual's exactly under these conditions, RRX included. */
  lemma CodeShiftImmediateIff(t: ShiftType, rm: Word, imm: nat, c: Flag, so: nat, stale: Flag)
    requires imm < 32 && so < 0x1000
    ensures var code, arm := CodeShiftImmediate(t, rm, imm, c, so, stale), ArmShiftImmediate(t, rm, imm, c);
            && (code.value == arm.value <==> ImmediateValueRight(t, rm, imm, so, c))
            && (code.carry == arm.carry <==> ImmediateCarryRight(t, rm, imm, stale))
  {
    match t
    case LSL => ImmediateLslIff(rm, imm, c, so, stale);
    case LSR => ImmediateLsrIff(rm, imm, c, so, stale);
    case ASR => ImmediateAsrIff(rm, imm, c, so, stale);
    case ROR => ImmediateRorIff(rm, imm, c, so, stale);
  }

  /** So the source refines the bit-by-bit shift exactly there. */
  lemma CodeImmediateShiftRefinesIff(t: ShiftType, rm: Word, imm: nat, c: Flag, so: nat, stale: Flag)
    requires imm < 32 && so < 0x1000 && !(t == ROR && imm == 0)
    ensures var code := CodeShiftImmediate(t, rm, imm, c, so, stale);
            var bits := Iterate(t, rm, if imm == 0 && t != LSL then 32 else imm, c);
            && (code.value == bits.value <==> ImmediateValueRight(t, rm, imm, so, c))
            && (code.carry == bits.carry <==> ImmediateCarryRight(t, rm, imm, stale))
  {
    hide CodeShiftImmediate, ArmShiftImmediate, Iterate, ImmediateValueRight, ImmediateCarryRight;
    CodeShiftImmediateIff(t, rm, imm, c, so, stale);
    ImmediateShiftIsIterated(t, rm, imm, c);
  }

  // ----- rotated immediates -----

  /** A rotated immediate is right exactly when its rotation keeps it in 16 bits, told from the two
      fields; its carry exactly when the rotation is zero or the last bit rotated out is clear. */
  lemma CodeRotatedImmediateIff(rm: Word, rdest: nat, so: nat, c: Flag, stale: Flag)
    requires rdest < 16 && so < 0x1000
    ensures var code := UpdateShifterOperand(rm, rdest, so, 1, c, stale);
            var arm := ArmRotatedImmediate(so % 256, so / 256, c);
            var n := 2 * (so / 256);
            && (code.value == arm.value <==> n == 0 || RotationFits(so % 256, n))
            && (code.carry == arm.carry <==> n == 0 || Bit(so % 256, n - 1) == 0)
  {
    hide Ror, Shr, Bit, RotationFits;
    var b: Byte, n := so % 256, 2 * (so / 256);
    NoHighBits(Ror(b, n) % 0x1_0000);
    if n == 0 {
      RorNothing(b);
    } else {
      RorValueIff(b, n);
      TopBitRotated(b, n);
    }
  }

  lemma TopBitRotated(b: Byte, n: nat)
    requires 1 <= n < 32
    ensures Shr(Ror(b, n), 31) % 2 == Bit(b, n - 1)
  {
    hide Iterate, Ror, Shr, Bit;
    RorSmall(b, n, 0);
    RorCarryIsTopBit(b, n, 0);
    ShrBit(b, n - 1);
  }

  lemma RorNothing(x: Word)
    ensures Ror(x, 0) == x
  {
    RorFormula(x, 0);
    DivUnique(x, 1, x, 0);
  }

  // ----- shift by a register: the amounts differ -----
  //
  // k is the amount the source takes, the number rd * 16 + rs made of two register fields; m is the
  // amount of the manual, the low byte of Rs.

  /** An odd factor does not help to reach a power of two. */
  lemma {:induction false} OddFactor(z: nat, o: nat, q: nat, j: nat)
    requires o % 2 == 1 && z * o == Pow2(j) * q
    ensures z % Pow2(j) == 0
  {
    if j == 0 {
      DivUnique(z, 1, z, 0);
    } else {
      DoubleProduct(Pow2(j - 1), q);
      EvenFactor(z, o, Pow2(j - 1) * q);
      DoubleProduct(z / 2, o);
      OddFactor(z / 2, o, q, j - 1);
      ModDouble(z, Pow2(j - 1));
    }
  }

  lemma EvenFactor(z: nat, o: nat, y: int)
    requires o % 2 == 1 && z * o == 2 * y
    ensures z % 2 == 0
  {
    var h := o / 2;
    assert z * o == 2 * (z * h) + z by { assert z * (2 * h + 1) == 2 * (z * h) + z; }
  }

  /** Numbers with the same remainder differ by a multiple. */
  lemma SameRemainder(x: nat, y: nat, p: nat) returns (q: nat)
    requires p > 0 && x <= y && x % p == y % p
    ensures y - x == p * q
  {
    DivMod(x, p);
    DivMod(y, p);
    var a, b := x / p, y / p;
    if b < a { MulMono(p, b + 1, a); }
    q := b - a;
    assert p * q == p * b - p * a;
  }

  /** y is x shifted up, and both have the same j low bits and one of them no others: both are 0. */
  lemma NothingRepeats(x: nat, y: nat, d: nat, j: nat)
    requires d > 0 && y == x * Pow2(d)
    requires x % Pow2(j) == y % Pow2(j)
    requires x < Pow2(j) || y < Pow2(j)
    ensures x == 0 && y == 0
  {
    assert Pow2(d) == 2 * Pow2(d - 1);
    NothingRepeatsBy(x, y, Pow2(d), j);
  }

  lemma NothingRepeatsBy(x: nat, y: nat, e: nat, j: nat)
    requires e > 0 && e % 2 == 0 && y == x * e
    requires x % Pow2(j) == y % Pow2(j)
    requires x < Pow2(j) || y < Pow2(j)
    ensures x == 0 && y == 0
  {
    hide Pow2;
    MulMono(x, 1, e);
    var q := SameRemainder(x, y, Pow2(j));
    Predecessor(x, e);
    OddFactor(x, e - 1, q, j);
    SmallMod(x, Pow2(j));
    SmallMod(y, Pow2(j));
  }

  lemma Predecessor(x: int, e: int)
    ensures x * (e - 1) == x * e - x
    ensures x == 0 ==> x * e == 0
  {
  }

  lemma ShiftedApart(x: nat, y: nat, k: nat, m: nat)
    requires k < m && x * Pow2(m) == y * Pow2(k)
    ensures y == x * Pow2(m - k)
  {
    Pow2Add(k, m - k);
    assert x * (Pow2(k) * Pow2(m - k)) == (x * Pow2(m - k)) * Pow2(k);
    CancelFactor(y, x * Pow2(m - k), Pow2(k));
  }

  /** Two different left shifts of (parts of) one register have no common value but 0. */
  lemma NoCoincidence(rm: Word, a: nat, b: nat, k: nat, m: nat)
    requires k != m && LowPart(rm, a) * Pow2(m) == LowPart(rm, b) * Pow2(k)
    ensures LowPart(rm, a) == 0 && LowPart(rm, b) == 0
  {
    hide Pow2;
    var x, y := LowPart(rm, a), LowPart(rm, b);
    var j := if a <= b then a else b;
    ModPow(rm, j, a);
    ModPow(rm, j, b);
    if k < m {
      ShiftedApart(x, y, k, m);
      NothingRepeats(x, y, m - k, j);
    } else {
      ShiftedApart(y, x, m, k);
      NothingRepeats(y, x, k - m, j);
    }
  }

  /** LSL: with equal amounts as for an immediate; with different ones exactly when both results are
      zero. */
  predicate LslRight(rm: Word, k: nat, m: nat) {
    if k == m then k >= 32 || rm % Pow2(32 - k) < Pow2(Kept(k))
    else (k >= 32 || rm % Pow2(Kept(k)) == 0) && (m >= 32 || rm % Pow2(32 - m) == 0)
  }

  /** LSR: with equal amounts as for an immediate. Where the source shifts by more, or by 8 and more,
      exactly when nothing is left after m; where it shifts by less, when what is left of the upper bytes
      and of the low byte after m is what is left of the low byte after k. */
  predicate LsrRight(rm: Word, k: nat, m: nat) {
    var h, b := rm / 256, rm % 256;
    if k == m then k >= 32 || rm < Pow2(if k < 8 then 8 else k)
    else if m < k || k >= 8 then rm < Pow2(m)
    else if m <= 8 then h * Pow2(8 - m) + b / Pow2(m) == b / Pow2(k)
    else if m < 32 then h / Pow2(m - 8) == b / Pow2(k)
    else b < Pow2(k)
  }

  /** ASR: never for a negative register; by 32 and more the source leaves 0xFFFF. */
  predicate AsrRight(rm: Word, k: nat, m: nat) {
    rm < 0x8000_0000 &&
    if k < 32 then LsrRight(rm, k, m) else m < 16 && 0xFFFF * Pow2(m) <= rm < 0x1_0000 * Pow2(m)
  }

  /** ROR: only for zero, or a byte that loses no bit, rotated by amounts that agree as the source
      (modulo 16) and the manual (modulo 32) take them. */
  predicate RorRight(rm: Word, k: nat, m: nat) {
    rm == 0 || (rm < 256 && k % 16 == m % 32 && rm % Pow2(m % 32) == 0)
  }

  predicate RegisterValueRight(t: ShiftType, rm: Word, k: nat, m: nat) {
    match t
    case LSL => LslRight(rm, k, m)
    case LSR => LsrRight(rm, k, m)
    case ASR => AsrRight(rm, k, m)
    case ROR => RorRight(rm, k, m)
  }

  lemma ZeroFactor(x: nat, n: nat)
    ensures x * Pow2(n) == 0 <==> x == 0
  {
    CancelFactor(x, 0, Pow2(n));
  }

  lemma RegisterLslIff(rm: Word, k: Byte, m: Byte, c: Flag)
    ensures CodeShiftRegister(LSL, rm, k, c).value == ArmShiftRegister(LSL, rm, m, c).value <==> LslRight(rm, k, m)
  {
    hide Shl, Shr, Kept;
    ShlNothing(rm);
    ShlNothing(rm % 256);
    if k < 32 { CodeLslValue(rm, k); ZeroFactor(LowPart(rm, Kept(k)), k); }
    if m < 32 { ShlKeepsLow(rm, 32 - m); ZeroFactor(LowPart(rm, 32 - m), m); }
    if k < 32 && m < 32 { SmallLsl(rm, k, m); }
  }

  lemma SmallLsl(rm: Word, k: nat, m: nat)
    requires k < 32 && m < 32
    ensures Shl(rm % 256, k) % 0x1_0000 == Shl(rm, m) <==> LslRight(rm, k, m)
  {
    hide Shl, Kept;
    CodeLslValue(rm, k);
    ShlKeepsLow(rm, 32 - m);
    if k == m { LslValueIff(rm, k); } else { DifferentLsl(rm, k, m); }
  }

  lemma DifferentLsl(rm: Word, k: nat, m: nat)
    requires k < 32 && m < 32 && k != m
    ensures LowPart(rm, 32 - m) * Pow2(m) == LowPart(rm, Kept(k)) * Pow2(k)
       <==> LowPart(rm, 32 - m) == 0 && LowPart(rm, Kept(k)) == 0
  {
    hide Pow2, Kept;
    ZeroFactor(0, m);
    ZeroFactor(0, k);
    if LowPart(rm, 32 - m) * Pow2(m) == LowPart(rm, Kept(k)) * Pow2(k) { NoCoincidence(rm, 32 - m, Kept(k), k, m); }
  }

  lemma ShrNothing(rm: Word)
    ensures Shr(rm, 0) == rm
  {
    DivUnique(rm, 1, rm, 0);
  }

  /** A shift by more than m that leaves as much leaves nothing. */
  lemma ShorterShift(rm: Word, k: nat, m: nat)
    requires m < k
    ensures Shr(rm % 256, k) == Shr(rm, m) <==> rm < Pow2(m)
  {
    QuotientZero(rm, m);
    if rm < Pow2(m) {
      Pow2Mono(m, k);
      SmallShr(rm % 256, k);
    } else {
      MoreQuotient(rm, k, m);
      Pow2Values();
      Pow2Mono(1, k - m);
      if Shr(rm % 256, k) == Shr(rm, m) { QuotientBelow(Shr(rm, m), Pow2(k - m)); }
    }
  }

  lemma MoreQuotient(rm: Word, k: nat, m: nat)
    requires m < k
    ensures Shr(rm % 256, k) <= Shr(rm, m) / Pow2(k - m)
  {
    hide Pow2;
    Pow2Add(m, k - m);
    DivDiv(rm, Pow2(m), Pow2(k - m));
    LowByteAtMost(rm);
    QuotientMono(rm % 256, rm, Pow2(k));
  }

  lemma LowByteAtMost(x: nat)
    ensures x % 256 <= x
  {
  }

  lemma QuotientMono(x: nat, y: nat, d: nat)
    requires d > 0 && x <= y
    ensures x / d <= y / d
  {
    DivMod(x, d);
    DivAtLeast(y, d, x / d);
  }

  /** The quotients themselves. */
  lemma QuotientsIff(rm: Word, k: nat, m: nat)
    ensures Shr(rm % 256, k) == Shr(rm, m) <==> LsrRight(rm, k, m)
  {
    if k == m {
      if k < 32 { LsrValueIff(rm, k); } else { ShrBig(rm, k); ShrBig(rm % 256, k); }
    } else if k >= 8 {
      ByteShr(rm % 256, k);
      QuotientZero(rm, m);
    } else if m < k {
      ShorterShift(rm, k, m);
    } else if m <= 8 {
      QuotientParts(rm, m);
    } else if m < 32 {
      QuotientAbove(rm, m);
    } else {
      ShrBig(rm, m);
      QuotientZero(rm % 256, k);
    }
  }

  lemma RegisterLsrIff(rm: Word, k: Byte, m: Byte, c: Flag)
    ensures CodeShiftRegister(LSR, rm, k, c).value == ArmShiftRegister(LSR, rm, m, c).value <==> LsrRight(rm, k, m)
  {
    hide Shr, LsrRight;
    QuotientsIff(rm, k, m);
    ShrNothing(rm);
    ShrNothing(rm % 256);
    if k >= 32 { ShrBig(rm % 256, k); }
    if m >= 32 { ShrBig(rm, m); }
  }

  lemma AllOnesHalf(rm: Word, m: nat)
    requires rm < 0x8000_0000
    ensures Shr(rm, m) == 0xFFFF <==> m < 16 && 0xFFFF * Pow2(m) <= rm < 0x1_0000 * Pow2(m)
  {
    DivMod(rm, Pow2(m));
    HalfQuotient(rm, Pow2(m), Shr(rm, m), rm % Pow2(m));
    if m >= 16 {
      Pow2Values();
      Pow2Mono(16, m);
      MulMono(0xFFFF, 0x1_0000, Pow2(m));
    }
  }

  lemma HalfQuotient(x: nat, p: nat, q: nat, r: nat)
    requires x == p * q + r && r < p
    ensures q == 0xFFFF <==> 0xFFFF * p <= x < 0x1_0000 * p
  {
    if q < 0xFFFF { MulMono(p, q + 1, 0xFFFF); } else if q > 0xFFFF { MulMono(p, 0x1_0000, q); }
  }

  lemma RegisterAsrIff(rm: Word, k: Byte, m: Byte, c: Flag)
    ensures CodeShiftRegister(ASR, rm, k, c).value == ArmShiftRegister(ASR, rm, m, c).value <==> AsrRight(rm, k, m)
  {
    hide Shr, Asr, LsrRight, Pow2;
    NoHighBits(rm % 256);
    SignBit(rm);
    ShrNothing(rm);
    ShrNothing(rm % 256);
    if 0 < k < 32 { AsrOfByte(rm % 256, k); }
    if rm < 0x8000_0000 {
      QuotientsIff(rm, k, m);
      AllOnesHalf(rm, m);
      if 0 < m < 32 { AsrPositive(rm, m); }
      if m >= 32 { ShrBig(rm, m); }
    } else if 0 < m < 32 {
      AsrNegative(rm, m);
    }
  }

  /** A rotation of the register that equals a shift of its low byte, by cases on the manual's amount. */
  lemma RotationIsQuotient(rm: Word, r: nat, j: nat)
    requires r < 16 && j < 32
    ensures Ror(rm, j) == Shr(rm % 256, r) <==> rm == 0 || (rm < 256 && r == j && rm % Pow2(j) == 0)
  {
    hide Ror, Pow2;
    var h, l := RorPartsOf(rm, j);
    var v := Shr(rm % 256, r);
    if rm == 0 {
      NoParts(h, l, j);
      QuotientZero(0, r);
    } else if Ror(rm, j) == v {
      if j > 24 { ManyRotated(rm, h, l, v, r, j); }
      else if j >= 8 { SomeRotated(rm, h, l, v, r, j); }
      else { FewRotated(rm, h, l, v, r, j); }
    }
  }

  lemma NoParts(h: nat, l: nat, j: nat)
    requires 0 == Pow2(j) * h + l
    ensures h == 0 && l == 0 && l * Pow2(32 - (if j < 32 then j else 0)) == 0
  {
    if h > 0 { MulMono(Pow2(j), 1, h); }
  }

  lemma LowByteOfSum(x: nat, p: nat, h: nat, l: nat)
    requires x == (256 * p) * h + l && l < 256
    ensures x % 256 == l
  {
    assert (256 * p) * h == 256 * (p * h);
    DivUnique(x, 256, p * h, l);
  }

  lemma ManyRotated(rm: Word, h: nat, l: nat, v: nat, r: nat, j: nat)
    requires 24 < j < 32 && rm == Pow2(j) * h + l
    requires v == Shr(rm % 256, r) == h + l * Pow2(32 - j)
    ensures rm == 0
  {
    hide Pow2, Shr;
    Pow2Values();
    Pow2Mono(1, 32 - j);
    MulMono(l, 2, Pow2(32 - j));
    Pow2Add(8, j - 8);
    LowByteOfSum(rm, Pow2(j - 8), h, l);
    assert l == 0 && h == 0;
  }

  /** With j <= 24 nothing may be rotated to the top. */
  lemma NothingOnTop(h: nat, l: nat, v: nat, j: nat)
    requires j <= 24 && v < 256 && v == h + l * Pow2(32 - j)
    ensures l == 0 && h == v
  {
    Pow2Values();
    Pow2Mono(8, 32 - j);
    MulMono(l, 256, Pow2(32 - j));
  }

  lemma SomeRotated(rm: Word, h: nat, l: nat, v: nat, r: nat, j: nat)
    requires 8 <= j <= 24 && rm == Pow2(j) * h + l
    requires v == Shr(rm % 256, r) == h + l * Pow2(32 - j)
    ensures rm == 0
  {
    NothingOnTop(h, l, v, j);
    Pow2Values();
    Pow2Add(8, j - 8);
    hide Pow2;
    NoLowByte(rm, Pow2(j - 8), h);
    QuotientZero(0, r);
    Predecessor(0, Pow2(j));
  }

  lemma NoLowByte(x: nat, p: nat, h: nat)
    requires x == (256 * p) * h
    ensures x % 256 == 0
  {
    assert (256 * p) * h == 256 * (p * h);
  }

  lemma FewRotated(rm: Word, h: nat, l: nat, v: nat, r: nat, j: nat)
    requires j < 8 && r < 16 && rm == Pow2(j) * h + l
    requires v == Shr(rm % 256, r) == h + l * Pow2(32 - j)
    ensures rm == 0 || (rm < 256 && r == j && rm % Pow2(j) == 0)
  {
    hide Pow2;
    NothingOnTop(h, l, v, j);
    var w := LowPart(v, 8 - j);
    LowByteOfShifted(rm, v, w, j);
    ZeroFactor(0, j);
    if r < j {
      ShiftDown(w, v, j, r);
      ModPow(v, 8 - j, 8 - j);
      NothingRepeats(w, v, j - r, 8 - j);
    } else if r == j {
      ExactQuotient(w, j);
      ShiftedByte(v, j);
    } else {
      LowAtMost(v, 8 - j);
      HalvesAtLeast(w, v, j, r);
    }
  }

  lemma LowAtMost(x: nat, n: nat)
    ensures LowPart(x, n) <= x
  {
    DivMod(x, Pow2(n));
    MulMono(Pow2(n), 0, x / Pow2(n));
  }

  lemma LowByteOfShifted(rm: Word, v: nat, w: nat, j: nat)
    requires j < 8 && rm == Pow2(j) * v && w == v % Pow2(8 - j)
    ensures rm % 256 == Pow2(j) * w && rm % Pow2(j) == 0
  {
    hide Pow2;
    Pow2Values();
    Pow2Add(j, 8 - j);
    LowPartOfProduct(rm, v, w, Pow2(j), Pow2(8 - j));
  }

  lemma LowPartOfProduct(x: nat, v: nat, w: nat, p: nat, q: nat)
    requires p > 0 && q > 0 && p * q == 256 && x == p * v && w == v % q
    ensures x % 256 == p * w && x % p == 0
  {
    MulMod(v, p, q);
    DivUnique(x, p, v, 0);
  }

  lemma ShiftDown(w: nat, v: nat, j: nat, r: nat)
    requires r < j && v == (Pow2(j) * w) / Pow2(r)
    ensures v == w * Pow2(j - r)
  {
    Pow2Add(r, j - r);
    assert (Pow2(r) * Pow2(j - r)) * w == Pow2(r) * (w * Pow2(j - r));
    DivUnique(Pow2(j) * w, Pow2(r), w * Pow2(j - r), 0);
  }

  lemma ExactQuotient(w: nat, j: nat)
    ensures (Pow2(j) * w) / Pow2(j) == w
  {
    DivUnique(Pow2(j) * w, Pow2(j), w, 0);
  }

  lemma ShiftedByte(v: nat, j: nat)
    requires j < 8 && v < Pow2(8 - j)
    ensures Pow2(j) * v < 256
  {
    Pow2Values();
    Pow2Add(j, 8 - j);
    MulMono(Pow2(j), v + 1, Pow2(8 - j));
  }

  lemma QuotientBelow(w: nat, q: nat)
    requires q >= 2 && w <= w / q
    ensures w / q == 0
  {
    DivMod(w, q);
    MulMono(w / q, 2, q);
  }

  lemma HalvesAtLeast(w: nat, v: nat, j: nat, r: nat)
    requires j < r && w <= v && v == (Pow2(j) * w) / Pow2(r)
    ensures v == 0
  {
    hide Pow2;
    Pow2Add(j, r - j);
    MulDivCancel(w, Pow2(j), Pow2(r - j));
    Pow2Values();
    Pow2Mono(1, r - j);
    QuotientBelow(w, Pow2(r - j));
  }

  lemma RegisterRorIff(rm: Word, k: Byte, m: Byte, c: Flag)
    ensures CodeShiftRegister(ROR, rm, k, c).value == ArmShiftRegister(ROR, rm, m, c).value <==> RorRight(rm, k, m)
  {
    hide Shr, Asr, Ror, Pow2;
    RotationIsQuotient(rm, k % 16, m % 32);
    ShrNothing(rm % 256);
    RorNothing(rm);
    if k % 16 != 0 { AsrOfByte(rm % 256, k % 16); }
  }

  /** For every type, register content and pair of amounts, the operand of a shift by register is the
      manual's exactly under these conditions. */
  lemma CodeShiftRegisterIff(t: ShiftType, rm: Word, k: Byte, m: Byte, c: Flag)
    ensures CodeShiftRegister(t, rm, k, c).value == ArmShiftRegister(t, rm, m, c).value
       <==> RegisterValueRight(t, rm, k, m)
  {
    match t
    case LSL => RegisterLslIff(rm, k, m, c);
    case LSR => RegisterLsrIff(rm, k, m, c);
    case ASR => RegisterAsrIff(rm, k, m, c);
    case ROR => RegisterRorIff(rm, k, m, c);
  }

  /** The pairs of amounts for which the source is right on every register that holds a byte. */
  predicate AmountsRight(t: ShiftType, k: nat, m: nat) {
    match t
    case LSL => (k == m && k <= 8) || (k >= 16 && m >= 32)
    case LSR => k == m || (k >= 8 && m >= 8)
    case ASR => k < 32 && (k == m || (k >= 8 && m >= 8))
    case ROR => k % 16 == 0 && m % 32 == 0
  }

  lemma BytesVanish(b: Byte, n: nat)
    requires n >= 8
    ensures b / Pow2(n) == 0 && b < Pow2(n)
  {
    ByteShr(b, n);
    QuotientZero(b, n);
  }

  lemma LslAmounts(k: nat, m: nat)
    ensures (forall rm: Byte :: LslRight(rm, k, m)) <==> AmountsRight(LSL, k, m)
  {
    Pow2Values();
    if AmountsRight(LSL, k, m) {
      forall rm: Byte ensures LslRight(rm, k, m) {
        if k == m && k <= 8 { Pow2Mono(8, 32 - k); SmallMod(rm, Pow2(32 - k)); }
        DivUnique(rm, 1, rm, 0);
      }
    } else if k == m {
      var top: Byte := if k < 16 then 255 else 1;
      Pow2Mono(if k < 16 then 8 else 1, 32 - k);
      SmallMod(top, Pow2(32 - k));
      if k < 16 { Pow2Mono(16 - k, 7); }
      assert !LslRight(top, k, m);
    } else {
      if k < 16 { Pow2Mono(1, Kept(k)); SmallMod(1, Pow2(Kept(k))); }
      if m < 32 { Pow2Mono(1, 32 - m); SmallMod(1, Pow2(32 - m)); }
      assert !LslRight(1, k, m);
    }
  }

  lemma LsrAmounts(k: nat, m: nat)
    ensures (forall rm: Byte :: LsrRight(rm, k, m)) <==> AmountsRight(LSR, k, m)
  {
    if k == m {
      forall rm: Byte ensures LsrRight(rm, k, m) {
        BytesVanish(rm, if k < 8 then 8 else k);
      }
    } else if k >= 8 && m >= 8 {
      forall rm: Byte ensures LsrRight(rm, k, m) {
        BytesVanish(rm, k);
        BytesVanish(rm, m);
      }
    } else {
      DifferentBytes(k, m);
      assert !LsrRight(128, k, m);
    }
  }

  lemma TopBitShifted(n: nat)
    ensures Shr(128, n) == if n < 8 then Pow2(7 - n) else 0
  {
    Pow2Values();
    if n < 8 {
      Pow2Add(n, 7 - n);
      DivUnique(128, Pow2(n), Pow2(7 - n), 0);
    } else {
      ByteShr(128, n);
    }
  }

  lemma {:induction false} Pow2Distinct(a: nat, b: nat)
    requires a < b
    ensures Pow2(a) < Pow2(b)
  {
    Pow2Mono(a + 1, b);
  }

  lemma DifferentBytes(k: nat, m: nat)
    requires k != m && !(k >= 8 && m >= 8)
    ensures !LsrRight(128, k, m)
  {
    hide LsrRight;
    QuotientsIff(128, k, m);
    TopBitShifted(k);
    TopBitShifted(m);
    if k < 8 && m < 8 { if k < m { Pow2Distinct(7 - m, 7 - k); } else { Pow2Distinct(7 - k, 7 - m); } }
  }

  lemma AsrAmounts(k: nat, m: nat)
    ensures (forall rm: Byte :: AsrRight(rm, k, m)) <==> AmountsRight(ASR, k, m)
  {
    hide LsrRight;
    LsrAmounts(k, m);
    MulMono(0xFFFF, 1, Pow2(m));
    if k >= 32 {
      assert !AsrRight(1, k, m);
    } else if forall rm: Byte :: AsrRight(rm, k, m) {
      forall rm: Byte ensures LsrRight(rm, k, m) { assert AsrRight(rm, k, m); }
    }
  }

  lemma RorAmounts(k: nat, m: nat)
    ensures (forall rm: Byte :: RorRight(rm, k, m)) <==> AmountsRight(ROR, k, m)
  {
    if AmountsRight(ROR, k, m) {
      forall rm: Byte ensures RorRight(rm, k, m) { DivUnique(rm, 1, rm, 0); }
    } else {
      if m % 32 > 0 { Pow2Mono(1, m % 32); SmallMod(1, Pow2(m % 32)); }
      assert !RorRight(1, k, m);
    }
  }

  /** The source takes register numbers for the amount: even on bytes that is right for all contents of
      Rm exactly when the two amounts have the same total effect, or are equal and lose nothing. */
  lemma CodeAmountIff(t: ShiftType, k: nat, m: nat)
    ensures (forall rm: Byte :: RegisterValueRight(t, rm, k, m)) <==> AmountsRight(t, k, m)
  {
    hide LslRight, LsrRight, AsrRight, RorRight;
    match t
    case LSL => LslAmounts(k, m); assert forall rm: Byte :: RegisterValueRight(t, rm, k, m) == LslRight(rm, k, m);
    case LSR => LsrAmounts(k, m); assert forall rm: Byte :: RegisterValueRight(t, rm, k, m) == LsrRight(rm, k, m);
    case ASR => AsrAmounts(k, m); assert forall rm: Byte :: RegisterValueRight(t, rm, k, m) == AsrRight(rm, k, m);
    case ROR => RorAmounts(k, m); assert forall rm: Byte :: RegisterValueRight(t, rm, k, m) == RorRight(rm, k, m);
  }

  /** The bit of Rm that each takes for its carry-out. */
  function CodeOutBit(t: ShiftType, rm: Word, k: nat, c: Flag): Flag {
    if k == 0 then c else
    match t
    case LSL => if 24 < k <= 32 then Bit(rm, 32 - k) else 0
    case LSR => if k <= 8 then Bit(rm, k - 1) else 0
    case ASR => if k <= 8 then Bit(rm, k - 1) else 0
    case ROR => if 0 < k % 16 <= 8 then Bit(rm, k % 16 - 1) else 0
  }

  function ArmOutBit(t: ShiftType, rm: Word, m: nat, c: Flag): Flag {
    if m == 0 then c else
    match t
    case LSL => if m <= 32 then Bit(rm, 32 - m) else 0
    case LSR => if m <= 32 then Bit(rm, m - 1) else 0
    case ASR => Bit(rm, if m < 32 then m - 1 else 31)
    case ROR => Bit(rm, (m + 31) % 32)
  }

  lemma CodeCarryOut(t: ShiftType, rm: Word, k: Byte, c: Flag)
    ensures CodeShiftRegister(t, rm, k, c).carry == CodeOutBit(t, rm, k, c)
  {
    hide Shl, Shr, Asr, Bit;
    NoHighBits(rm % 256);
    if 0 < k <= 32 { CodeBit(rm, k - 1); CodeBit(rm, 32 - k); }
    if k == 32 { ShrNothing(rm % 256); }
    if k % 16 != 0 { CodeBit(rm, k % 16 - 1); }
  }

  lemma ArmCarryOut(t: ShiftType, rm: Word, m: Byte, c: Flag)
    ensures ArmShiftRegister(t, rm, m, c).carry == ArmOutBit(t, rm, m, c)
  {
    hide Shl, Shr, Asr, Ror, Bit;
    ShrBit(rm, 31);
    SignBit(rm);
    if t == ROR {
      RorCarryOut(rm, m, c);
    } else if 0 < m <= 32 {
      ShrBit(rm, m - 1);
      ShrBit(rm, 32 - m);
      ShrNothing(rm);
    }
  }

  lemma RorCarryOut(rm: Word, m: Byte, c: Flag)
    ensures ArmShiftRegister(ROR, rm, m, c).carry == ArmOutBit(ROR, rm, m, c)
  {
    hide Shl, Shr, Asr, Ror, Bit;
    if m % 32 == 0 {
      assert m == 0 || (m + 31) % 32 == 31;
      ShrBit(rm, 31);
      SignBit(rm);
    } else {
      assert (m + 31) % 32 == m % 32 - 1;
      ShrBit(rm, m % 32 - 1);
    }
  }

  /** The carry-outs agree exactly when those two bits do. */
  lemma CodeRegisterCarryIff(t: ShiftType, rm: Word, k: Byte, m: Byte, c: Flag)
    ensures CodeShiftRegister(t, rm, k, c).carry == ArmShiftRegister(t, rm, m, c).carry
       <==> CodeOutBit(t, rm, k, c) == ArmOutBit(t, rm, m, c)
  {
    hide CodeShiftRegister, ArmShiftRegister, CodeOutBit, ArmOutBit;
    CodeCarryOut(t, rm, k, c);
    ArmCarryOut(t, rm, m, c);
  }

  // ----- the whole operand -----

  /** When the operand of a data-processing instruction is the manual's, in terms of its fields and
      the contents of Rm and Rs. */
  predicate OperandRight(rm: Word, rs: Word, rdest: nat, so: nat, i: Flag, c: Flag)
    requires rdest < 16 && so < 0x1000
  {
    var t := TypeOf((so / 32) % 4);
    if i == 1 then so / 256 == 0 || RotationFits(so % 256, 2 * (so / 256))
    else if (so / 16) % 2 == 1 then RegisterValueRight(t, rm, rdest * 16 + so / 256, rs % 256)
    else ImmediateValueRight(t, rm, so / 128, so, c)
  }

  /** And when its carry-out is. */
  predicate OperandCarryRight(rm: Word, rs: Word, rdest: nat, so: nat, i: Flag, c: Flag, stale: Flag)
    requires rdest < 16 && so < 0x1000
  {
    var t := TypeOf((so / 32) % 4);
    if i == 1 then so / 256 == 0 || Bit(so % 256, 2 * (so / 256) - 1) == 0
    else if (so / 16) % 2 == 1 then
      CodeOutBit(t, rm, rdest * 16 + so / 256, c) == ArmOutBit(t, rm, rs % 256, c)
    else ImmediateCarryRight(t, rm, so / 128, stale)
  }

  lemma OperandIff(rm: Word, rs: Word, rdest: nat, so: nat, i: Flag, c: Flag, stale: Flag)
    requires rdest < 16 && so < 0x1000
    ensures UpdateShifterOperand(rm, rdest, so, i, c, stale).value == ArmShifterOperand(rm, rs, so, i, c).value
       <==> OperandRight(rm, rs, rdest, so, i, c)
    ensures UpdateShifterOperand(rm, rdest, so, i, c, stale).carry == ArmShifterOperand(rm, rs, so, i, c).carry
       <==> OperandCarryRight(rm, rs, rdest, so, i, c, stale)
  {
    hide CodeShiftRegister, ArmShiftRegister, CodeShiftImmediate, ArmShiftImmediate, RegisterValueRight,
      ImmediateValueRight, ImmediateCarryRight, RotationFits, ArmRotatedImmediate, CodeOutBit, ArmOutBit, Bit;
    var t := TypeOf((so / 32) % 4);
    if i == 1 {
      CodeRotatedImmediateIff(rm, rdest, so, c, stale);
    } else if (so / 16) % 2 == 1 {
      CodeShiftRegisterIff(t, rm, rdest * 16 + so / 256, rs % 256, c);
      CodeRegisterCarryIff(t, rm, rdest * 16 + so / 256, rs % 256, c);
    } else {
      CodeShiftImmediateIff(t, rm, so / 128, c, so, stale);
    }
  }
}
