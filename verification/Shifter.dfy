/**
The barrel shifter. `ArmShiftRegister`, `ArmShiftImmediate` and `ArmRotatedImmediate` are the
one-shot formulas of addressing mode 1 (section A5.1 of the ARM Architecture Reference Manual)
on full 32-bit operands; `Iterate` shifts one bit at a time. `UpdateShifterOperand`
is the source's computation, with its narrowing to bytes and half-words.
 */
module Shifter {
  import opened Words
  import opened Flags

  datatype ShiftType = LSL | LSR | ASR | ROR

  function TypeOf(code: nat): ShiftType {
    match code case 0 => LSL case 1 => LSR case 2 => ASR case _ => ROR
  }

  datatype Shifted = Shifted(value: Word, carry: Flag)

  // ----- the helpers of util.c -----

  /** `~0 << (32 - shift)` fills the vacated bits when the sign bit is set. */
  function Asr(value: Word, shift: nat): Word
    requires shift <= 32
  {
    OrW(Shr(value, shift), if Shr(value, 31) % 2 == 1 then Shl(WORD - 1, 32 - shift) else 0)
  }

  function Ror(value: Word, rotation: nat): Word
    requires rotation <= 32
  {
    OrW(Shr(value, rotation), Shl(value, 32 - rotation))
  }

  // ----- one-shot shifts of the manual -----

  /** Shift by a register amount 0..255. */
  function ArmShiftRegister(t: ShiftType, rm: Word, amount: nat, c: Flag): Shifted {
    if amount == 0 then Shifted(rm, c) else
    match t
    case LSL =>
      if amount < 32 then Shifted(Shl(rm, amount), Shr(rm, 32 - amount) % 2)
      else if amount == 32 then Shifted(0, rm % 2)
      else Shifted(0, 0)
    case LSR =>
      if amount < 32 then Shifted(Shr(rm, amount), Shr(rm, amount - 1) % 2)
      else if amount == 32 then Shifted(0, Shr(rm, 31) % 2)
      else Shifted(0, 0)
    case ASR =>
      if amount < 32 then Shifted(Asr(rm, amount), Shr(rm, amount - 1) % 2)
      else if Shr(rm, 31) % 2 == 0 then Shifted(0, 0)
      else Shifted(0xFFFF_FFFF, 1)
    case ROR =>
      if amount % 32 == 0 then Shifted(rm, Shr(rm, 31) % 2)
      else Shifted(Ror(rm, amount % 32), Shr(rm, amount % 32 - 1) % 2)
  }

  /** Rotate right by one through the carry. */
  function Rrx(rm: Word, c: Flag): Shifted {
    Shifted(OrW(Shl(c, 31), Shr(rm, 1)), rm % 2)
  }

  /** Shift by an immediate 0..31; LSR #0 and ASR #0 encode 32, ROR #0 encodes RRX. */
  function ArmShiftImmediate(t: ShiftType, rm: Word, imm: nat, c: Flag): Shifted
    requires imm < 32
  {
    match t
    case LSL => ArmShiftRegister(LSL, rm, imm, c)
    case LSR => ArmShiftRegister(LSR, rm, if imm == 0 then 32 else imm, c)
    case ASR => ArmShiftRegister(ASR, rm, if imm == 0 then 32 else imm, c)
    case ROR => if imm == 0 then Rrx(rm, c) else ArmShiftRegister(ROR, rm, imm, c)
  }

  /** An 8-bit constant rotated right by an even amount. */
  function ArmRotatedImmediate(imm8: Byte, rotate: nat, c: Flag): Shifted
    requires rotate < 16
  {
    var value := Ror(imm8, 2 * rotate);
    Shifted(value, if rotate == 0 then c else Shr(value, 31) % 2)
  }

  // ----- shifting one bit at a time -----

  function OneBit(t: ShiftType, x: Word): Shifted {
    match t
    case LSL => Shifted((2 * x) % WORD, x / 0x8000_0000)
    case LSR => Shifted(x / 2, x % 2)
    case ASR => Shifted(x / 2 + (if x >= 0x8000_0000 then 0x8000_0000 else 0), x % 2)
    case ROR => Shifted(x / 2 + (x % 2) * 0x8000_0000, x % 2)
  }

  /** `amount` one-bit shifts; the carry is the last bit shifted out, or c if there was none. */
  function Iterate(t: ShiftType, x: Word, amount: nat, c: Flag): Shifted {
    if amount == 0 then Shifted(x, c) else OneBit(t, Iterate(t, x, amount - 1, c).value)
  }

  // ----- the four closed forms -----

  /** Complementary powers of two. */
  lemma Complement(n: nat)
    requires n <= 32
    ensures Pow2(n) * Pow2(32 - n) == WORD
    ensures n < 32 ==> Pow2(n) * Pow2(31 - n) == 0x8000_0000
  {
    Pow2Values();
    Pow2Add(n, 32 - n);
    if n < 32 { Pow2Add(n, 31 - n); }
  }

  lemma {:induction false} LslValue(x: Word, n: nat, c: Flag)
    ensures Iterate(LSL, x, n, c).value == (x * Pow2(n)) % WORD
  {
    if n > 0 {
      LslValue(x, n - 1, c);
      var y := x * Pow2(n - 1);
      DoubleProduct(x, Pow2(n - 1));
      DoubleMod(y);
    }
  }

  lemma WholeTurns(x: nat, k: nat)
    ensures (x * (WORD * k)) % WORD == 0
  {
    assert x * (WORD * k) == WORD * (x * k);
    DivUnique(WORD * (x * k), WORD, x * k, 0);
  }

  lemma LslBig(x: Word, n: nat)
    requires n >= 32
    ensures (x * Pow2(n)) % WORD == 0
  {
    hide Pow2;
    Pow2Values();
    Pow2Add(32, n - 32);
    WholeTurns(x, Pow2(n - 32));
  }

  /** The bit shifted out by the n-th left shift is bit 32-n. */
  lemma LslCarry(x: Word, n: nat)
    requires 1 <= n <= 32
    ensures ((x * Pow2(n - 1)) % WORD) / 0x8000_0000 == Shr(x, 32 - n) % 2
  {
    var a, m := Pow2(n - 1), Pow2(32 - n);
    Complement(n - 1);
    assert Pow2(33 - n) == 2 * m;
    MulMod(x, a, 2 * m);
    MulDivCancel(x % (2 * m), a, m);
    HighOfLow(x, m);
  }

  lemma LslIterated(x: Word, n: nat, c: Flag)
    ensures Iterate(LSL, x, n, c) == ArmShiftRegister(LSL, x, n, c)
  {
    LslValue(x, n, c);
    if n > 0 {
      LslValue(x, n - 1, c);
      if n <= 32 { LslCarry(x, n); } else { LslBig(x, n - 1); }
      if n >= 32 { LslBig(x, n); }
      if n == 32 { assert Pow2(0) == 1; DivUnique(x, 1, x, 0); }
    }
  }

  lemma {:induction false} LsrValue(x: Word, n: nat, c: Flag)
    ensures Iterate(LSR, x, n, c).value == Shr(x, n)
  {
    if n == 0 {
      DivUnique(x, 1, x, 0);
    } else {
      LsrValue(x, n - 1, c);
      DivDiv(x, Pow2(n - 1), 2);
    }
  }

  lemma ShrBig(x: Word, n: nat)
    requires n >= 32
    ensures Shr(x, n) == 0
  {
    Pow2Values();
    Pow2Mono(32, n);
    DivUnique(x, Pow2(n), 0, x);
  }

  lemma LsrIterated(x: Word, n: nat, c: Flag)
    ensures Iterate(LSR, x, n, c) == ArmShiftRegister(LSR, x, n, c)
  {
    hide Shr;
    LsrValue(x, n, c);
    if n > 0 {
      LsrValue(x, n - 1, c);
      if n >= 32 { ShrBig(x, n); }
      if n > 32 { ShrBig(x, n - 1); }
    }
  }

  /** What an arithmetic shift of x by n leaves: the quotient, with n sign bits on top. */
  function SignFill(x: Word, n: nat): nat
    requires n <= 32
  {
    if x >= 0x8000_0000 then (Complement(n); FillFits(n); WORD - Pow2(32 - n)) else 0
  }

  lemma FillFits(n: nat)
    requires n <= 32
    ensures Pow2(32 - n) <= WORD
  {
    Pow2Values();
    Pow2Mono(32 - n, 32);
  }

  lemma ShrFits(x: Word, n: nat)
    requires n <= 32
    ensures x / Pow2(n) < Pow2(32 - n)
  {
    Complement(n);
    DivBound(x, Pow2(n), Pow2(32 - n));
  }

  lemma {:induction false} AsrValue(x: Word, n: nat, c: Flag)
    requires n <= 32
    ensures Iterate(ASR, x, n, c).value == Shr(x, n) + SignFill(x, n)
  {
    if n == 0 {
      Pow2Values();
      DivUnique(x, 1, x, 0);
    } else {
      AsrValue(x, n - 1, c);
      DivDiv(x, Pow2(n - 1), 2);
      ShrFits(x, n - 1);
      assert Pow2(33 - n) == 2 * Pow2(32 - n);
      Pow2Values();
      if x < 0x8000_0000 { DivLe(x, Pow2(n - 1)); }
      else { AsrStaysNegative(x, n - 1); }
    }
  }

  lemma AsrStaysNegative(x: Word, n: nat)
    requires n < 32 && x >= 0x8000_0000
    ensures Shr(x, n) + SignFill(x, n) >= 0x8000_0000
  {
    Complement(n);
    assert Pow2(32 - n) == 2 * Pow2(31 - n);
    DivAtLeast(x, Pow2(n), Pow2(31 - n));
    Pow2Values();
    Pow2Mono(31 - n, 31);
  }

  lemma FillShifted(a: nat, p: nat)
    requires a * p == WORD && 0 < p <= WORD
    ensures ((WORD - 1) * p) % WORD == WORD - p
    ensures a > 0 && (a - 1) * p == WORD - p
  {
    assert (WORD - 1) * p == WORD * (p - 1) + (WORD - p);
    DivUnique((WORD - 1) * p, WORD, p - 1, WORD - p);
  }

  lemma FillIsMultiple(x: Word, n: nat) returns (fill: nat)
    requires 1 <= n <= 32
    ensures (if Shr(x, 31) % 2 == 1 then Shl(WORD - 1, 32 - n) else 0) == fill * Pow2(32 - n)
    ensures fill * Pow2(32 - n) == SignFill(x, n)
  {
    SignBit(x);
    Complement(n);
    FillFits(n);
    FillShifted(Pow2(n), Pow2(32 - n));
    fill := if x >= 0x8000_0000 then Pow2(n) - 1 else 0;
  }

  lemma AsrFormula(x: Word, n: nat)
    requires 1 <= n <= 32
    ensures Asr(x, n) == Shr(x, n) + SignFill(x, n)
  {
    ShrFits(x, n);
    var fill := FillIsMultiple(x, n);
    OrDisjoint(Shr(x, n), fill, 32 - n);
  }

  lemma {:induction false} AsrBig(x: Word, n: nat, c: Flag)
    requires n >= 32
    ensures Iterate(ASR, x, n, c).value == if x >= 0x8000_0000 then 0xFFFF_FFFF else 0
  {
    if n == 32 {
      AsrValue(x, 32, c);
      ShrBig(x, 32);
    } else {
      AsrBig(x, n - 1, c);
    }
  }

  /** The bits above are an even number, so the bit shifted out is the quotient's. */
  lemma AsrCarry(x: Word, n: nat, c: Flag)
    requires 1 <= n <= 32
    ensures Iterate(ASR, x, n, c).carry == Shr(x, n - 1) % 2
  {
    hide Shr, SignFill;
    AsrValue(x, n - 1, c);
    SignFillEven(x, n - 1);
  }

  lemma SignFillEven(x: Word, n: nat)
    requires n < 32
    ensures SignFill(x, n) % 2 == 0
  {
    assert Pow2(32 - n) == 2 * Pow2(31 - n);
  }

  lemma AsrShort(x: Word, n: nat, c: Flag)
    requires 1 <= n < 32
    ensures Iterate(ASR, x, n, c) == ArmShiftRegister(ASR, x, n, c)
  {
    hide Shr, SignFill, Asr;
    AsrCarry(x, n, c);
    AsrValue(x, n, c);
    AsrFormula(x, n);
  }

  lemma AsrLong(x: Word, n: nat, c: Flag)
    requires n >= 32
    ensures Iterate(ASR, x, n, c) == ArmShiftRegister(ASR, x, n, c)
  {
    hide Shr, Asr;
    SignBit(x);
    AsrBig(x, n, c);
    if n == 32 { AsrCarry(x, n, c); } else { AsrBig(x, n - 1, c); }
  }

  lemma AsrIterated(x: Word, n: nat, c: Flag)
    ensures Iterate(ASR, x, n, c) == ArmShiftRegister(ASR, x, n, c)
  {
    if n >= 32 { AsrLong(x, n, c); } else if n > 0 { AsrShort(x, n, c); }
  }

  lemma ShlParts(x: nat, p: nat, q: nat)
    requires p > 0 && q > 0 && p * q == WORD
    ensures (x * q) % WORD == (x % p) * q
  {
    MulMod(x, q, p);
    assert q * p == WORD;
  }

  lemma ShlKeepsLow(x: Word, n: nat)
    requires n <= 32
    ensures Shl(x, 32 - n) == (x % Pow2(n)) * Pow2(32 - n)
  {
    hide Pow2;
    Complement(n);
    ShlParts(x, Pow2(n), Pow2(32 - n));
  }

  lemma OrParts(x: Word, h: nat, l: nat, n: nat)
    requires n <= 32 && h < Pow2(32 - n)
    requires Shr(x, n) == h && Shl(x, 32 - n) == l * Pow2(32 - n)
    ensures Ror(x, n) == h + l * Pow2(32 - n)
  {
    OrDisjoint(h, l, 32 - n);
  }

  lemma RorFormula(x: Word, n: nat)
    requires n <= 32
    ensures Ror(x, n) == x / Pow2(n) + (x % Pow2(n)) * Pow2(32 - n)
  {
    ShlKeepsLow(x, n);
    ShrFits(x, n);
    DivMod(x, Pow2(n));
    OrParts(x, x / Pow2(n), x % Pow2(n), n);
  }

  lemma {:induction false} RorValue(x: Word, n: nat, c: Flag)
    requires n <= 32
    ensures Iterate(ROR, x, n, c).value == x / Pow2(n) + (x % Pow2(n)) * Pow2(32 - n)
  {
    if n == 0 {
      DivUnique(x, 1, x, 0);
    } else {
      RorValue(x, n - 1, c);
      assert Pow2(33 - n) == 2 * Pow2(32 - n);
      Complement(n - 1);
      RorStep(x, Pow2(n - 1), Pow2(32 - n));
    }
  }

  lemma RorStep(x: nat, p: nat, q: nat)
    requires p > 0 && p * q == 0x8000_0000
    ensures var v := x / p + (x % p) * (2 * q);
            v / 2 + (v % 2) * 0x8000_0000 == x / (2 * p) + (x % (2 * p)) * q
  {
    DivMod(x, p);
    RorLow(x, p);
    RorParts(x / p, x % p, p, q);
  }

  lemma RorParts(h: int, l: int, p: int, q: int)
    requires p * q == 0x8000_0000
    ensures var v := h + l * (2 * q);
            v / 2 + (v % 2) * 0x8000_0000 == h / 2 + (p * (h % 2) + l) * q
  {
    var b := h % 2;
    DoubleProduct(l, q);
    assert (p * b + l) * q == b * (p * q) + l * q;
    HalfOfShifted(h, l * q);
  }

  lemma HalfOfShifted(h: int, z: int)
    ensures (h + 2 * z) / 2 == h / 2 + z && (h + 2 * z) % 2 == h % 2
  {
  }

  lemma RorLowParts(x: nat, p: nat, k: nat, b: Flag, l: nat)
    requires l < p && x == p * (2 * k + b) + l
    ensures x / (2 * p) == k && x % (2 * p) == p * b + l
  {
    assert p * (2 * k + b) == (2 * p) * k + p * b;
    if b == 0 { assert p * b == 0; } else { assert p * b == p; }
    DivUnique(x, 2 * p, k, p * b + l);
  }

  lemma RorLow(x: nat, p: nat)
    requires p > 0
    ensures x / (2 * p) == (x / p) / 2
    ensures x % (2 * p) == p * ((x / p) % 2) + x % p
  {
    DivMod(x, p);
    var h := x / p;
    RorLowParts(x, p, h / 2, h % 2, x % p);
  }

  lemma {:induction false} IterateSplit(t: ShiftType, x: Word, n: nat, m: nat, c: Flag)
    ensures Iterate(t, x, n + m, c) == Iterate(t, Iterate(t, x, n, c).value, m, Iterate(t, x, n, c).carry)
  {
    if m > 0 {
      IterateSplit(t, x, n, m - 1, c);
    }
  }

  /** Thirty-two one-bit rotations are the identity. */
  lemma RorFull(x: Word, c: Flag)
    ensures Iterate(ROR, x, 32, c).value == x
  {
    Pow2Values();
    RorValue(x, 32, c);
    DivUnique(x, WORD, 0, x);
  }

  lemma RorCarryIsTopBit(x: Word, n: nat, c: Flag)
    requires n > 0
    ensures Iterate(ROR, x, n, c).carry == Shr(Iterate(ROR, x, n, c).value, 31) % 2
  {
    Pow2Values();
  }

  lemma RorSmall(x: Word, n: nat, c: Flag)
    requires 1 <= n < 32
    ensures Iterate(ROR, x, n, c) == Shifted(Ror(x, n), Shr(x, n - 1) % 2)
  {
    RorValue(x, n, c);
    RorFormula(x, n);
    RorValue(x, n - 1, c);
    assert Pow2(33 - n) == 2 * Pow2(32 - n);
    EvenOffset(x / Pow2(n - 1), x % Pow2(n - 1), Pow2(32 - n));
  }

  lemma EvenOffset(h: int, l: int, q: int)
    ensures (h + l * (2 * q)) % 2 == h % 2
  {
    assert l * (2 * q) == 2 * (l * q);
  }

  lemma RorFullTurn(x: Word, c: Flag)
    ensures Iterate(ROR, x, 32, c) == ArmShiftRegister(ROR, x, 32, c)
  {
    hide Iterate, Shr, Ror;
    RorFull(x, c);
    RorCarryIsTopBit(x, 32, c);
  }

  lemma RorPeriod(x: Word, n: nat, c: Flag)
    requires n > 32
    ensures Iterate(ROR, x, n, c) == Iterate(ROR, x, n - 32, Iterate(ROR, x, 32, c).carry)
    ensures ArmShiftRegister(ROR, x, n, c) == ArmShiftRegister(ROR, x, n - 32, Iterate(ROR, x, 32, c).carry)
  {
    hide Iterate, Shr, Ror;
    RorFull(x, c);
    IterateSplit(ROR, x, 32, n - 32, c);
    assert n % 32 == (n - 32) % 32;
  }

  lemma {:induction false} RorIterated(x: Word, n: nat, c: Flag)
    ensures Iterate(ROR, x, n, c) == ArmShiftRegister(ROR, x, n, c)
  {
    hide Shr, Ror;
    if n == 0 {
    } else if n < 32 {
      RorSmall(x, n, c);
    } else if n == 32 {
      RorFullTurn(x, c);
    } else {
      RorPeriod(x, n, c);
      RorIterated(x, n - 32, Iterate(ROR, x, 32, c).carry);
    }
  }

  // ----- the refinement theorems -----

  /** For every shift type and every amount the one-shot result and carry-out are those of that many
      one-bit shifts. */
  lemma RegisterShiftIsIterated(t: ShiftType, rm: Word, amount: nat, c: Flag)
    ensures ArmShiftRegister(t, rm, amount, c) == Iterate(t, rm, amount, c)
  {
    match t
    case LSL => LslIterated(rm, amount, c);
    case LSR => LsrIterated(rm, amount, c);
    case ASR => AsrIterated(rm, amount, c);
    case ROR => RorIterated(rm, amount, c);
  }

  lemma ImmediateShiftIsIterated(t: ShiftType, rm: Word, imm: nat, c: Flag)
    requires imm < 32 && !(t == ROR && imm == 0)
    ensures ArmShiftImmediate(t, rm, imm, c) == Iterate(t, rm, if imm == 0 && t != LSL then 32 else imm, c)
  {
    RegisterShiftIsIterated(t, rm, if imm == 0 && t != LSL then 32 else imm, c);
  }

  /** RRX is one step of the 33-bit rotation through the carry. */
  lemma RrxValue(rm: Word, c: Flag)
    ensures Rrx(rm, c).value == rm / 2 + c * 0x8000_0000
    ensures Rrx(rm, c).carry + 2 * Rrx(rm, c).value == rm + c * WORD
  {
    Pow2Values();
    OrDisjoint(rm / 2, c, 31);
    OrSymmetric(c * 0x8000_0000, rm / 2);
  }

  lemma {:induction false} OrSymmetric(x: nat, y: nat)
    ensures Or(x, y) == Or(y, x)
  {
    if x > 0 && y > 0 {
      OrSymmetric(x / 2, y / 2);
    }
  }

  /** A rotated immediate is the 8-bit constant after 2 * rotate one-bit rotations; with a nonzero
      rotation the carry-out is bit 31 of the result, and it is the last bit rotated out. */
  lemma RotatedImmediateIsIterated(imm8: Byte, rotate: nat, c: Flag)
    requires rotate < 16
    ensures ArmRotatedImmediate(imm8, rotate, c) == Iterate(ROR, imm8, 2 * rotate, c)
    ensures var r := ArmRotatedImmediate(imm8, rotate, c); rotate != 0 ==> r.carry == Bit(r.value, 31)
  {
    if rotate == 0 {
      RorValue(imm8, 0, c);
      RorFormula(imm8, 0);
    } else {
      RorSmall(imm8, 2 * rotate, c);
      RorCarryIsTopBit(imm8, 2 * rotate, c);
      BitIsShift(ArmRotatedImmediate(imm8, rotate, c).value, 31);
    }
  }

  // ----- the operand of a data-processing instruction -----

  /** Addressing mode 1: `so` is the 12-bit operand field, rm and rs the contents of the registers
      it names. */
  function ArmShifterOperand(rm: Word, rs: Word, so: nat, i: Flag, c: Flag): Shifted
    requires so < 0x1000
  {
    var t := TypeOf((so / 32) % 4);
    if i == 1 then ArmRotatedImmediate(so % 256, so / 256, c)
    else if (so / 16) % 2 == 1 then ArmShiftRegister(t, rm, rs % 256, c)
    else ArmShiftImmediate(t, rm, so / 128, c)
  }

  datatype Operand = Operand(value: Half, carry: Flag)

  /** Every operand ends up in 16 bits. */
  function Narrow(s: Shifted): Operand {
    Operand(s.value % 0x1_0000, s.carry)
  }

  /** Shift by a register: RM keeps a byte of the register, the amount is the number formed from
      the register fields Rdest and Rs. */
  function CodeShiftRegister(t: ShiftType, rm: Word, rs7: Byte, c: Flag): Operand {
    var rm8: Byte := rm % 256;
    var rs4 := rs7 % 16;
    if rs7 == 0 then Operand(rm8, c) else
    match t
    case LSL =>
      if rs7 < 32 then Operand(Shl(rm8, rs7) % 0x1_0000, Shr(rm8, 32 - rs7) % 2)
      else if rs7 == 32 then Operand(0, rm8 % 2)
      else Operand(0, 0)
    case LSR =>
      if rs7 < 32 then Operand(Shr(rm8, rs7), Shr(rm8, rs7 - 1) % 2)
      else if rs7 == 32 then Operand(0, Shr(rm8, 31) % 2)
      else Operand(0, 0)
    case ASR =>
      if rs7 < 32 then Operand(Asr(rm8, rs7) % 0x1_0000, Shr(rm8, rs7 - 1) % 2)
      else if Shr(rm8, 31) % 2 == 1 then Operand(0, Shr(rm8, 31) % 2)
      else Operand(0xFFFF, Shr(rm8, 31) % 2)
    case ROR =>
      if rs4 == 0 then Operand(rm8, Shr(rm8, 31) % 2)
      else Operand(Asr(rm8, rs4) % 0x1_0000, Shr(rm8, rs4 - 1) % 2)
  }

  /** Shift by an immediate. ROR #0 assigns nothing: the operand stays the instruction's own field
      `so` and the carry-out is whatever the uninitialised local held. */
  function CodeShiftImmediate(t: ShiftType, rm: Word, imm: nat, c: Flag, so: nat, stale: Flag): Operand
    requires imm < 32 && so < 0x1000
  {
    var rm8: Byte := rm % 256;
    match t
    case LSL =>
      if imm == 0 then Operand(rm8, c)
      else Operand(Shl(rm8, imm) % 0x1_0000, Shr(rm8, 32 - imm) % 2)
    case LSR =>
      if imm == 0 then Operand(0, Shr(rm8, 31) % 2)
      else Operand(Shr(rm8, imm), Shr(rm8, imm - 1) % 2)
    case ASR =>
      if imm == 0 then (if Shl(rm8, 31) % 2 == 0 then Operand(0, Shr(rm8, 31) % 2)
                        else Operand(0xFFFF, Shr(rm8, 31) % 2))
      else Operand(Asr(rm8, imm) % 0x1_0000, Shr(rm8, imm - 1) % 2)
    case ROR =>
      if imm == 0 then Operand(so, stale)
      else Operand(Ror(rm8, imm) % 0x1_0000, Shr(rm8, imm - 1) % 2)
  }

  function UpdateShifterOperand(rm: Word, rdest: nat, so: nat, i: Flag, c: Flag, stale: Flag): Operand
    requires rdest < 16 && so < 0x1000
  {
    var t := TypeOf((so / 32) % 4);
    if i == 0 then
      if (so / 16) % 2 == 1 then CodeShiftRegister(t, rm, rdest * 16 + so / 256, c)
      else CodeShiftImmediate(t, rm, so / 128, c, so, stale)
    else
      var rotated: Half := Ror(so % 256, 2 * (so / 256)) % 0x1_0000;
      Operand(rotated, if so / 256 == 0 then c else Shr(rotated, 31) % 2)
  }

  // ----- how far the source is from the manual -----

  lemma NoHighBits(x: Word)
    requires x < 0x8000_0000
    ensures Shr(x, 31) == 0
  {
    Pow2Values();
  }

  /** By an immediate, the source computes the manual's shift of the low byte of Rm, cut to 16 bits,
      for every encoding but RRX. */
  lemma CodeImmediateShiftNarrows(t: ShiftType, rm: Word, imm: nat, c: Flag, so: nat, stale: Flag)
    requires imm < 32 && so < 0x1000 && !(t == ROR && imm == 0)
    ensures CodeShiftImmediate(t, rm, imm, c, so, stale) == Narrow(ArmShiftImmediate(t, rm % 256, imm, c))
  {
    hide Shl, Shr, Asr, Ror;
    match t
    case LSL => CodeLsl(rm, imm, c, so, stale);
    case LSR => CodeLsr(rm, imm, c, so, stale);
    case ASR => CodeAsr(rm, imm, c, so, stale);
    case ROR =>
  }

  lemma CodeLsl(rm: Word, imm: nat, c: Flag, so: nat, stale: Flag)
    requires imm < 32 && so < 0x1000
    ensures CodeShiftImmediate(LSL, rm, imm, c, so, stale) == Narrow(ArmShiftImmediate(LSL, rm % 256, imm, c))
  {
    hide Shl, Shr, Asr, Ror;
  }

  lemma CodeLsr(rm: Word, imm: nat, c: Flag, so: nat, stale: Flag)
    requires imm < 32 && so < 0x1000
    ensures CodeShiftImmediate(LSR, rm, imm, c, so, stale) == Narrow(ArmShiftImmediate(LSR, rm % 256, imm, c))
  {
    hide Shl, Shr, Asr, Ror;
  }

  lemma CodeAsr(rm: Word, imm: nat, c: Flag, so: nat, stale: Flag)
    requires imm < 32 && so < 0x1000
    ensures CodeShiftImmediate(ASR, rm, imm, c, so, stale) == Narrow(ArmShiftImmediate(ASR, rm % 256, imm, c))
  {
    hide Shl, Shr, Asr, Ror;
    NoHighBits(rm % 256);
    ShlTop(rm % 256);
  }

  lemma EvenWrap(y: int)
    ensures Wrap(2 * y) % 2 == 0
  {
  }

  lemma ShlTop(x: Word)
    ensures Shl(x, 31) % 2 == 0
  {
    hide Pow2;
    Pow2Values();
    EvenWrap(x * 0x4000_0000);
  }

  /** A plain register operand (LSL #0) is right exactly for registers that hold a byte. */
  lemma CodePlainRegisterIff(rm: Word, c: Flag, so: nat, stale: Flag)
    requires so < 0x1000
    ensures CodeShiftImmediate(LSL, rm, 0, c, so, stale).value == ArmShiftImmediate(LSL, rm, 0, c).value <==> rm < 256
  {
  }

  /** A byte rotated right by 1..15 has its wrapped part above bit 15. */
  lemma RotatedByteLow(b: Byte, n: nat)
    requires 1 <= n < 16
    ensures Ror(b, n) % 0x1_0000 == Shr(b, n)
  {
    RorFormula(b, n);
    DivMod(b, Pow2(n));
    assert Pow2(32 - n) == 0x1_0000 * Pow2(16 - n) by { Pow2Add(16, 16 - n); Pow2Values(); }
    LowHalf(b / Pow2(n), b % Pow2(n), Pow2(16 - n));
  }

  lemma LowHalf(x: Half, l: int, k: int)
    ensures (x + l * (0x1_0000 * k)) % 0x1_0000 == x
  {
    assert l * (0x1_0000 * k) == 0x1_0000 * (l * k);
    AddMultiple(x, l * k);
  }

  lemma AddMultiple(x: Half, k: int)
    ensures (x + 0x1_0000 * k) % 0x1_0000 == x
  {
  }

  lemma SmallShr(b: nat, n: nat)
    requires b < Pow2(n)
    ensures b / Pow2(n) == 0 && b % Pow2(n) == b
  {
    DivUnique(b, Pow2(n), 0, b);
  }

  /** Rotating a byte right by 16 + r is shifting it left by 16 - r. */
  lemma RotatedByteHigh(b: Byte, r: nat)
    requires r < 16
    ensures Ror(b, 16 + r) == b * Pow2(16 - r)
  {
    RorFormula(b, 16 + r);
    Pow2Values();
    Pow2Mono(16, 16 + r);
    SmallShr(b, 16 + r);
  }

  lemma LowTimes(b: nat, p: nat, q: nat)
    requires p > 0 && q > 0 && p * q == 0x1_0000
    ensures (b * q) % 0x1_0000 == q * (b % p)
  {
    MulMod(b, q, p);
    assert q * p == 0x1_0000;
  }

  /** ... which agrees with shifting it right by r, modulo 2^16, only for zero. */
  lemma LeftIsNotRight(b: Byte, r: nat)
    requires 1 <= r < 16
    ensures (b * Pow2(16 - r)) % 0x1_0000 == b / Pow2(r) <==> b == 0
  {
    Pow2Add(r, 16 - r);
    Pow2Values();
    LowTimes(b, Pow2(r), Pow2(16 - r));
    DivMod(b, Pow2(r));
    if r <= 8 {
      Pow2Mono(8, 16 - r);
    } else {
      Pow2Mono(8, r);
      SmallShr(b, r);
    }
    NotBoth(b, Pow2(r), Pow2(16 - r), b / Pow2(r), b % Pow2(r));
  }

  lemma NotBoth(b: Byte, p: nat, q: nat, h: nat, l: nat)
    requires p >= 2 && q > 0 && b == p * h + l
    requires q >= 256 || h == 0
    ensures q * l == h <==> b == 0
  {
    if q * l == h {
      MulMono(h, 1, p);
      if l > 0 { MulMono(q, 1, l); }
      assert l == 0;
    }
  }

  lemma HighCarry(b: Byte, r: nat)
    requires r < 16
    ensures Shr(b, 15 + r) == 0
  {
    Pow2Values();
    Pow2Mono(8, 15 + r);
    SmallShr(b, 15 + r);
  }

  lemma AsrOfByte(b: Byte, n: nat)
    requires 1 <= n <= 32
    ensures Asr(b, n) == Shr(b, n)
  {
    AsrFormula(b, n);
  }

  /** By a register amount, the source computes the manual's shift of the low byte by the number it
      takes for the amount, cut to 16 bits, exactly when: the shift is LSL or LSR; or ASR by less
      than 32; or ROR by less than 16 modulo 32, or of zero. */
  lemma CodeRegisterShiftIff(t: ShiftType, rm: Word, rs7: Byte, c: Flag)
    ensures CodeShiftRegister(t, rm, rs7, c) == Narrow(ArmShiftRegister(t, rm % 256, rs7, c))
       <==> (t == ASR ==> rs7 < 32) && (t == ROR ==> rs7 % 32 < 16 || rm % 256 == 0)
  {
    hide Shl, Shr, Asr, Ror;
    match t
    case LSL => CodeLslRegister(rm, rs7, c);
    case LSR => CodeLsrRegister(rm, rs7, c);
    case ASR => CodeAsrRegister(rm, rs7, c);
    case ROR => if rs7 != 0 { CodeRotateIff(rm % 256, rs7, c); }
  }

  lemma CodeLslRegister(rm: Word, rs7: Byte, c: Flag)
    ensures CodeShiftRegister(LSL, rm, rs7, c) == Narrow(ArmShiftRegister(LSL, rm % 256, rs7, c))
  {
    hide Shl, Shr, Asr, Ror;
  }

  lemma CodeLsrRegister(rm: Word, rs7: Byte, c: Flag)
    ensures CodeShiftRegister(LSR, rm, rs7, c) == Narrow(ArmShiftRegister(LSR, rm % 256, rs7, c))
  {
    hide Shl, Shr, Asr, Ror;
  }

  lemma CodeAsrRegister(rm: Word, rs7: Byte, c: Flag)
    ensures CodeShiftRegister(ASR, rm, rs7, c) == Narrow(ArmShiftRegister(ASR, rm % 256, rs7, c)) <==> rs7 < 32
  {
    hide Shl, Shr, Asr, Ror;
    NoHighBits(rm % 256);
  }

  lemma CodeRotateIff(b: Byte, rs7: Byte, c: Flag)
    requires rs7 != 0
    ensures CodeShiftRegister(ROR, b, rs7, c) == Narrow(ArmShiftRegister(ROR, b, rs7, c))
       <==> rs7 % 32 < 16 || b == 0
  {
    hide CodeShiftRegister, ArmShiftRegister;
    var r := rs7 % 16;
    if r == 0 { CodeRotateWhole(b, rs7, c); }
    else if rs7 % 32 < 16 { CodeRotateLow(b, rs7, c); }
    else { CodeRotateHigh(b, rs7, c); }
  }

  lemma CodeRotateWhole(b: Byte, rs7: Byte, c: Flag)
    requires rs7 != 0 && rs7 % 16 == 0
    ensures CodeShiftRegister(ROR, b, rs7, c) == Narrow(ArmShiftRegister(ROR, b, rs7, c))
       <==> rs7 % 32 < 16 || b == 0
  {
    hide Shl, Shr, Asr, Ror;
    NoHighBits(b);
    RotateBySixteen(b);
  }

  lemma CodeRotateLow(b: Byte, rs7: Byte, c: Flag)
    requires 0 < rs7 % 32 < 16
    ensures CodeShiftRegister(ROR, b, rs7, c) == Narrow(ArmShiftRegister(ROR, b, rs7, c))
  {
    hide Shl, Shr, Asr, Ror;
    AsrOfByte(b, rs7 % 16);
    RotatedByteLow(b, rs7 % 16);
  }

  lemma CodeRotateHigh(b: Byte, rs7: Byte, c: Flag)
    requires 16 < rs7 % 32
    ensures CodeShiftRegister(ROR, b, rs7, c) == Narrow(ArmShiftRegister(ROR, b, rs7, c)) <==> b == 0
  {
    hide Shl, Shr, Asr, Ror;
    var r := rs7 % 16;
    assert rs7 % 32 == 16 + r;
    AsrOfByte(b, r);
    RotateAboveSixteen(b, r);
  }

  lemma RotateBySixteen(b: Byte)
    ensures Ror(b, 16) % 0x1_0000 == 0 && Shr(b, 15) == 0
  {
    RotatedByteHigh(b, 0);
    HighCarry(b, 0);
    Pow2Values();
  }

  lemma RotateAboveSixteen(b: Byte, r: nat)
    requires 1 <= r < 16
    ensures Shr(b, 15 + r) == 0
    ensures Ror(b, 16 + r) % 0x1_0000 == Shr(b, r) <==> b == 0
    ensures b == 0 ==> Shr(b, r - 1) == 0
  {
    RotatedByteHigh(b, r);
    HighCarry(b, r);
    LeftIsNotRight(b, r);
  }
}
