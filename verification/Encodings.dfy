/**
Instruction words put together from their fields, as the manual draws them (section A3.1 of the ARM
Architecture Reference Manual), and what both machines do with them. No statement here names a decoding
function: each speaks of the number that the word is.
 */
module Encodings {
  import opened Words
  import opened Flags
  import opened Memory
  import opened Registers
  import opened Instruction
  import InstructionLimits
  import DataProcessing
  import LoadStore
  import LoadStoreMultiple
  import Branch

  // ----- words and fields -----

  /** The layout that data processing and single transfers share: condition, two bits of type, bits 25 to 20,
      two registers and twelve bits. */
  datatype Encoding = Encoding(cond: nat, kind: nat, i: Flag, p: Flag, u: Flag, b: Flag, w: Flag, l: Flag,
                               rn: nat, rd: nat, low: nat) {
    predicate Fits() {
      cond < 16 && kind < 4 && rn < 16 && rd < 16 && low < 0x1000
    }

    function Assembled(): Word
      requires Fits()
    {
      cond * 0x1000_0000 + kind * 0x400_0000 + i * 0x200_0000 + p * 0x100_0000 + u * 0x80_0000 + b * 0x40_0000
      + w * 0x20_0000 + l * 0x10_0000 + rn * 0x1_0000 + rd * 0x1000 + low
    }
  }

  /** The field of `width` values in units of `unit`. */
  lemma Field(x: nat, high: nat, v: nat, low: nat, unit: nat, width: nat)
    requires low < unit && v < width && x == (high * width + v) * unit + low
    ensures x / unit % width == v
  {
    DivUnique(x, unit, high * width + v, low);
    DivUnique(high * width + v, width, high, v);
  }

  /** Bits 25 to 20, decoded. */
  lemma BitsRoundTrip(e: Encoding)
    requires e.Fits()
    ensures var ins := e.Assembled();
            && IBit(ins) == e.i && LoadStore.PBit(ins) == e.p && LoadStore.UBit(ins) == e.u
            && LoadStore.BBit(ins) == e.b && LoadStore.WBit(ins) == e.w && LoadStore.LBit(ins) == e.l
            && DataProcessing.SBit(ins) == e.l
  {
    var x := e.Assembled();
    var low0 := e.rn * 0x1_0000 + e.rd * 0x1000 + e.low;
    var low1 := e.l * 0x10_0000 + low0;
    var low2 := e.w * 0x20_0000 + low1;
    var low3 := e.b * 0x40_0000 + low2;
    var low4 := e.u * 0x80_0000 + low3;
    var low5 := e.p * 0x100_0000 + low4;
    var h := e.cond * 4 + e.kind;
    Field(x, h, e.i, low5, 0x200_0000, 2);
    Field(x, h * 2 + e.i, e.p, low4, 0x100_0000, 2);
    Field(x, h * 4 + e.i * 2 + e.p, e.u, low3, 0x80_0000, 2);
    Field(x, h * 8 + e.i * 4 + e.p * 2 + e.u, e.b, low2, 0x40_0000, 2);
    Field(x, h * 16 + e.i * 8 + e.p * 4 + e.u * 2 + e.b, e.w, low1, 0x20_0000, 2);
    Field(x, h * 32 + e.i * 16 + e.p * 8 + e.u * 4 + e.b * 2 + e.w, e.l, low0, 0x10_0000, 2);
  }

  /** The other fields. */
  lemma FieldsRoundTrip(e: Encoding)
    requires e.Fits()
    ensures var ins := e.Assembled();
            && CondField(ins) == e.cond && TypeField(ins) == e.kind
            && Rn(ins) == e.rn && Rd(ins) == e.rd && ins % 0x1000 == e.low
            && DataProcessing.OpCode(ins) == 8 * e.p + 4 * e.u + 2 * e.b + e.w
  {
    var x := e.Assembled();
    var low0 := e.rd * 0x1000 + e.low;
    var low1 := e.l * 0x10_0000 + e.rn * 0x1_0000 + low0;
    var op := 8 * e.p + 4 * e.u + 2 * e.b + e.w;
    var h := e.cond * 8 + e.kind * 2 + e.i;
    var h' := h * 32 + op * 2 + e.l;
    Field(x, h, op, low1, 0x20_0000, 16);
    Field(x, h', e.rn, low0, 0x1_0000, 16);
    Field(x, h' * 16 + e.rn, e.rd, e.low, 0x1000, 16);
    DivUnique(x, 0x1000, h' * 256 + e.rn * 16 + e.rd, e.low);
    var body := e.i * 0x200_0000 + op * 0x20_0000 + low1;
    Field(x, e.cond, e.kind, body, 0x400_0000, 4);
    DivUnique(x, 0x1000_0000, e.cond, e.kind * 0x400_0000 + body);
  }

  function Disassembled(ins: Word): (e: Encoding)
    ensures e.Fits()
  {
    Encoding(CondField(ins), TypeField(ins), IBit(ins), LoadStore.PBit(ins), LoadStore.UBit(ins), LoadStore.BBit(ins),
             LoadStore.WBit(ins), LoadStore.LBit(ins), Rn(ins), Rd(ins), ins % 0x1000)
  }

  lemma Halves(x: nat, unit: nat)
    requires unit > 0
    ensures x / unit == (x / (2 * unit)) * 2 + x / unit % 2
  {
    DivDiv(x, unit, 2);
  }

  lemma Sixteenths(x: nat, unit: nat)
    requires unit > 0
    ensures x / unit == (x / (16 * unit)) * 16 + x / unit % 16
  {
    DivDiv(x, unit, 16);
  }

  /** Assembling and decoding are inverse to each other: every word has exactly these fields. */
  lemma EncodingRoundTrip(e: Encoding, ins: Word)
    requires e.Fits()
    ensures Disassembled(e.Assembled()) == e
    ensures Disassembled(ins).Assembled() == ins
  {
    BitsRoundTrip(e);
    FieldsRoundTrip(e);
    DivDiv(ins, 0x400_0000, 4);
    Halves(ins, 0x200_0000);
    Halves(ins, 0x100_0000);
    Halves(ins, 0x80_0000);
    Halves(ins, 0x40_0000);
    Halves(ins, 0x20_0000);
    Halves(ins, 0x10_0000);
    Sixteenths(ins, 0x1_0000);
    Sixteenths(ins, 0x1000);
  }

  // ----- dispatch -----

  lemma TypeOfWord(c: nat, t: nat, x: nat)
    requires c < 16 && t < 4 && x < 0x400_0000
    ensures TypeField(c * 0x1000_0000 + t * 0x400_0000 + x) == t
  {
    Field(c * 0x1000_0000 + t * 0x400_0000 + x, c, t, x, 0x400_0000, 4);
  }

  lemma Bit25OfWord(c: nat, t: nat, i: Flag, x: nat)
    requires c < 16 && t < 4 && x < 0x200_0000
    ensures IBit(c * 0x1000_0000 + t * 0x400_0000 + i * 0x200_0000 + x) == i
  {
    Field(c * 0x1000_0000 + t * 0x400_0000 + i * 0x200_0000 + x, c * 4 + t, i, x, 0x200_0000, 2);
  }

  /** Bits 27 and 26 are 01: a word or byte transfer. */
  lemma TransferWords(s: State, c: nat, x: nat, stale: Stale)
    requires c < 16 && x < 0x400_0000
    ensures var ins: Word := c * 0x1000_0000 + 0x400_0000 + x;
            && SelectExecute(s, ins, stale) == (LoadStore.LoadStore(s, ins, stale.word), 0)
            && ArmOperation(s, ins, stale) == LoadStore.ArmLoadStore(s, ins, stale.word)
  {
    hide TypeField, LoadStore.LoadStore, LoadStore.ArmLoadStore, ArmOperation, LoadStore.LoadStoreHalf,
      DataProcessing.DataProcess, Branch.BranchLink, IBit, HalfTransfer;
    var ins: Word := c * 0x1000_0000 + 0x400_0000 + x;
    TypeOfWord(c, 1, x);
    InstructionLimits.OperationOfBody(s, ins, stale);
  }

  /** 101: a branch. */
  lemma BranchWords(s: State, c: nat, x: nat, stale: Stale)
    requires c < 16 && x < 0x200_0000
    ensures var ins: Word := c * 0x1000_0000 + 0xA00_0000 + x;
            && SelectExecute(s, ins, stale) == (Branch.BranchLink(s, ins), 0)
            && ArmOperation(s, ins, stale) == Branch.ArmBranchLink(s, ins)
  {
    hide TypeField, IBit, Branch.BranchLink, Branch.ArmBranchLink, ArmOperation, LoadStore.LoadStore,
      LoadStore.LoadStoreHalf, DataProcessing.DataProcess, HalfTransfer, LoadStoreMultiple.ArmMultiple,
      LoadStoreMultiple.Decode;
    var ins: Word := c * 0x1000_0000 + 0xA00_0000 + x;
    TypeOfWord(c, 2, 0x200_0000 + x);
    Bit25OfWord(c, 2, 1, x);
    InstructionLimits.OperationOfBody(s, ins, stale);
  }

  /** 100: a multiple transfer, which the source skips. */
  lemma MultipleWords(s: State, c: nat, x: nat, stale: Stale)
    requires c < 16 && x < 0x200_0000
    ensures var ins: Word := c * 0x1000_0000 + 0x800_0000 + x;
            && SelectExecute(s, ins, stale) == (s, 0)
            && ArmOperation(s, ins, stale)
               == LoadStoreMultiple.ArmMultiple(s, LoadStoreMultiple.Decode(ins), stale.word)
  {
    hide TypeField, IBit, LoadStoreMultiple.ArmMultiple, LoadStoreMultiple.Decode, ArmOperation, LoadStore.LoadStore,
      LoadStore.LoadStoreHalf, DataProcessing.DataProcess, Branch.BranchLink, HalfTransfer;
    var ins: Word := c * 0x1000_0000 + 0x800_0000 + x;
    TypeOfWord(c, 2, x);
    Bit25OfWord(c, 2, 0, x);
    InstructionLimits.OperationOfBody(s, ins, stale);
  }

  /** 11: nothing. */
  lemma OtherWords(s: State, c: nat, x: nat, stale: Stale)
    requires c < 16 && x < 0x400_0000
    ensures var ins: Word := c * 0x1000_0000 + 0xC00_0000 + x;
            SelectExecute(s, ins, stale) == (s, 0) && ArmOperation(s, ins, stale) == s
  {
    hide TypeField, ArmOperation, LoadStore.LoadStore, LoadStore.LoadStoreHalf, DataProcessing.DataProcess,
      Branch.BranchLink, IBit, HalfTransfer;
    var ins: Word := c * 0x1000_0000 + 0xC00_0000 + x;
    TypeOfWord(c, 3, x);
    InstructionLimits.OperationOfBody(s, ins, stale);
  }

  lemma HalfBits(c: nat, x: nat)
    requires c < 16 && x < 0x400_0000
    ensures HalfTransfer(c * 0x1000_0000 + x) <==> (x / 0x80) % 2 == 1 && (x / 0x10) % 2 == 1
  {
    FieldAbove(x, c, 0x80, 2, 0x10_0000);
    FieldAbove(x, c, 0x10, 2, 0x80_0000);
  }

  /** 00: a half-word transfer where bits 7 and 4 are set, for the manual only if bit 25 is clear; else data
      processing. */
  lemma TypeZeroWords(s: State, c: nat, x: nat, stale: Stale)
    requires c < 16 && x < 0x400_0000
    ensures var ins: Word := c * 0x1000_0000 + x;
            var half := (x / 0x80) % 2 == 1 && (x / 0x10) % 2 == 1;
            && SelectExecute(s, ins, stale)
               == (if half then LoadStore.LoadStoreHalf(s, ins, stale.word)
                   else DataProcessing.DataProcess(s, ins, stale), 0)
            && ArmOperation(s, ins, stale)
               == if half && x < 0x200_0000 then LoadStore.ArmLoadStoreHalf(s, ins, stale.word)
                  else DataProcessing.ArmDataProcessing(s, ins)
  {
    hide TypeField, IBit, HalfTransfer, LoadStore.LoadStoreHalf, LoadStore.ArmLoadStoreHalf, DataProcessing.DataProcess,
      DataProcessing.ArmDataProcessing, ArmOperation;
    var ins: Word := c * 0x1000_0000 + x;
    TypeOfWord(c, 0, x);
    HalfBits(c, x);
    if x < 0x200_0000 { Bit25OfWord(c, 0, 0, x); } else { Bit25OfWord(c, 0, 1, x - 0x200_0000); }
    InstructionLimits.OperationOfBody(s, ins, stale);
  }

  // ----- branches -----

  /** B and BL: r15 moves by any multiple of 4 from -2^25 to 2^25 - 4, in both machines; r14 is set for BL
      alone, by the source to r15 as it reads, by the manual to the next instruction. */
  lemma BranchEffect(s: State, c: nat, l: Flag, d: int, stale: Stale)
    requires c < 16 && d % 4 == 0 && -0x200_0000 <= d <= 0x1FF_FFFC
    ensures var ins: Word := c * 0x1000_0000 + 0xA00_0000 + l * 0x100_0000 + (d / 4) % 0x100_0000;
            var target := (ReadReg(s, 15) + d) % 0x1_0000_0000;
            && SelectExecute(s, ins, stale)
               == (s.(regs := (if l == 1 then s.regs[14 := ReadReg(s, 15)] else s.regs)[15 := target]), 0)
            && ArmOperation(s, ins, stale)
               == s.(regs := (if l == 1 then s.regs[14 := s.regs[15]] else s.regs)[15 := target])
  {
    hide SelectExecute, ArmOperation, ReadReg, Branch.Extend, Branch.OffsetField, Branch.LinkBit;
    var f := (d / 4) % 0x100_0000;
    var ins: Word := c * 0x1000_0000 + 0xA00_0000 + l * 0x100_0000 + f;
    BranchWords(s, c, l * 0x100_0000 + f, stale);
    BranchFieldsOf(c, l, f);
    SignedField(d, f);
    Branch.ExtendIsDisplacement(f);
    WrapSum(d, ReadReg(s, 15));
  }

  lemma BranchFieldsOf(c: nat, l: Flag, f: nat)
    requires c < 16 && f < 0x100_0000
    ensures var ins: Word := c * 0x1000_0000 + 0xA00_0000 + l * 0x100_0000 + f;
            Branch.OffsetField(ins) == f && Branch.LinkBit(ins) == l
  {
    var ins: Word := c * 0x1000_0000 + 0xA00_0000 + l * 0x100_0000 + f;
    DivUnique(ins, 0x100_0000, c * 16 + 10 + l, f);
    Field(ins, c * 8 + 5, l, f, 0x100_0000, 2);
  }

  lemma SignedField(d: int, f: Branch.Field24)
    requires d % 4 == 0 && -0x200_0000 <= d <= 0x1FF_FFFC && f == (d / 4) % 0x100_0000
    ensures Branch.Displacement(f) == d
  {
  }

  // ----- multiple transfers -----

  /** The word of LDM (l = 1) or STM, for mode 2 p + u. */
  function MultipleWord(c: nat, p: Flag, u: Flag, w: Flag, l: Flag, rn: nat, list: Half): Word
    requires c < 16 && rn < 16
  {
    c * 0x1000_0000 + 0x800_0000 + p * 0x100_0000 + u * 0x80_0000 + w * 0x20_0000 + l * 0x10_0000 + rn * 0x1_0000 + list
  }

  lemma MultipleFields(c: nat, p: Flag, u: Flag, w: Flag, l: Flag, rn: nat, list: Half)
    requires c < 16 && rn < 16
    ensures LoadStoreMultiple.Decode(MultipleWord(c, p, u, w, l, rn, list))
         == LoadStoreMultiple.Block(l == 1, w == 1, 2 * p + u, rn, list)
  {
    var x := MultipleWord(c, p, u, w, l, rn, list);
    var h := c * 8 + 4;
    var low := rn * 0x1_0000 + list;
    Field(x, h, 2 * p + u, w * 0x20_0000 + l * 0x10_0000 + low, 0x80_0000, 4);
    Field(x, h * 8 + p * 4 + u * 2, w, l * 0x10_0000 + low, 0x20_0000, 2) by {
      assert x == ((h * 8 + p * 4 + u * 2) * 2 + w) * 0x20_0000 + l * 0x10_0000 + low;
    }
    Field(x, h * 16 + p * 8 + u * 4 + w, l, low, 0x10_0000, 2);
    Field(x, h * 32 + p * 16 + u * 8 + w * 2 + l, rn, list, 0x1_0000, 16);
    DivUnique(x, 0x1_0000, (h * 32 + p * 16 + u * 8 + w * 2 + l) * 16 + rn, list);
  }

  /** The source skips them; the manual transfers the listed registers in that mode. */
  lemma MultipleEffect(s: State, c: nat, p: Flag, u: Flag, w: Flag, l: Flag, rn: nat, list: Half, stale: Stale)
    requires c < 16 && rn < 16
    ensures var ins := MultipleWord(c, p, u, w, l, rn, list);
            && SelectExecute(s, ins, stale) == (s, 0)
            && ArmOperation(s, ins, stale)
               == LoadStoreMultiple.ArmMultiple(s, LoadStoreMultiple.Block(l == 1, w == 1, 2 * p + u, rn, list),
                                                stale.word)
  {
    hide SelectExecute, ArmOperation, LoadStoreMultiple.ArmMultiple, LoadStoreMultiple.Decode;
    var x := p * 0x100_0000 + u * 0x80_0000 + w * 0x20_0000 + l * 0x10_0000 + rn * 0x1_0000 + list;
    MultipleFields(c, p, u, w, l, rn, list);
    MultipleWords(s, c, x, stale);
  }

  /** So a push word and the pop word of the inverse mode, both with writeback and neither listing the base
      or r15, are the push and the pop that the theorems on the stack are about. */
  lemma PushAndPopWords(s: State, c: nat, p: Flag, u: Flag, rn: nat, list: Half, stale: Stale)
    requires c < 16 && LoadStoreMultiple.Savable(list, rn)
    ensures ArmOperation(s, MultipleWord(c, p, u, 1, 0, rn, list), stale)
         == LoadStoreMultiple.Push(s, 2 * p + u, rn, list)
    ensures ArmOperation(s, MultipleWord(c, 1 - p, 1 - u, 1, 1, rn, list), stale)
         == LoadStoreMultiple.Pop(s, 2 * p + u, rn, list, stale.word)
  {
    hide LoadStoreMultiple.ArmMultiple, ArmOperation, SelectExecute, MultipleWord, LoadStoreMultiple.Push,
      LoadStoreMultiple.Pop;
    MultipleEffect(s, c, p, u, 1, 0, rn, list, stale);
    MultipleEffect(s, c, 1 - p, 1 - u, 1, 1, rn, list, stale);
    PushIsArmMultiple(s, 2 * p + u, rn, list, stale.word);
  }

  lemma PushIsArmMultiple(s: State, mode: LoadStoreMultiple.Mode, rn: nat, list: Half, stale: Word)
    requires LoadStoreMultiple.Savable(list, rn)
    ensures LoadStoreMultiple.ArmMultiple(s, LoadStoreMultiple.Block(false, true, mode, rn, list), stale)
         == LoadStoreMultiple.Push(s, mode, rn, list)
    ensures LoadStoreMultiple.ArmMultiple(s, LoadStoreMultiple.Block(true, true, 3 - mode, rn, list), stale)
         == LoadStoreMultiple.Pop(s, mode, rn, list, stale)
  {
    hide LoadStoreMultiple.ArmMultiple, LoadStoreMultiple.Transfer, LoadStoreMultiple.Slot, LoadStoreMultiple.Count,
      LoadStoreMultiple.ArmStart, Accepts, Bit;
    var push := LoadStoreMultiple.Block(false, true, mode, rn, list);
    LoadStoreMultiple.TransferIsArmMultipleIff(s, push, stale);
    LoadStoreMultiple.TransferIsArmMultipleIff(s, LoadStoreMultiple.Block(true, true, 3 - mode, rn, list), stale);
    StaleIsNotStored(s, push, stale);
  }

  lemma StaleIsNotStored(s: State, b: LoadStoreMultiple.Block, stale: Word)
    requires b.rn < 16 && !b.load
    ensures LoadStoreMultiple.Transfer(s, b, stale) == LoadStoreMultiple.Transfer(s, b, 0)
  {
  }

  // ----- the status register -----

  lemma StatusBits(x: Word)
    ensures FlagN(x) == x / 0x8000_0000 && FlagZ(x) == (x / 0x4000_0000) % 2
    ensures FlagC(x) == (x / 0x2000_0000) % 2 && FlagV(x) == (x / 0x1000_0000) % 2
  {
    Pow2Values();
    BitIsShift(x, 31);
    BitIsShift(x, 30);
    BitIsShift(x, 29);
    BitIsShift(x, 28);
  }

  /** The flag update, as a number: N, Z, C and V from bit 31 down, the rest kept. */
  lemma StatusNumber(cpsr: Word, value: Word, c: Byte, v: Byte)
    requires FlagArgument(c) && FlagArgument(v)
    ensures ArmWriteFlags(cpsr, value, c, v)
         == (if value >= 0x8000_0000 then 0x8000_0000 else 0)
          + (if value == 0 then 0x4000_0000 else 0)
          + 0x2000_0000 * (if c == 0xFF then (cpsr / 0x2000_0000) % 2 else c)
          + 0x1000_0000 * (if v == 0xFF then (cpsr / 0x1000_0000) % 2 else v)
          + cpsr % 0x1000_0000
  {
    hide ArmWriteFlags, FlagN, FlagZ, FlagC, FlagV;
    var x := ArmWriteFlags(cpsr, value, c, v);
    WriteFlagsExact(cpsr, value, c, v);
    StatusBits(cpsr);
    StatusBits(x);
    TopBits(x);
  }

  lemma TopBits(x: Word)
    ensures x == x / 0x8000_0000 * 0x8000_0000 + (x / 0x4000_0000) % 2 * 0x4000_0000
               + (x / 0x2000_0000) % 2 * 0x2000_0000 + (x / 0x1000_0000) % 2 * 0x1000_0000 + x % 0x1000_0000
  {
    Halves(x, 0x4000_0000);
    Halves(x, 0x2000_0000);
    Halves(x, 0x1000_0000);
  }

  /** Section A3.2.1, from the top four bits of the status register. */
  lemma ConditionNumbers(x: Word)
    ensures var n, z, c, v := x / 0x8000_0000, (x / 0x4000_0000) % 2, (x / 0x2000_0000) % 2, (x / 0x1000_0000) % 2;
            && (ArmPasses(x, 0) <==> z == 1) && (ArmPasses(x, 1) <==> z == 0)
            && (ArmPasses(x, 2) <==> c == 1) && (ArmPasses(x, 3) <==> c == 0)
            && (ArmPasses(x, 4) <==> n == 1) && (ArmPasses(x, 5) <==> n == 0)
            && (ArmPasses(x, 6) <==> v == 1) && (ArmPasses(x, 7) <==> v == 0)
            && (ArmPasses(x, 8) <==> c == 1 && z == 0) && (ArmPasses(x, 9) <==> c == 0 || z == 1)
            && (ArmPasses(x, 10) <==> n == v) && (ArmPasses(x, 11) <==> n != v)
            && (ArmPasses(x, 12) <==> z == 0 && n == v) && (ArmPasses(x, 13) <==> z == 1 || n != v)
            && ArmPasses(x, 14) && !ArmPasses(x, 15)
  {
    hide FlagN, FlagZ, FlagC, FlagV;
    StatusBits(x);
  }

  /** RESET: supervisor mode, ARM state, interrupts and imprecise aborts masked, everything above clear, r15
      zero; nothing else changes. */
  lemma ResetEffect(s: State)
    ensures var t := Exception(s, 1);
            && t.cpsr % 0x20 == 0x13 && (t.cpsr / 0x20) % 2 == 0
            && (t.cpsr / 0x40) % 2 == 1 && (t.cpsr / 0x80) % 2 == 1 && t.cpsr / 0x100 == 1
            && t.regs == s.regs[15 := 0] && t.mem == s.mem
    ensures forall exception: int :: exception != 1 ==> Exception(s, exception) == s
  {
  }
}
