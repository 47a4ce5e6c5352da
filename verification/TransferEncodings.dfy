/**
Single-transfer words by their fields: the offset, the address, the direction, the width and the writeback
of every form, in both machines. No statement names a decoding function.
 */
module TransferEncodings {
  import opened Words
  import opened Flags
  import opened Memory
  import opened Registers
  import opened Instruction
  import opened Shifter
  import opened Encodings
  import InstructionLimits
  import OperandEncodings
  import OperandLimits
  import LoadStore
  import DataProcessing

  // ----- transfers by their field values -----

  /** What n bytes at `address` put into register rd: bit 0 of a word loaded into r15 is dropped, and a refused
      read leaves the low bytes of `stale`. */
  function Value(s: State, n: nat, rd: nat, address: Word, stale: Word): Word
    requires Width(n)
  {
    var v := match Read(s.mem, address, n)
             case Some(v) => v
             case None => if n == 4 then stale else if n == 2 then stale % 0x1_0000 else stale % 0x100;
    if n == 4 && rd == 15 then v - v % 2 else v
  }

  /** The manual: l = 1 loads, l = 0 stores; the base is written before a load and after a store. */
  predicate ArmMoves(s: State, t: State, l: Flag, n: nat, rn: nat, rd: nat, address: Word, back: bool, moved: Word,
                     stale: Word)
    requires Width(n) && rn < 16 && rd < 16
  {
    if l == 1 then
      t == WriteReg(if back then WriteReg(s, rn, moved) else s, rd, Value(s, n, rd, address, stale))
    else
      var s' := s.(mem := Write(s.mem, address, n, ReadReg(s, rd)));
      t == if back then WriteReg(s', rn, moved) else s'
  }

  /** The source: the base is written last, with the address that was used. */
  predicate CodeMoves(s: State, t: State, l: Flag, n: nat, rn: nat, rd: nat, address: Word, back: bool, stale: Word)
    requires Width(n) && rn < 16 && rd < 16
  {
    var s' := if l == 1 then WriteReg(s, rd, Value(s, n, rd, address, stale))
              else s.(mem := Write(s.mem, address, n, ReadReg(s, rd)));
    t == if back then WriteReg(s', rn, address) else s'
  }

  lemma DropBitZero(v: Word)
    ensures AndW(v, 0xFFFF_FFFE) == v - v % 2
  {
    ClearBitZero(v);
  }

  lemma ReceivedValue(s: State, n: nat, rd: nat, a: Word, stale: Word)
    requires Width(n)
    ensures var v := LoadStore.Loaded(Read(s.mem, a, n), LoadStore.Leftover(n, stale));
            Value(s, n, rd, a, stale) == if n == 4 && rd == 15 then AndW(v, 0xFFFF_FFFE) else v
  {
    hide Read, AndW;
    DropBitZero(LoadStore.Loaded(Read(s.mem, a, n), LoadStore.Leftover(n, stale)));
  }

  /** The manual's transfer of any width, from the fields and its offset. */
  lemma ArmTransferMoves(s: State, e: Encoding, n: nat, d: Word, stale: Word)
    requires e.Fits() && Width(n)
    ensures var base := ReadReg(s, e.rn);
            var moved := (if e.u == 1 then base + d else base - d) % 0x1_0000_0000;
            ArmMoves(s, LoadStore.ArmTransfer(s, e.Assembled(), n, d, stale), e.l, n, e.rn, e.rd,
                     if e.p == 1 then moved else base, e.p == 0 || e.w == 1, moved, stale)
  {
    hide ReadReg, Read, Write, AndW, Value, LoadStore.Leftover, LoadStore.PBit, LoadStore.UBit, LoadStore.WBit,
      LoadStore.LBit, Rn, Rd, Encoding.Assembled;
    BitsRoundTrip(e);
    FieldsRoundTrip(e);
    var base := ReadReg(s, e.rn);
    var moved := (if e.u == 1 then base + d else base - d) % 0x1_0000_0000;
    ReceivedValue(s, n, e.rd, if e.p == 1 then moved else base, stale);
  }

  /** The source's word and byte transfers, from the fields and their offset: always at the moved base; loads
      always write it back, stores with an immediate offset when asked to, others never. */
  lemma CodeTransferMoves(s: State, e: Encoding, stale: Word)
    requires e.Fits()
    ensures var base, d := ReadReg(s, e.rn), LoadStore.CodeOffset(s, e.Assembled());
            var moved := (if e.u == 1 then base + d else base - d) % 0x1_0000_0000;
            CodeMoves(s, LoadStore.LoadStore(s, e.Assembled(), stale), e.l, if e.b == 1 then 1 else 4, e.rn, e.rd,
                      moved, e.l == 1 || (e.i == 0 && (e.p == 0 || e.w == 1)), stale)
  {
    hide ReadReg, ReadByte, ReadWord, WriteByte, WriteWord, AndW, Value, LoadStore.PBit, LoadStore.UBit, LoadStore.WBit,
      LoadStore.LBit, LoadStore.BBit, LoadStore.CodeOffset, IBit, Rn, Rd, Encoding.Assembled;
    BitsRoundTrip(e);
    FieldsRoundTrip(e);
    var base: int, d: int := ReadReg(s, e.rn), LoadStore.CodeOffset(s, e.Assembled());
    ReceivedValue(s, if e.b == 1 then 1 else 4, e.rd, (if e.u == 1 then base + d else base - d) % 0x1_0000_0000, stale);
  }

  lemma CodeHalfMoves(s: State, e: Encoding, stale: Word)
    requires e.Fits()
    ensures var base, d := ReadReg(s, e.rn), LoadStore.HalfOffset(s, e.Assembled());
            var moved := (if e.u == 1 then base + d else base - d) % 0x1_0000_0000;
            CodeMoves(s, LoadStore.LoadStoreHalf(s, e.Assembled(), stale), e.l, 2, e.rn, e.rd, moved,
                      e.p == 0 || e.w == 1, stale)
  {
    hide ReadReg, ReadHalf, WriteHalf, AndW, Value, LoadStore.PBit, LoadStore.UBit, LoadStore.WBit, LoadStore.LBit,
      LoadStore.HalfOffset, Rn, Rd, Encoding.Assembled;
    BitsRoundTrip(e);
    FieldsRoundTrip(e);
    var base: int, d: int := ReadReg(s, e.rn), LoadStore.HalfOffset(s, e.Assembled());
    ReceivedValue(s, 2, e.rd, (if e.u == 1 then base + d else base - d) % 0x1_0000_0000, stale);
  }

  // ----- offsets -----

  lemma OffsetFields(e: Encoding, n: nat, k: nat, r: Flag, m: nat)
    requires e.Fits() && n < 32 && k < 4 && m < 16 && e.low == 0x80 * n + 0x20 * k + 0x10 * r + m
    ensures var ins := e.Assembled();
            (ins / 128) % 32 == n && (ins / 32) % 4 == k && ins % 16 == m
  {
    var x, h := e.Assembled(), High(e);
    Split(e);
    Field(x, h, n, 0x20 * k + 0x10 * r + m, 128, 32);
    Field(x, h * 32 + n, k, 0x10 * r + m, 32, 4);
    DivUnique(x, 16, h * 256 + n * 8 + k * 2 + r, m);
  }

  /** The bits above the low twelve. */
  function High(e: Encoding): nat
    requires e.Fits()
  {
    e.cond * 0x1_0000 + e.kind * 0x4000 + e.i * 0x2000 + e.p * 0x1000 + e.u * 0x800 + e.b * 0x400 + e.w * 0x200
    + e.l * 0x100 + e.rn * 0x10 + e.rd
  }

  lemma Split(e: Encoding)
    requires e.Fits()
    ensures e.Assembled() == High(e) * 0x1000 + e.low
  {
  }

  lemma ImmediateOffset(s: State, e: Encoding)
    requires e.Fits() && e.i == 0
    ensures LoadStore.CodeOffset(s, e.Assembled()) == LoadStore.ArmOffset(s, e.Assembled()) == e.low
  {
    hide IBit, LoadStore.CodeScaled, ArmShiftImmediate, TypeOf;
    BitsRoundTrip(e);
    FieldsRoundTrip(e);
  }

  /** Rm shifted by n, with type 0 LSL, 1 LSR, 2 ASR and 3 ROR: in the source n as it is, in the manual #0 as in
      the barrel shifter. */
  lemma ScaledOffset(s: State, e: Encoding, n: nat, k: nat, r: Flag, m: nat)
    requires e.Fits() && e.i == 1
    requires n < 32 && k < 4 && m < 16 && e.low == 0x80 * n + 0x20 * k + 0x10 * r + m
    ensures var rm, c := ReadReg(s, m), (s.cpsr / 0x2000_0000) % 2;
            && LoadStore.CodeOffset(s, e.Assembled())
               == (if k == 0 then Iterate(LSL, rm, n, c) else if k == 1 then Iterate(LSR, rm, n, c)
                   else if k == 2 then Iterate(ASR, rm, n, c) else Iterate(ROR, rm, n, c)).value
            && LoadStore.ArmOffset(s, e.Assembled())
               == (if k == 0 then Iterate(LSL, rm, n, c)
                   else if k == 1 then Iterate(LSR, rm, if n == 0 then 32 else n, c)
                   else if k == 2 then Iterate(ASR, rm, if n == 0 then 32 else n, c)
                   else if n == 0 then Shifted(rm / 2 + c * 0x8000_0000, rm % 2) else Iterate(ROR, rm, n, c)).value
  {
    hide IBit, Iterate, ReadReg, FlagC, LoadStore.CodeScaled, ArmShiftImmediate, Rrx;
    var rm, c := ReadReg(s, m), FlagC(s.cpsr);
    BitsRoundTrip(e);
    OffsetFields(e, n, k, r, m);
    StatusBits(s.cpsr);
    ScaledIsIterated(TypeOf(k), rm, n, c);
    ArmScaledIs(TypeOf(k), rm, n, c);
  }

  lemma ScaledIsIterated(t: ShiftType, rm: Word, n: nat, c: Flag)
    requires n < 32
    ensures LoadStore.CodeScaled(t, rm, n) == Iterate(t, rm, n, c).value
  {
    hide Shl, Shr, Asr, Ror, Iterate;
    RegisterShiftIsIterated(t, rm, n, c);
    if n == 0 { LoadStore.ShiftByNothing(rm); }
  }

  lemma ArmScaledIs(t: ShiftType, rm: Word, n: nat, c: Flag)
    requires n < 32
    ensures ArmShiftImmediate(t, rm, n, c)
         == if t == ROR && n == 0 then Shifted(rm / 2 + c * 0x8000_0000, rm % 2)
            else Iterate(t, rm, if n == 0 && t != LSL then 32 else n, c)
  {
    hide Iterate, Rrx, ArmShiftRegister;
    OperandEncodings.RrxStep(rm, c);
    if !(t == ROR && n == 0) { ImmediateShiftIsIterated(t, rm, n, c); }
  }

  /** A half-word form: an immediate in two nibbles, or Rm. */
  lemma HalfFields(s: State, e: Encoding, high: nat, t: nat, low: nat)
    requires e.Fits() && high < 16 && t < 4 && low < 16 && e.low == 0x100 * high + 0x90 + 0x20 * t + low
    ensures HalfTransfer(e.Assembled())
    ensures LoadStore.HalfOffset(s, e.Assembled()) == if e.b == 1 then 16 * high + low else ReadReg(s, low)
  {
    hide LoadStore.BBit, ReadReg;
    var x, h := e.Assembled(), High(e);
    Split(e);
    BitsRoundTrip(e);
    Field(x, h, high, 0x90 + 0x20 * t + low, 256, 16);
    Field(x, h * 16 + high, 1, 0x10 + 0x20 * t + low, 0x80, 2);
    Field(x, h * 128 + high * 8 + 4 + t, 1, low, 0x10, 2);
    DivUnique(x, 16, h * 256 + high * 16 + 9 + 2 * t, low);
  }

  // ----- the words -----

  lemma WordOperations(s: State, e: Encoding, stale: Stale)
    requires e.Fits() && e.kind == 1
    ensures SelectExecute(s, e.Assembled(), stale) == (LoadStore.LoadStore(s, e.Assembled(), stale.word), 0)
    ensures ArmOperation(s, e.Assembled(), stale)
         == LoadStore.ArmTransfer(s, e.Assembled(), if e.b == 1 then 1 else 4, LoadStore.ArmOffset(s, e.Assembled()),
                                  stale.word)
  {
    hide TypeField, LoadStore.LoadStore, LoadStore.ArmTransfer, ArmOperation, LoadStore.ArmOffset, LoadStore.BBit;
    BitsRoundTrip(e);
    FieldsRoundTrip(e);
    InstructionLimits.OperationOfBody(s, e.Assembled(), stale);
  }

  /** LDR, LDRB, STR and STRB with a 12-bit offset. */
  lemma ImmediateTransferEffect(s: State, e: Encoding, stale: Stale)
    requires e.Fits() && e.kind == 1 && e.i == 0
    ensures var base, n := ReadReg(s, e.rn), if e.b == 1 then 1 else 4;
            var moved := (if e.u == 1 then base + e.low else base - e.low) % 0x1_0000_0000;
            var asked := e.p == 0 || e.w == 1;
            && ArmMoves(s, ArmOperation(s, e.Assembled(), stale), e.l, n, e.rn, e.rd,
                        if e.p == 1 then moved else base, asked, moved, stale.word)
            && CodeMoves(s, SelectExecute(s, e.Assembled(), stale).0, e.l, n, e.rn, e.rd, moved, e.l == 1 || asked,
                         stale.word)
  {
    hide SelectExecute, ArmOperation, LoadStore.LoadStore, LoadStore.ArmTransfer, LoadStore.CodeOffset,
      LoadStore.ArmOffset, ArmMoves, CodeMoves, ReadReg, Encoding.Assembled;
    WordOperations(s, e, stale);
    ImmediateOffset(s, e);
    ArmTransferMoves(s, e, if e.b == 1 then 1 else 4, e.low, stale.word);
    CodeTransferMoves(s, e, stale.word);
  }

  /** The same with Rm shifted by n for the offset. */
  lemma ScaledTransferEffect(s: State, e: Encoding, n: nat, k: nat, r: Flag, m: nat, stale: Stale)
    requires e.Fits() && e.kind == 1 && e.i == 1
    requires n < 32 && k < 4 && m < 16 && e.low == 0x80 * n + 0x20 * k + 0x10 * r + m
    ensures var base, width := ReadReg(s, e.rn), if e.b == 1 then 1 else 4;
            var rm, c := ReadReg(s, m), (s.cpsr / 0x2000_0000) % 2;
            var d := (if k == 0 then Iterate(LSL, rm, n, c) else if k == 1 then Iterate(LSR, rm, n, c)
                      else if k == 2 then Iterate(ASR, rm, n, c) else Iterate(ROR, rm, n, c)).value;
            var d' := (if k == 0 then Iterate(LSL, rm, n, c)
                       else if k == 1 then Iterate(LSR, rm, if n == 0 then 32 else n, c)
                       else if k == 2 then Iterate(ASR, rm, if n == 0 then 32 else n, c)
                       else if n == 0 then Shifted(rm / 2 + c * 0x8000_0000, rm % 2) else Iterate(ROR, rm, n, c)).value;
            var moved := (if e.u == 1 then base + d else base - d) % 0x1_0000_0000;
            var moved' := (if e.u == 1 then base + d' else base - d') % 0x1_0000_0000;
            && ArmMoves(s, ArmOperation(s, e.Assembled(), stale), e.l, width, e.rn, e.rd,
                        if e.p == 1 then moved' else base, e.p == 0 || e.w == 1, moved', stale.word)
            && CodeMoves(s, SelectExecute(s, e.Assembled(), stale).0, e.l, width, e.rn, e.rd, moved, e.l == 1,
                         stale.word)
  {
    hide SelectExecute, ArmOperation, LoadStore.LoadStore, LoadStore.ArmTransfer, LoadStore.CodeOffset,
      LoadStore.ArmOffset, ArmMoves, CodeMoves, ReadReg, Encoding.Assembled, Iterate;
    WordOperations(s, e, stale);
    ScaledOffset(s, e, n, k, r, m);
    ArmTransferMoves(s, e, if e.b == 1 then 1 else 4, LoadStore.ArmOffset(s, e.Assembled()), stale.word);
    CodeTransferMoves(s, e, stale.word);
  }

  /** LDRH and STRH, with an 8-bit offset (bit 22 set) or Rm. */
  lemma HalfTransferEffect(s: State, e: Encoding, high: nat, t: nat, low: nat, stale: Stale)
    requires e.Fits() && e.kind == 0 && e.i == 0
    requires high < 16 && t < 4 && low < 16 && e.low == 0x100 * high + 0x90 + 0x20 * t + low
    ensures var base, d := ReadReg(s, e.rn), if e.b == 1 then 16 * high + low else ReadReg(s, low);
            var moved := (if e.u == 1 then base + d else base - d) % 0x1_0000_0000;
            var asked := e.p == 0 || e.w == 1;
            && ArmMoves(s, ArmOperation(s, e.Assembled(), stale), e.l, 2, e.rn, e.rd,
                        if e.p == 1 then moved else base, asked, moved, stale.word)
            && CodeMoves(s, SelectExecute(s, e.Assembled(), stale).0, e.l, 2, e.rn, e.rd, moved, asked, stale.word)
  {
    hide ArmOperation, LoadStore.LoadStoreHalf, LoadStore.ArmTransfer, LoadStore.HalfOffset, HalfTransfer, TypeField,
      IBit, ArmMoves, CodeMoves, ReadReg, Encoding.Assembled;
    BitsRoundTrip(e);
    FieldsRoundTrip(e);
    HalfFields(s, e, high, t, low);
    InstructionLimits.OperationOfBody(s, e.Assembled(), stale);
    var d: Word := if e.b == 1 then 16 * high + low else ReadReg(s, low);
    ArmTransferMoves(s, e, 2, d, stale.word);
    CodeHalfMoves(s, e, stale.word);
  }
}
