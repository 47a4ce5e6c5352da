/**
Single transfers: LDR, LDRB, STR, STRB, LDRH and STRH. `LoadStore` and `LoadStoreHalf` do what the
source does; `ArmLoadStore` and `ArmLoadStoreHalf` follow addressing modes 2 and 3 (sections A5.2
and A5.3 of the ARM Architecture Reference Manual). The result code of a memory access is ignored,
as in the source: a refused write does nothing and a refused read leaves the uninitialised local,
`stale`, to be loaded.
 */
module LoadStore {
  import opened Words
  import opened Flags
  import opened Memory
  import opened Shifter
  import opened Registers

  // ----- decoding -----

  function PBit(ins: Word): Flag { (ins / 0x100_0000) % 2 }
  function UBit(ins: Word): Flag { (ins / 0x80_0000) % 2 }
  function BBit(ins: Word): Flag { (ins / 0x40_0000) % 2 }
  function WBit(ins: Word): Flag { (ins / 0x20_0000) % 2 }
  function LBit(ins: Word): Flag { (ins / 0x10_0000) % 2 }
  function Rm(ins: Word): nat { ins % 16 }

  // ----- offsets and addresses -----

  function CodeScaled(t: ShiftType, rm: Word, imm: nat): Word
    requires imm < 32
  {
    match t
    case LSL => Shl(rm, imm)
    case LSR => Shr(rm, imm)
    case ASR => Asr(rm, imm)
    case ROR => Ror(rm, imm)
  }

  function CodeOffset(s: State, ins: Word): Word {
    if IBit(ins) == 1 then CodeScaled(TypeOf((ins / 32) % 4), ReadReg(s, Rm(ins)), (ins / 128) % 32)
    else ins % 0x1000
  }

  /** Scaled offsets encode #0 as in the barrel shifter: 32 for LSR and ASR, RRX for ROR. */
  function ArmOffset(s: State, ins: Word): Word {
    if IBit(ins) == 1 then
      ArmShiftImmediate(TypeOf((ins / 32) % 4), ReadReg(s, Rm(ins)), (ins / 128) % 32, FlagC(s.cpsr)).value
    else ins % 0x1000
  }

  /** The half-word forms put an 8-bit immediate in two nibbles; bit 22 says immediate. */
  function HalfOffset(s: State, ins: Word): Word {
    if BBit(ins) == 1 then ((ins / 256) % 16) * 16 + ins % 16 else ReadReg(s, Rm(ins))
  }

  function Moved(base: Word, u: Flag, offset: Word): Word {
    if u == 1 then Wrap(base + offset) else Wrap(base - offset)
  }

  predicate Writeback(ins: Word) {
    PBit(ins) == 0 || WBit(ins) == 1
  }

  // ----- the transfer itself -----

  function Loaded<T>(read: Option<T>, stale: T): T {
    match read case Some(v) => v case None => stale
  }

  function LdrLdrb(s: State, b: Flag, temp: Word, rd: nat, rn: nat, stale: Word): State
    requires rd < 16 && rn < 16
  {
    var s' := if b == 1 then WriteReg(s, rd, Loaded(ReadByte(s.mem, temp), stale % 0x100)) else
              var v := Loaded(ReadWord(s.mem, temp), stale);
              WriteReg(s, rd, if rd == 15 then AndW(v, 0xFFFF_FFFE) else v);
    WriteReg(s', rn, temp)
  }

  function StrStrb(s: State, b: Flag, temp: Word, rd: nat): State
    requires rd < 16
  {
    if b == 1 then s.(mem := WriteByte(s.mem, temp, ReadReg(s, rd) % 0x100))
    else s.(mem := WriteWord(s.mem, temp, ReadReg(s, rd)))
  }

  /** `arm_load_store` as written: the address is always the moved base, every load writes it back,
      and a store with a register offset never does. */
  function LoadStore(s: State, ins: Word, stale: Word): State {
    var temp := Moved(ReadReg(s, Rn(ins)), UBit(ins), CodeOffset(s, ins));
    if LBit(ins) == 1 then
      var s' := LdrLdrb(s, BBit(ins), temp, Rd(ins), Rn(ins), stale);
      if IBit(ins) == 0 && PBit(ins) == 1 && WBit(ins) == 1 then WriteReg(s', Rn(ins), temp) else s'
    else
      var s' := StrStrb(s, BBit(ins), temp, Rd(ins));
      if IBit(ins) == 0 && Writeback(ins) then WriteReg(s', Rn(ins), temp) else s'
  }

  function LoadStoreHalf(s: State, ins: Word, stale: Word): State {
    var address := Moved(ReadReg(s, Rn(ins)), UBit(ins), HalfOffset(s, ins));
    var s' := if LBit(ins) == 1 then WriteReg(s, Rd(ins), Loaded(ReadHalf(s.mem, address), stale % 0x1_0000))
              else s.(mem := WriteHalf(s.mem, address, ReadReg(s, Rd(ins)) % 0x1_0000));
    if Writeback(ins) then WriteReg(s', Rn(ins), address) else s'
  }

  // ----- the manual's transfers -----

  /** Pre-indexed and offset forms use the moved base, post-indexed forms the base itself. */
  function ArmAddress(p: Flag, base: Word, moved: Word): Word {
    if p == 1 then moved else base
  }

  /** What a refused load of n bytes finds in a local that holds `stale`. */
  function Leftover(n: nat, stale: Word): Word {
    if n == 4 then stale else if n == 2 then stale % 0x1_0000 else stale % 0x100
  }

  /** An n-byte transfer: the base is written back before the destination is loaded. */
  function ArmTransfer(s: State, ins: Word, n: nat, offset: Word, stale: Word): State
    requires Width(n)
  {
    var base := ReadReg(s, Rn(ins));
    var moved := Moved(base, UBit(ins), offset);
    var address := ArmAddress(PBit(ins), base, moved);
    if LBit(ins) == 1 then
      var v := Loaded(Read(s.mem, address, n), Leftover(n, stale));
      var s' := if Writeback(ins) then WriteReg(s, Rn(ins), moved) else s;
      WriteReg(s', Rd(ins), if n == 4 && Rd(ins) == 15 then AndW(v, 0xFFFF_FFFE) else v)
    else
      var s' := s.(mem := Write(s.mem, address, n, ReadReg(s, Rd(ins))));
      if Writeback(ins) then WriteReg(s', Rn(ins), moved) else s'
  }

  function ArmLoadStore(s: State, ins: Word, stale: Word): State {
    ArmTransfer(s, ins, if BBit(ins) == 1 then 1 else 4, ArmOffset(s, ins), stale)
  }

  function ArmLoadStoreHalf(s: State, ins: Word, stale: Word): State {
    ArmTransfer(s, ins, 2, HalfOffset(s, ins), stale)
  }

  // ----- frames -----

  predicate SameShape(s: State, s': State) {
    |s'.mem.bytes| == |s.mem.bytes| && s'.mem.big == s.mem.big
  }

  /** No transfer touches the status register, the memory's size or its byte order. */
  lemma TransfersKeep(s: State, ins: Word, stale: Word)
    ensures var s' := LoadStore(s, ins, stale); s'.cpsr == s.cpsr && SameShape(s, s')
    ensures var s' := LoadStoreHalf(s, ins, stale); s'.cpsr == s.cpsr && SameShape(s, s')
    ensures var s' := ArmLoadStore(s, ins, stale); s'.cpsr == s.cpsr && SameShape(s, s')
    ensures var s' := ArmLoadStoreHalf(s, ins, stale); s'.cpsr == s.cpsr && SameShape(s, s')
  {
    hide ReadReg, CodeOffset, ArmOffset, HalfOffset, Moved, ReadByte, ReadHalf, ReadWord, WriteByte, WriteHalf,
      WriteWord, AndW, Read, Write;
  }

  // ----- round trips -----

  /** A transfer whose load does not write its own base. */
  predicate CleanLoad(ins: Word) {
    LBit(ins) == 1 && Rd(ins) != 15 && (Writeback(ins) ==> Rd(ins) != Rn(ins))
  }

  function TransferAddress(s: State, ins: Word, offset: Word): Word {
    var base := ReadReg(s, Rn(ins));
    ArmAddress(PBit(ins), base, Moved(base, UBit(ins), offset))
  }

  /** A store, then a load of the same width at the same effective address, in any state with that
      memory and whatever the two addressing forms: the load yields the stored value truncated to the
      width, and memory elsewhere is unchanged. */
  lemma StoreThenLoad(s: State, store: Word, off: Word, t: State, load: Word, off': Word, n: nat, stale: Word)
    requires Width(n) && LBit(store) == 0 && CleanLoad(load)
    requires Accepts(s.mem, TransferAddress(s, store, off), n)
    requires t.mem == ArmTransfer(s, store, n, off, stale).mem
    requires TransferAddress(t, load, off') == TransferAddress(s, store, off)
    ensures ArmTransfer(t, load, n, off', stale).regs[Rd(load)] == ReadReg(s, Rd(store)) % Pow256(n)
    ensures ArmTransfer(t, load, n, off', stale).mem == t.mem
    ensures var a := TransferAddress(s, store, off);
            forall x :: 0 <= x < |s.mem.bytes| && !(a <= x < a + n) ==> t.mem.bytes[x] == s.mem.bytes[x]
  {
    hide ReadReg, Moved, Read, Write, Accepts;
    WriteThenRead(s.mem, TransferAddress(s, store, off), n, ReadReg(s, Rd(store)));
  }

  /** The source's own pair of helpers makes the same round trip for words and bytes; because the load
      writes its address into Rn last, the value survives exactly when Rd is not Rn, or it happens to
      be that address. */
  lemma StrThenLdr(s: State, b: Flag, temp: Word, rs: nat, rd: nat, rn: nat, stale: Word)
    requires rs < 16 && rd < 15 && rn < 16
    requires Accepts(s.mem, temp, if b == 1 then 1 else 4)
    ensures var v := if b == 1 then ReadReg(s, rs) % 0x100 else ReadReg(s, rs);
            var s' := StrStrb(s, b, temp, rs);
            var s'' := LdrLdrb(s', b, temp, rd, rn, stale);
            && (s''.regs[rd] == v <==> rd != rn || v == temp)
            && s''.mem == s'.mem
            && s'.regs == s.regs
            && (forall x :: 0 <= x < |s.mem.bytes| && !(temp <= x < temp + (if b == 1 then 1 else 4)) ==>
                  s'.mem.bytes[x] == s.mem.bytes[x])
  {
    hide ReadReg, ReadByte, ReadWord, WriteByte, WriteWord, Accepts;
    Pow256Values();
    WriteThenRead(s.mem, temp, if b == 1 then 1 else 4, ReadReg(s, rs));
  }

  /** Post-indexing up and then down by the same offset restores the base, modulo 2^32. */
  lemma PostIndexedPair(s: State, up: Word, down: Word, offset: Word, n: nat, n': nat, stale: Word)
    requires Width(n) && Width(n')
    requires PBit(up) == PBit(down) == 0 && UBit(up) == 1 && UBit(down) == 0
    requires Rn(up) == Rn(down) != 15
    requires LBit(up) == 1 ==> Rd(up) != Rn(up)
    requires LBit(down) == 1 ==> Rd(down) != Rn(up)
    ensures ArmTransfer(ArmTransfer(s, up, n, offset, stale), down, n', offset, stale).regs[Rn(up)] == s.regs[Rn(up)]
  {
    hide Read, Write;
    UpThenDown(s.regs[Rn(up)], offset);
  }

  lemma UpThenDown(base: Word, offset: Word)
    ensures Moved(Moved(base, 1, offset), 0, offset) == base
  {
  }

  // ----- how the source compares -----

  /** The scaled offset is the manual's exactly when the amount is not the special #0, the shift is
      LSL, or the register is one of the values the special encodings leave alone. */
  lemma CodeScaledIff(t: ShiftType, rm: Word, imm: nat, c: Flag)
    requires imm < 32
    ensures CodeScaled(t, rm, imm) == ArmShiftImmediate(t, rm, imm, c).value
       <==> || imm != 0 || t == LSL || (t == LSR && rm == 0)
            || (t == ASR && (rm == 0 || rm == 0xFFFF_FFFF))
            || (t == ROR && ((rm == 0 && c == 0) || (rm == 0xFFFF_FFFF && c == 1)))
  {
    hide Shl, Shr, Asr, Ror, Rrx;
    ShiftByNothing(rm);
    SignBit(rm);
    if t == ROR && imm == 0 { RrxValue(rm, c); }
  }

  lemma ShiftByNothing(rm: Word)
    ensures Shl(rm, 0) == Shr(rm, 0) == Asr(rm, 0) == Ror(rm, 0) == rm
  {
    Pow2Values();
    DivUnique(rm, 1, rm, 0);
    DivUnique((WORD - 1) * WORD, WORD, WORD - 1, 0);
    DivUnique(rm * WORD, WORD, rm, 0);
    OrZero(rm);
  }

  lemma OrZero(x: nat)
    ensures Or(x, 0) == x
  {
  }

  lemma MovedIsBaseIff(base: Word, u: Flag, offset: Word)
    ensures Moved(base, u, offset) == base <==> offset == 0
  {
  }

  /** The source always accesses the moved base: the manual's address exactly for the offset and
      pre-indexed forms (P = 1), or a zero offset. */
  lemma CodeAddressIff(p: Flag, base: Word, u: Flag, offset: Word)
    ensures Moved(base, u, offset) == ArmAddress(p, base, Moved(base, u, offset)) <==> p == 1 || offset == 0
  {
    hide Moved;
    MovedIsBaseIff(base, u, offset);
  }

  /** Hence pre-indexed transfers with an immediate offset are exactly the manual's. */
  lemma PreIndexedAgrees(s: State, ins: Word, stale: Word)
    requires IBit(ins) == 0 && PBit(ins) == 1 && WBit(ins) == 1
    requires LBit(ins) == 1 ==> Rd(ins) != Rn(ins)
    ensures LoadStore(s, ins, stale) == ArmLoadStore(s, ins, stale)
  {
    hide Moved, ReadByte, ReadWord, WriteByte, WriteWord, AndW, ReadReg;
    var moved := Moved(ReadReg(s, Rn(ins)), UBit(ins), ins % 0x1000);
    if LBit(ins) == 1 {
      assert LoadStore(s, ins, stale).regs == ArmLoadStore(s, ins, stale).regs;
    }
  }
}
