/**
The source never dispatches LDM and STM, so it is the manual's machine exactly where the transfer would
change nothing: when that is, register by register.
 */
module MultipleLimits {
  import opened Words
  import opened Memory
  import opened Registers
  import opened LoadStoreMultiple
  import LoadStore
  import TransferLimits

  // ----- stores -----

  /** The slot of each listed register from i on is refused or holds it. */
  predicate HeldFrom(s: State, list: Half, i: nat, start: Word) {
    forall j: nat :: i <= j < 16 && Bit(list, j) == 1 ==>
      TransferLimits.Holds(s.mem, Slot(start, list, j), 4, ReadReg(s, j))
  }

  /** The registers from i on stored, r15 last. */
  function StoreFrom(s: State, list: Half, i: nat, address: Word): State
    requires i <= 15
  {
    var (s', last) := StoreLoop(s, list, i, address);
    if Bit(list, 15) == 1 then s'.(mem := WriteWord(s'.mem, last, ReadReg(s, 15))) else s'
  }

  lemma HeldStep(s: State, list: Half, i: nat, start: Word)
    requires i <= 15
    ensures HeldFrom(s, list, i, start)
       <==> && (Bit(list, i) == 1 ==> TransferLimits.Holds(s.mem, Slot(start, list, i), 4, ReadReg(s, i)))
            && HeldFrom(s, list, i + 1, start)
  {
    hide TransferLimits.Holds, Slot, ReadReg, Bit;
  }

  lemma OtherSlots(list: Half, i: nat, j: nat, start: Word, x: int)
    requires i < j <= 15 && Bit(list, i) == 1 && Slot(start, list, i) % 4 == 0
    requires Within(Slot(start, list, i), x)
    ensures !Within(Slot(start, list, j), x)
  {
    if Within(Slot(start, list, j), x) { SlotsDisjoint(start, list, i, j, x); }
  }

  lemma NotCovered(list: Half, i: nat, start: Word, x: int)
    requires i < 15 && Bit(list, i) == 1 && Slot(start, list, i) % 4 == 0
    requires Within(Slot(start, list, i), x)
    ensures !Covered(start, list, i + 1, x)
  {
    hide Slot, Bit, Within;
    forall j: nat | i + 1 <= j < 15 ensures !Within(Slot(start, list, j), x) {
      OtherSlots(list, i, j, start, x);
    }
  }

  /** Storing the later registers keeps the slot of register i. */
  lemma SlotKept(s: State, list: Half, i: nat, start: Word, x: int)
    requires i < 15 && Bit(list, i) == 1 && Accepts(s.mem, Slot(start, list, i), 4)
    requires Within(Slot(start, list, i), x) && 0 <= x < |s.mem.bytes|
    ensures var m := StoreFrom(s, list, i + 1, Slot(start, list, i + 1)).mem;
            |m.bytes| == |s.mem.bytes| && m.bytes[x] == s.mem.bytes[x]
  {
    hide Slot, WriteWord, Accepts, Bit, Within, Covered, StoreLoop, ReadReg;
    AcceptedAligned(s.mem, Slot(start, list, i));
    StoreLoopFrame(s, list, i + 1, start);
    NotCovered(list, i, start, x);
    OtherSlots(list, i, 15, start, x);
    var (s', last) := StoreLoop(s, list, i + 1, Slot(start, list, i + 1));
    OtherBytes(s'.mem, last, ReadReg(s, 15), x);
  }

  lemma OtherBytes(m: Mem, a: Word, v: Word, x: int)
    requires 0 <= x < |m.bytes|
    ensures Within(a, x) || WriteWord(m, a, v).bytes[x] == m.bytes[x]
  {
    hide WriteWord;
    WriteMeans(m, a, 4, v);
  }

  lemma {:induction false} StoreFromIdleIff(s: State, list: Half, i: nat, start: Word)
    requires i <= 15
    ensures StoreFrom(s, list, i, Slot(start, list, i)) == s <==> HeldFrom(s, list, i, start)
    decreases 15 - i
  {
    hide Slot, WriteWord, Accepts, HeldFrom, ReadReg, TransferLimits.Holds, Bit;
    HeldStep(s, list, i, start);
    NextSlot(start, list, i);
    var a := Slot(start, list, i);
    TransferLimits.HoldsIff(s.mem, a, 4, ReadReg(s, i));
    if i == 15 {
      NothingAbove(s, list, start);
    } else if Bit(list, i) == 0 || TransferLimits.Holds(s.mem, a, 4, ReadReg(s, i)) {
      StoreFromIdleIff(s, list, i + 1, start);
    } else {
      NotHeld(s, list, i, start);
    }
  }

  lemma NothingAbove(s: State, list: Half, start: Word)
    ensures HeldFrom(s, list, 16, start)
  {
  }

  lemma NotHeld(s: State, list: Half, i: nat, start: Word)
    requires i < 15 && Bit(list, i) == 1
    requires !TransferLimits.Holds(s.mem, Slot(start, list, i), 4, ReadReg(s, i))
    ensures StoreFrom(s, list, i, Slot(start, list, i)) != s
  {
    hide Slot, WriteWord, Bit, ReadReg;
    var a := Slot(start, list, i);
    var s1 := s.(mem := WriteWord(s.mem, a, ReadReg(s, i)));
    NextSlot(start, list, i);
    TransferLimits.HoldsIff(s.mem, a, 4, ReadReg(s, i));
    assert Accepts(s.mem, a, 4);
    hide Accepts;
    var s' := StoreFrom(s, list, i, a);
    assert s' == StoreFrom(s1, list, i + 1, Slot(start, list, i + 1)) by { SameR15(s, s1); }
    assert s1.mem.bytes != s.mem.bytes;
    var x :| 0 <= x < |s.mem.bytes| && s1.mem.bytes[x] != s.mem.bytes[x];
    OtherBytes(s.mem, a, ReadReg(s, i), x);
    SlotKept(s1, list, i, start, x);
  }

  lemma SameR15(s: State, s': State)
    requires s'.regs == s.regs
    ensures ReadReg(s', 15) == ReadReg(s, 15)
  {
  }

  // ----- loads -----

  /** What the load loop's local holds before register j. */
  function ValueBefore(m: Mem, list: Half, start: Word, j: nat, stale: Word): Word {
    if j == 0 then stale
    else if Bit(list, j - 1) == 1 then
      LoadStore.Loaded(ReadWord(m, Slot(start, list, j - 1)), ValueBefore(m, list, start, j - 1, stale))
    else ValueBefore(m, list, start, j - 1, stale)
  }

  lemma {:induction false} LoadLoopValues(s: State, list: Half, i: nat, start: Word, stale: Word)
    requires i <= 15
    ensures var (s', address, value) :=
              LoadLoop(s, list, i, Slot(start, list, i), ValueBefore(s.mem, list, start, i, stale));
            && address == Slot(start, list, 15) && value == ValueBefore(s.mem, list, start, 15, stale)
            && s'.mem == s.mem && s'.cpsr == s.cpsr
            && (forall j: nat :: j < 16 ==>
                  s'.regs[j] == if i <= j < 15 && Bit(list, j) == 1 then ValueBefore(s.mem, list, start, j + 1, stale)
                                else s.regs[j])
    decreases 15 - i
  {
    hide Slot, ReadWord, Bit;
    if i < 15 {
      NextSlot(start, list, i);
      var v := ValueBefore(s.mem, list, start, i + 1, stale);
      LoadLoopValues(if Bit(list, i) == 1 then WriteReg(s, i, v) else s, list, i + 1, start, stale);
    }
  }

  // ----- the instruction -----

  function BaseWritten(s: State, b: Block): Word
    requires b.rn < 16
  {
    ArmWriteback(ReadReg(s, b.rn), b.mode, Count(b.list, 16))
  }

  /** The manual's transfer leaves these registers, and no other change: the listed ones hold what is loaded,
      or their slots what they hold; and the base is written back. */
  predicate MultipleLeaves(s: State, b: Block, regs: RegisterFile, stale: Word)
    requires b.rn < 16
  {
    var start := ArmStart(ReadReg(s, b.rn), b.mode, Count(b.list, 16));
    if b.load then
      forall j: nat :: j < 16 ==>
        regs[j] == if Bit(b.list, j) == 1 then
                     var v := ValueBefore(s.mem, b.list, start, j + 1, stale);
                     if j == 15 then AndW(v, 0xFFFF_FFFE) else v
                   else if b.writeback && j == b.rn then BaseWritten(s, b) else s.regs[j]
    else
      && HeldFrom(s, b.list, 0, start)
      && KeepsOthers(s, regs, if b.writeback then {b.rn} else {})
      && (b.writeback ==> regs[b.rn] == BaseWritten(s, b))
  }

  lemma LoadLeavesIff(s: State, b: Block, regs: RegisterFile, stale: Word)
    requires b.rn < 16 && b.load
    ensures ArmMultiple(s, b, stale) == s.(regs := regs) <==> MultipleLeaves(s, b, regs, stale)
  {
    hide Slot, ReadWord, Bit, ReadReg, ArmStart, ArmWriteback, Count, AndW;
    var start := ArmStart(ReadReg(s, b.rn), b.mode, Count(b.list, 16));
    var s1 := if b.writeback then WriteReg(s, b.rn, BaseWritten(s, b)) else s;
    FirstSlot(start, b.list);
    LoadLoopValues(s1, b.list, 0, start, stale);
    var (s2, address, value) := LoadLoop(s1, b.list, 0, start, stale);
    var pc := ValueBefore(s.mem, b.list, start, 16, stale);
    var s' := if Bit(b.list, 15) == 1 then WriteReg(s2, 15, AndW(pc, 0xFFFF_FFFE)) else s2;
    assert ArmMultiple(s, b, stale) == s';
    TransferLimits.SameRegisters(s'.regs, regs);
  }

  lemma StoreLeavesIff(s: State, b: Block, regs: RegisterFile, stale: Word)
    requires b.rn < 16 && !b.load
    ensures ArmMultiple(s, b, stale) == s.(regs := regs) <==> MultipleLeaves(s, b, regs, stale)
  {
    hide Slot, WriteWord, Bit, ReadReg, ArmStart, ArmWriteback, Count, HeldFrom, StoreLoop;
    var start := ArmStart(ReadReg(s, b.rn), b.mode, Count(b.list, 16));
    FirstSlot(start, b.list);
    StoreLoopFrame(s, b.list, 0, start);
    StoreFromIdleIff(s, b.list, 0, start);
    var s1 := StoreFrom(s, b.list, 0, start);
    var s' := if b.writeback then WriteReg(s1, b.rn, BaseWritten(s, b)) else s1;
    assert ArmMultiple(s, b, stale) == s';
    assert s1.regs == s.regs;
    assert s1 == s <==> s1.mem == s.mem;
    TransferLimits.SameRegisters(s'.regs, regs);
  }

  lemma MultipleLeavesIff(s: State, b: Block, regs: RegisterFile, stale: Word)
    requires b.rn < 16
    ensures ArmMultiple(s, b, stale) == s.(regs := regs) <==> MultipleLeaves(s, b, regs, stale)
  {
    if b.load { LoadLeavesIff(s, b, regs, stale); } else { StoreLeavesIff(s, b, regs, stale); }
  }

  /** So the source's LDM and STM, as it decodes them, are the manual's exactly when those change nothing. */
  lemma CodeMultipleIff(s: State, ins: Word, stale: Word)
    ensures CodeMultiple(s, ins) == (ArmMultiple(s, Decode(ins), stale), 0)
       <==> MultipleLeaves(s, Decode(ins), s.regs, stale)
  {
    hide CodeMultiple, ArmMultiple, MultipleLeaves, Decode;
    CodeMultipleDoesNothing(s, ins);
    MultipleLeavesIff(s, Decode(ins), s.regs, stale);
  }
}
