/**
LDM and STM. The register count, the address range and the transfer loops are the source's; the
field decoding, the writeback and the operands of the transfers, which the source garbles,
are those its comments and section A4.1.20 of the ARM Architecture Reference Manual describe. `ArmMultiple`
is the manual's instruction, which counts and stores r15 too.
 */
module LoadStoreMultiple {
  import opened Words
  import opened Memory
  import opened Registers
  import LoadStore

  // ----- counting registers -----

  function Count(bits: nat, n: nat): nat {
    if n == 0 then 0 else bits % 2 + Count(bits / 2, n - 1)
  }

  function Listed(list: nat, n: nat): set<nat> {
    set i: nat | i < n && Bit(list, i) == 1
  }

  lemma {:induction false} CountLast(list: nat, n: nat)
    ensures Count(list, n + 1) == Count(list, n) + Bit(list, n)
  {
    if n > 0 {
      CountLast(list / 2, n - 1);
    }
  }

  /** The count is the cardinality of the list's bit set. */
  lemma {:induction false} CountIsCardinality(list: nat, n: nat)
    ensures Count(list, n) == |Listed(list, n)|
  {
    if n == 0 {
      assert Listed(list, 0) == {};
    } else {
      CountIsCardinality(list, n - 1);
      CountLast(list, n - 1);
      var low := Listed(list, n - 1);
      assert Listed(list, n) == if Bit(list, n - 1) == 1 then low + {n - 1} else low;
    }
  }

  /** ... and additive over disjoint lists. */
  lemma {:induction false} CountAdditive(a: nat, b: nat, n: nat)
    requires And(a, b) == 0
    ensures Count(Or(a, b), n) == Count(a, n) + Count(b, n)
    decreases n
  {
    if n > 0 {
      OrHalves(a, b);
      CountAdditive(a / 2, b / 2, n - 1);
    }
  }

  lemma OrHalves(a: nat, b: nat)
    requires And(a, b) == 0
    ensures Or(a, b) / 2 == Or(a / 2, b / 2)
    ensures Or(a, b) % 2 == a % 2 + b % 2
    ensures And(a / 2, b / 2) == 0
  {
  }

  lemma {:induction false} CountMono(list: nat, i: nat, j: nat)
    requires i <= j
    ensures Count(list, i) <= Count(list, j) <= Count(list, i) + (j - i)
  {
    if i < j {
      CountMono(list, i, j - 1);
      CountLast(list, j - 1);
    }
  }

  /** `number_of_registers`: fifteen turns of testing and dropping the lowest bit. */
  method NumberOfRegisters(list: Half) returns (cpt: nat)
    ensures cpt == |Listed(list, 15)|
  {
    var bit: nat := list;
    cpt := 0;
    for i := 1 to 16
      invariant cpt + Count(bit, 16 - i) == Count(list, 15)
    {
      MaskIsMod(bit, 1);
      if And(bit, 1) % 2 == 0 {
        bit := bit / 2;
      } else {
        cpt := cpt + 1;
        bit := bit / 2;
      }
    }
    CountIsCardinality(list, 15);
  }

  /** Bit 15 is never reached: the count is that of the whole list exactly when r15 is not in it. */
  lemma CountsAllIff(list: Half)
    ensures Count(list, 15) == |Listed(list, 16)| <==> Bit(list, 15) == 0
  {
    CountLast(list, 15);
    CountIsCardinality(list, 16);
  }

  // ----- the address range -----

  /** Addressing modes: 0 decrement after, 1 increment after, 2 decrement before, 3 increment before. */
  type Mode = m: nat | m < 4

  function InitAddresses(base: Word, mode: Mode, list: Half): (r: (Word, Word))
  {
    var n := Count(list, 15);
    match mode
    case 0 => (Wrap(base - n * 4 + 4), base)
    case 1 => (base, Wrap(base + n * 4 - 4))
    case 2 => (Wrap(base - n * 4), Wrap(base - 4))
    case _ => (Wrap(base + 4), Wrap(base + n * 4))
  }

  /** Section A5.4: with U set the block starts at the base, otherwise it ends there; P skips one
      word first. `mode` is 2 P + U. */
  function ArmStart(base: Word, mode: Mode, registers: nat): Word {
    var (p, u) := (mode / 2, mode % 2);
    if u == 1 then Wrap(base + 4 * p) else Wrap(base - 4 * registers + 4 * (1 - p))
  }

  function ArmWriteback(base: Word, mode: Mode, registers: nat): Word {
    if mode % 2 == 1 then Wrap(base + 4 * registers) else Wrap(base - 4 * registers)
  }

  /** The source's first and last address are the manual's exactly when r15 is not listed, or the
      side in question is the one that does not depend on the count. */
  lemma InitAddressesIff(base: Word, mode: Mode, list: Half)
    ensures var (start, end) := InitAddresses(base, mode, list);
            var n := |Listed(list, 16)|;
            && (start == ArmStart(base, mode, n) <==> Bit(list, 15) == 0 || mode % 2 == 1)
            && (end == Wrap(ArmStart(base, mode, n) + 4 * n - 4) <==> Bit(list, 15) == 0 || mode % 2 == 0)
  {
    hide Count, Wrap, Bit, Listed;
    CountLast(list, 15);
    CountIsCardinality(list, 16);
    var n: int, b: int := Count(list, 15), Bit(list, 15);
    var k := n + b;
    CountMono(list, 0, 16);
    WrapWord(base);
    WrapMoves(base - 4 * n + 4, -4 * b);
    WrapMoves(base - 4 * n, -4 * b);
    WrapMoves(base + 4 * n - 4, 4 * b);
    WrapMoves(base + 4 * n, 4 * b);
    WrapSum(base - 4 * k + 4, 4 * k - 4);
    WrapSum(base - 4 * k, 4 * k - 4);
    WrapSum(base, 4 * k - 4);
    WrapSum(base + 4, 4 * k - 4);
  }

  lemma EndOfRange(base: Word, mode: Mode, list: Half)
    ensures var (start, end) := InitAddresses(base, mode, list);
            end == Wrap(start + 4 * Count(list, 15) - 4)
  {
    hide Count, Wrap;
    var n: int := Count(list, 15);
    WrapWord(base);
    WrapSum(base - n * 4 + 4, 4 * n - 4);
    WrapSum(base - n * 4, 4 * n - 4);
    WrapSum(base + 4, 4 * n - 4);
  }

  /** Mode 3 - m undoes mode m: from the written-back base it covers the same block and writes the
      original base back. */
  lemma ModesInvert(base: Word, mode: Mode, list: Half)
    ensures var n := Count(list, 15);
            var base' := ArmWriteback(base, mode, n);
            && InitAddresses(base', 3 - mode, list).0 == InitAddresses(base, mode, list).0
            && ArmWriteback(base', 3 - mode, n) == base
  {
    hide Count, Wrap;
    var n: int := Count(list, 15);
    WrapWord(base);
    WrapSum(base + 4 * n, -4 * n);
    WrapSum(base + 4 * n, -4 * n + 4);
    WrapSum(base - 4 * n, 4 * n);
    WrapSum(base - 4 * n, 4);
  }

  // ----- the transfer loops -----

  /** The source's store loop from register i on: registers 0..14 only. */
  function StoreLoop(s: State, list: Half, i: nat, address: Word): (State, Word)
    requires i <= 15
    decreases 15 - i
  {
    if i == 15 then (s, address)
    else if Bit(list, i) == 1 then
      StoreLoop(s.(mem := WriteWord(s.mem, address, ReadReg(s, i))), list, i + 1, Wrap(address + 4))
    else StoreLoop(s, list, i + 1, address)
  }

  /** The load loop; a refused read leaves `value` as it was. */
  function LoadLoop(s: State, list: Half, i: nat, address: Word, value: Word): (State, Word, Word)
    requires i <= 15
    decreases 15 - i
  {
    if i == 15 then (s, address, value)
    else if Bit(list, i) == 1 then
      var v := LoadStore.Loaded(ReadWord(s.mem, address), value);
      LoadLoop(WriteReg(s, i, v), list, i + 1, Wrap(address + 4), v)
    else LoadLoop(s, list, i + 1, address, value)
  }

  /** A decoded LDM or STM. */
  datatype Block = Block(load: bool, writeback: bool, mode: Mode, rn: nat, list: Half)

  function Decode(ins: Word): (b: Block)
    ensures b.rn < 16
  {
    Block((ins / 0x10_0000) % 2 == 1, (ins / 0x20_0000) % 2 == 1, (ins / 0x80_0000) % 4,
          (ins / 0x1_0000) % 16, ins % 0x1_0000)
  }

  /** The whole instruction and its result code; `stale` is the uninitialised local of the load loop. */
  function Transfer(s: State, b: Block, stale: Word): (State, int)
    requires b.rn < 16
  {
    var base := ReadReg(s, b.rn);
    var (start, end) := InitAddresses(base, b.mode, b.list);
    var s1 := if b.writeback then WriteReg(s, b.rn, ArmWriteback(base, b.mode, Count(b.list, 15))) else s;
    if b.load then
      var (s2, address, value) := LoadLoop(s1, b.list, 0, start, stale);
      var s3 := if Bit(b.list, 15) == 1 then
                  WriteReg(s2, 15, AndW(LoadStore.Loaded(ReadWord(s2.mem, address), value), 0xFFFF_FFFE))
                else s2;
      (s3, if end != Wrap(address - 4) then 1 else 0)
    else
      var (s2, address) := StoreLoop(s1, b.list, 0, start);
      (s2, if end != Wrap(address - 4) then 1 else 0)
  }

  /** The address of register i: one word for each listed register below it. */
  function Slot(start: Word, list: Half, i: nat): Word {
    Wrap(start + 4 * Count(list, i))
  }

  predicate Within(a: Word, x: int) {
    a <= x < a + 4
  }

  /** Byte x belongs to the slot of a listed register of [i, 15). */
  predicate Covered(start: Word, list: Half, i: nat, x: int) {
    exists j: nat :: i <= j < 15 && Bit(list, j) == 1 && Within(Slot(start, list, j), x)
  }

  predicate SlotsAccepted(m: Mem, start: Word, list: Half) {
    forall j: nat :: j < 15 && Bit(list, j) == 1 ==> Accepts(m, Slot(start, list, j), 4)
  }

  lemma NextSlot(start: Word, list: Half, i: nat)
    ensures Slot(start, list, i + 1)
         == if Bit(list, i) == 1 then Wrap(Slot(start, list, i) + 4) else Slot(start, list, i)
  {
    CountLast(list, i);
  }

  /** Different listed registers have disjoint slots, even where addresses wrap around. */
  lemma SlotsDisjoint(start: Word, list: Half, i: nat, j: nat, x: int)
    requires i < j <= 15 && Bit(list, i) == 1
    requires Slot(start, list, i) % 4 == 0
    requires Within(Slot(start, list, j), x)
    ensures !Within(Slot(start, list, i), x)
  {
    hide Count, Wrap, Bit;
    CountLast(list, i);
    CountMono(list, i + 1, j);
    var d := 4 * (Count(list, j) - Count(list, i));
    WrapSum(start + 4 * Count(list, i), d);
    Apart(Slot(start, list, i), d, x);
  }

  lemma Apart(a: Word, d: int, x: int)
    requires a % 4 == 0 && 4 <= d < 0x1000
    requires Within(Wrap(a + d), x)
    ensures !Within(a, x)
  {
  }

  /** The store loop: the final address, an untouched register file, and untouched bytes outside the
      slots of the registers it still has to store. */
  lemma {:induction false} StoreLoopFrame(s: State, list: Half, i: nat, start: Word)
    requires i <= 15
    ensures var (s', address) := StoreLoop(s, list, i, Slot(start, list, i));
            && address == Slot(start, list, 15)
            && s'.regs == s.regs && s'.cpsr == s.cpsr && LoadStore.SameShape(s, s')
            && (forall x :: 0 <= x < |s.mem.bytes| && !Covered(start, list, i, x) ==> s'.mem.bytes[x] == s.mem.bytes[x])
    decreases 15 - i
  {
    if i < 15 {
      hide Slot, ReadReg, WriteWord, Accepts;
      NextSlot(start, list, i);
      var a := Slot(start, list, i);
      if Bit(list, i) == 1 {
        var s1 := s.(mem := WriteWord(s.mem, a, ReadReg(s, i)));
        StoreLoopFrame(s1, list, i + 1, start);
        WriteMeans(s.mem, a, 4, ReadReg(s, i));
        forall x | 0 <= x < |s.mem.bytes| && !Covered(start, list, i, x)
          ensures s1.mem.bytes[x] == s.mem.bytes[x] && !Covered(start, list, i + 1, x)
        {
          assert !Within(a, x);
        }
      } else {
        StoreLoopFrame(s, list, i + 1, start);
      }
    }
  }

  /** Every listed register ends up in its slot. */
  lemma {:induction false} StoreLoopStores(s: State, list: Half, i: nat, start: Word, j: nat)
    requires i <= j < 15 && Bit(list, j) == 1
    requires Accepts(s.mem, Slot(start, list, j), 4)
    ensures ReadWord(StoreLoop(s, list, i, Slot(start, list, i)).0.mem, Slot(start, list, j)) == Some(s.regs[j])
    decreases 15 - i
  {
    hide Slot, WriteWord, ReadWord, Accepts;
    NextSlot(start, list, i);
    var a := Slot(start, list, i);
    var s1 := if Bit(list, i) == 1 then s.(mem := WriteWord(s.mem, a, ReadReg(s, i))) else s;
    AcceptsSame(s.mem, s1.mem, Slot(start, list, j));
    if i < j {
      StoreLoopStores(s1, list, i + 1, start, j);
    } else {
      assert Accepts(s.mem, a, 4);
      Pow256Values();
      WriteThenRead(s.mem, a, 4, s.regs[j]);
      StoreLoopFrame(s1, list, i + 1, start);
      var m' := StoreLoop(s1, list, i + 1, Slot(start, list, i + 1)).0.mem;
      AcceptedStaysInWord(s.mem, a, 4);
      AcceptedAligned(s.mem, a);
      forall x: int | Within(a, x) ensures !Covered(start, list, i + 1, x) {
        forall k: nat | i + 1 <= k < 15 && Bit(list, k) == 1 ensures !Within(Slot(start, list, k), x) {
          if Within(Slot(start, list, k), x) { SlotsDisjoint(start, list, i, k, x); }
        }
      }
      forall x: int | a as int <= x < a as int + 4 ensures m'.bytes[x] == s1.mem.bytes[x] {
        assert Within(a, x);
      }
      ReadElsewhere(s1.mem, m', a, 4);
    }
  }

  lemma AcceptsSame(m: Mem, m': Mem, a: Word)
    requires |m'.bytes| == |m.bytes|
    ensures Accepts(m', a, 4) == Accepts(m, a, 4)
  {
  }

  lemma AcceptedAligned(m: Mem, a: Word)
    requires Accepts(m, a, 4)
    ensures a % 4 == 0
  {
  }

  /** The load loop: the final address, and every listed register loaded from its slot. */
  lemma {:induction false} LoadLoopLoads(s: State, list: Half, i: nat, start: Word, value: Word)
    requires i <= 15
    ensures var (s', address, _) := LoadLoop(s, list, i, Slot(start, list, i), value);
            && address == Slot(start, list, 15)
            && s'.mem == s.mem && s'.cpsr == s.cpsr
            && (forall j :: 0 <= j < 16 && !(i <= j < 15 && Bit(list, j) == 1) ==> s'.regs[j] == s.regs[j])
            && (forall j: nat :: i <= j < 15 && Bit(list, j) == 1 && ReadWord(s.mem, Slot(start, list, j)).Some? ==>
                  s'.regs[j] == ReadWord(s.mem, Slot(start, list, j)).value)
    decreases 15 - i
  {
    hide Slot, ReadWord;
    NextSlot(start, list, i);
    if i < 15 {
      if Bit(list, i) == 1 {
        var v := LoadStore.Loaded(ReadWord(s.mem, Slot(start, list, i)), value);
        LoadLoopLoads(WriteReg(s, i, v), list, i + 1, start, v);
      } else {
        LoadLoopLoads(s, list, i + 1, start, value);
      }
    }
  }

  lemma FirstSlot(start: Word, list: Half)
    ensures Slot(start, list, 0) == start
  {
  }

  /** For every list and mode the loop ends where the address formula says: the final check never
      fires. */
  lemma FinalCheckNeverFires(s: State, b: Block, stale: Word)
    requires b.rn < 16
    ensures Transfer(s, b, stale).1 == 0
  {
    hide ReadReg, ReadWord, InitAddresses, Count, StoreLoop, LoadLoop, Wrap, ArmWriteback, Bit, AndW;
    var base := ReadReg(s, b.rn);
    var start := InitAddresses(base, b.mode, b.list).0;
    var s1 := if b.writeback then WriteReg(s, b.rn, ArmWriteback(base, b.mode, Count(b.list, 15))) else s;
    EndOfRange(base, b.mode, b.list);
    WrapSum(start + 4 * Count(b.list, 15), -4);
    FirstSlot(start, b.list);
    StoreLoopFrame(s1, b.list, 0, start);
    LoadLoopLoads(s1, b.list, 0, start, stale);
  }

  /** r15 is loaded last, from the word after the others, with bit 0 cleared. */
  lemma LoadedPc(s: State, b: Block, stale: Word)
    requires b.rn < 16 && b.load && Bit(b.list, 15) == 1
    requires ReadWord(s.mem, Slot(InitAddresses(ReadReg(s, b.rn), b.mode, b.list).0, b.list, 15)).Some?
    ensures var v := ReadWord(s.mem, Slot(InitAddresses(ReadReg(s, b.rn), b.mode, b.list).0, b.list, 15)).value;
            Transfer(s, b, stale).0.regs[15] == v - v % 2
  {
    hide ReadReg, ReadWord, InitAddresses, Count, LoadLoop, And, Slot;
    var base := ReadReg(s, b.rn);
    var start := InitAddresses(base, b.mode, b.list).0;
    var s1 := if b.writeback then WriteReg(s, b.rn, ArmWriteback(base, b.mode, Count(b.list, 15))) else s;
    FirstSlot(start, b.list);
    LoadLoopLoads(s1, b.list, 0, start, stale);
    var (s2, address, value) := LoadLoop(s1, b.list, 0, start, stale);
    assert s2.mem == s.mem && address == Slot(start, b.list, 15);
    var v := ReadWord(s.mem, address).value;
    ClearBitZero(v);
    assert AndW(v, 0xFFFF_FFFE) == v - v % 2;
  }

  /** A transfer keeps the status register, the memory's size and its byte order. */
  lemma TransferKeeps(s: State, b: Block, stale: Word)
    requires b.rn < 16
    ensures var s' := Transfer(s, b, stale).0; s'.cpsr == s.cpsr && LoadStore.SameShape(s, s')
  {
    hide ReadReg, ReadWord, InitAddresses, Count, StoreLoop, LoadLoop;
    var base := ReadReg(s, b.rn);
    var start := InitAddresses(base, b.mode, b.list).0;
    var s1 := if b.writeback then WriteReg(s, b.rn, ArmWriteback(base, b.mode, Count(b.list, 15))) else s;
    FirstSlot(start, b.list);
    StoreLoopFrame(s1, b.list, 0, start);
    LoadLoopLoads(s1, b.list, 0, start, stale);
  }

  // ----- the manual's instruction -----

  /** The manual's LDM or STM: r15 is counted, and stored like the others; a store writes the base back
      after storing it. */
  function ArmMultiple(s: State, b: Block, stale: Word): State
    requires b.rn < 16
  {
    var base, n := ReadReg(s, b.rn), Count(b.list, 16);
    var start := ArmStart(base, b.mode, n);
    if b.load then
      var s1 := if b.writeback then WriteReg(s, b.rn, ArmWriteback(base, b.mode, n)) else s;
      var (s2, address, value) := LoadLoop(s1, b.list, 0, start, stale);
      if Bit(b.list, 15) == 1 then
        WriteReg(s2, 15, AndW(LoadStore.Loaded(ReadWord(s2.mem, address), value), 0xFFFF_FFFE))
      else s2
    else
      var (s1, address) := StoreLoop(s, b.list, 0, start);
      var s2 := if Bit(b.list, 15) == 1 then s1.(mem := WriteWord(s1.mem, address, ReadReg(s, 15))) else s1;
      if b.writeback then WriteReg(s2, b.rn, ArmWriteback(base, b.mode, n)) else s2
  }

  lemma ArmMultipleKeeps(s: State, b: Block, stale: Word)
    requires b.rn < 16
    ensures var s' := ArmMultiple(s, b, stale); s'.cpsr == s.cpsr && LoadStore.SameShape(s, s')
  {
    hide ReadReg, ReadWord, WriteWord, ArmStart, ArmWriteback, Count, StoreLoop, LoadLoop, AndW;
    var base, n := ReadReg(s, b.rn), Count(b.list, 16);
    var start := ArmStart(base, b.mode, n);
    var s1 := if b.writeback then WriteReg(s, b.rn, ArmWriteback(base, b.mode, n)) else s;
    FirstSlot(start, b.list);
    StoreLoopFrame(s, b.list, 0, start);
    LoadLoopLoads(s1, b.list, 0, start, stale);
  }

  /** The store loop reads listed registers only. */
  lemma {:induction false} StoreLoopIgnores(s: State, list: Half, i: nat, address: Word, r: nat, v: Word)
    requires i <= 15 && r < 15 && Bit(list, r) == 0
    ensures StoreLoop(WriteReg(s, r, v), list, i, address).0 == WriteReg(StoreLoop(s, list, i, address).0, r, v)
    ensures StoreLoop(WriteReg(s, r, v), list, i, address).1 == StoreLoop(s, list, i, address).1
    decreases 15 - i
  {
    hide Bit, WriteWord, Wrap;
    if i < 15 {
      if Bit(list, i) == 1 {
        var m := WriteWord(s.mem, address, ReadReg(s, i));
        assert WriteReg(s, r, v).(mem := m) == WriteReg(s.(mem := m), r, v);
        StoreLoopIgnores(s.(mem := m), list, i + 1, Wrap(address + 4), r, v);
      } else {
        StoreLoopIgnores(s, list, i + 1, address, r, v);
      }
    }
  }

  lemma SameStart(base: Word, mode: Mode, list: Half)
    ensures Count(list, 16) == Count(list, 15) + Bit(list, 15)
    ensures Bit(list, 15) == 0 || mode % 2 == 1 ==>
              InitAddresses(base, mode, list).0 == ArmStart(base, mode, Count(list, 16))
  {
    hide Bit, Count, InitAddresses, ArmStart, Listed;
    CountLast(list, 15);
    CountIsCardinality(list, 16);
    InitAddressesIff(base, mode, list);
  }

  /** Nor does it matter what a register holds whose slot is refused. */
  lemma {:induction false} StoreLoopRefused(s: State, list: Half, i: nat, start: Word, r: nat, v: Word)
    requires i <= 15 && r < 15 && !Accepts(s.mem, Slot(start, list, r), 4)
    ensures StoreLoop(WriteReg(s, r, v), list, i, Slot(start, list, i)).0
         == WriteReg(StoreLoop(s, list, i, Slot(start, list, i)).0, r, v)
    decreases 15 - i
  {
    hide Bit, WriteWord, Accepts, Slot;
    NextSlot(start, list, i);
    if i < 15 {
      if Bit(list, i) == 1 {
        var a := Slot(start, list, i);
        var m, m' := WriteWord(s.mem, a, ReadReg(s, i)), WriteWord(s.mem, a, ReadReg(WriteReg(s, r, v), i));
        if i == r { RefusedWrite(s.mem, a); }
        assert m == m';
        AcceptsSame(s.mem, m, Slot(start, list, r));
        assert WriteReg(s, r, v).(mem := m) == WriteReg(s.(mem := m), r, v);
        StoreLoopRefused(s.(mem := m), list, i + 1, start, r, v);
      } else {
        StoreLoopRefused(s, list, i + 1, start, r, v);
      }
    }
  }

  lemma RefusedWrite(m: Mem, a: Word)
    requires !Accepts(m, a, 4)
    ensures forall v: Word :: WriteWord(m, a, v) == m
  {
  }

  /** Where its slot is accepted, it does. */
  lemma StoreLoopDiffers(s: State, list: Half, start: Word, r: nat, v: Word)
    requires r < 15 && Bit(list, r) == 1 && v != s.regs[r] && Accepts(s.mem, Slot(start, list, r), 4)
    ensures StoreLoop(WriteReg(s, r, v), list, 0, Slot(start, list, 0)).0.mem
         != StoreLoop(s, list, 0, Slot(start, list, 0)).0.mem
  {
    hide StoreLoop, Slot, Accepts, ReadWord;
    StoreLoopStores(s, list, 0, start, r);
    StoreLoopStores(WriteReg(s, r, v), list, 0, start, r);
  }

  /** With the operands repaired, and r15 not listed, the transfer built on the source's count and addresses
      is the manual's exactly unless it is a store that writes back a base it also stores: it then stores the
      new base instead of the old one, where that slot is not refused. */
  lemma TransferIsArmMultipleIff(s: State, b: Block, stale: Word)
    requires b.rn < 15 && Bit(b.list, 15) == 0
    ensures Transfer(s, b, stale) == (ArmMultiple(s, b, stale), 0)
       <==> || b.load || !b.writeback || Bit(b.list, b.rn) == 0
            || !Accepts(s.mem, Slot(ArmStart(s.regs[b.rn], b.mode, Count(b.list, 16)), b.list, b.rn), 4)
  {
    hide Bit, Count, ReadWord, WriteWord, AndW, Wrap, ArmWriteback, InitAddresses, ArmStart, StoreLoop, LoadLoop, Slot,
      Accepts;
    FinalCheckNeverFires(s, b, stale);
    SameStart(ReadReg(s, b.rn), b.mode, b.list);
    if !b.load && b.writeback { StoreIsArmMultipleIff(s, b, stale); }
  }

  lemma StoreIsArmMultipleIff(s: State, b: Block, stale: Word)
    requires b.rn < 15 && Bit(b.list, 15) == 0 && !b.load && b.writeback
    ensures Transfer(s, b, stale).0 == ArmMultiple(s, b, stale)
       <==> || Bit(b.list, b.rn) == 0
            || !Accepts(s.mem, Slot(ArmStart(s.regs[b.rn], b.mode, Count(b.list, 16)), b.list, b.rn), 4)
  {
    hide Bit, Count, WriteWord, Wrap, ArmWriteback, InitAddresses, ArmStart, StoreLoop, LoadLoop, Slot, Accepts;
    var base := s.regs[b.rn];
    var start, moved := ArmStart(base, b.mode, Count(b.list, 16)), ArmWriteback(base, b.mode, Count(b.list, 16));
    SameStart(base, b.mode, b.list);
    FirstSlot(start, b.list);
    assert Transfer(s, b, stale).0 == StoreLoop(WriteReg(s, b.rn, moved), b.list, 0, start).0;
    assert ArmMultiple(s, b, stale) == WriteReg(StoreLoop(s, b.list, 0, start).0, b.rn, moved);
    if Bit(b.list, b.rn) == 0 {
      StoreLoopIgnores(s, b.list, 0, start, b.rn, moved);
    } else if Accepts(s.mem, Slot(start, b.list, b.rn), 4) {
      CountedWhenListed(b.list, b.rn);
      WritebackMoves(base, b.mode, b.list);
      StoreLoopDiffers(s, b.list, start, b.rn, moved);
    } else {
      StoreLoopRefused(s, b.list, 0, start, b.rn, moved);
    }
  }

  lemma CountedWhenListed(list: Half, r: nat)
    requires r < 15 && Bit(list, r) == 1
    ensures Count(list, 15) > 0
  {
    CountLast(list, r);
    CountMono(list, r + 1, 15);
  }

  /** Also right is a load of r15 that counts up and leaves the base alone. */
  lemma UpwardLoadIsArmMultiple(s: State, b: Block, stale: Word)
    requires b.rn < 15 && b.load && b.mode % 2 == 1 && !b.writeback
    ensures Transfer(s, b, stale) == (ArmMultiple(s, b, stale), 0)
  {
    hide Bit, Count, ReadWord, WriteWord, AndW, Wrap, ArmWriteback, InitAddresses, ArmStart, StoreLoop, LoadLoop;
    FinalCheckNeverFires(s, b, stale);
    SameStart(ReadReg(s, b.rn), b.mode, b.list);
  }

  lemma OneRegisterMore(base: Word, mode: Mode, n: nat, k: nat)
    requires n <= k <= n + 1
    ensures ArmWriteback(base, mode, n) == ArmWriteback(base, mode, k) <==> k == n
  {
    hide Wrap;
    WrapMoves(base + 4 * n, 4 * (k - n));
    WrapMoves(base - 4 * n, -4 * (k - n));
  }

  lemma BaseOfTransfer(s: State, b: Block, stale: Word)
    requires b.rn < 15 && b.writeback && (b.load ==> Bit(b.list, b.rn) == 0)
    ensures Transfer(s, b, stale).0.regs[b.rn] == ArmWriteback(s.regs[b.rn], b.mode, Count(b.list, 15))
  {
    hide Count, ReadWord, AndW, ArmWriteback, InitAddresses, StoreLoop, LoadLoop, Wrap;
    var start := InitAddresses(s.regs[b.rn], b.mode, b.list).0;
    var s1 := WriteReg(s, b.rn, ArmWriteback(s.regs[b.rn], b.mode, Count(b.list, 15)));
    FirstSlot(start, b.list);
    StoreLoopFrame(s1, b.list, 0, start);
    LoadLoopLoads(s1, b.list, 0, start, stale);
    if b.load {
      var (s2, _, _) := LoadLoop(s1, b.list, 0, start, stale);
      assert s2.regs[b.rn] == s1.regs[b.rn];
    }
  }

  lemma BaseOfArmMultiple(s: State, b: Block, stale: Word)
    requires b.rn < 15 && b.writeback && (b.load ==> Bit(b.list, b.rn) == 0)
    ensures ArmMultiple(s, b, stale).regs[b.rn] == ArmWriteback(s.regs[b.rn], b.mode, Count(b.list, 16))
  {
    hide Count, ReadWord, WriteWord, AndW, ArmWriteback, ArmStart, StoreLoop, LoadLoop, Wrap;
    var start := ArmStart(s.regs[b.rn], b.mode, Count(b.list, 16));
    var s1 := WriteReg(s, b.rn, ArmWriteback(s.regs[b.rn], b.mode, Count(b.list, 16)));
    FirstSlot(start, b.list);
    LoadLoopLoads(s1, b.list, 0, start, stale);
    if b.load {
      var (s2, _, _) := LoadLoop(s1, b.list, 0, start, stale);
      assert s2.regs[b.rn] == s1.regs[b.rn];
    } else {
      var (s2, address) := StoreLoop(s, b.list, 0, start);
      var s3 := if Bit(b.list, 15) == 1 then s2.(mem := WriteWord(s2.mem, address, ReadReg(s, 15))) else s2;
      assert ArmMultiple(s, b, stale) == WriteReg(s3, b.rn, ArmWriteback(s.regs[b.rn], b.mode, Count(b.list, 16)));
    }
  }

  /** The base written back from the source's count is the manual's exactly when r15 is not listed. */
  lemma WrittenBackIff(s: State, b: Block, stale: Word)
    requires b.rn < 15 && b.writeback && (b.load ==> Bit(b.list, b.rn) == 0)
    ensures Transfer(s, b, stale).0.regs[b.rn] == ArmMultiple(s, b, stale).regs[b.rn] <==> Bit(b.list, 15) == 0
  {
    hide Transfer, ArmMultiple, Bit, Count, ArmWriteback;
    BaseOfTransfer(s, b, stale);
    BaseOfArmMultiple(s, b, stale);
    CountLast(b.list, 15);
    OneRegisterMore(s.regs[b.rn], b.mode, Count(b.list, 15), Count(b.list, 16));
  }

  // ----- stack discipline -----

  predicate Savable(list: Half, rn: nat) {
    rn < 15 && Bit(list, rn) == 0 && Bit(list, 15) == 0
  }

  function Push(s: State, mode: Mode, rn: nat, list: Half): State
    requires rn < 16
  {
    Transfer(s, Block(false, true, mode, rn, list), 0).0
  }

  function Pop(s: State, mode: Mode, rn: nat, list: Half, stale: Word): State
    requires rn < 16
  {
    Transfer(s, Block(true, true, 3 - mode, rn, list), stale).0
  }

  function Frame(s: State, mode: Mode, rn: nat, list: Half): Word
    requires rn < 16
  {
    InitAddresses(s.regs[rn], mode, list).0
  }

  /** State t still holds, in the frame that s pushed, the registers of s. */
  predicate SavedIn(t: State, s: State, mode: Mode, rn: nat, list: Half)
    requires rn < 16
  {
    forall j: nat :: j < 15 && Bit(list, j) == 1 ==>
      ReadWord(t.mem, Slot(Frame(s, mode, rn, list), list, j)) == Some(s.regs[j])
  }

  /** What a push does. */
  lemma PushEffect(s: State, mode: Mode, rn: nat, list: Half)
    requires Savable(list, rn) && SlotsAccepted(s.mem, Frame(s, mode, rn, list), list)
    ensures var s' := Push(s, mode, rn, list);
            var start := Frame(s, mode, rn, list);
            && s'.regs == s.regs[rn := ArmWriteback(s.regs[rn], mode, Count(list, 15))]
            && s'.cpsr == s.cpsr && LoadStore.SameShape(s, s')
            && SavedIn(s', s, mode, rn, list)
            && (forall x :: 0 <= x < |s.mem.bytes| && !Covered(start, list, 0, x) ==> s'.mem.bytes[x] == s.mem.bytes[x])
  {
    hide ReadWord, Count, StoreLoop, Slot, ArmWriteback, InitAddresses;
    var start := Frame(s, mode, rn, list);
    var s1 := WriteReg(s, rn, ArmWriteback(s.regs[rn], mode, Count(list, 15)));
    FirstSlot(start, list);
    StoreLoopFrame(s1, list, 0, start);
    forall j: nat | j < 15 && Bit(list, j) == 1
      ensures ReadWord(Push(s, mode, rn, list).mem, Slot(start, list, j)) == Some(s.regs[j])
    {
      StoreLoopStores(s1, list, 0, start, j);
    }
  }

  /** STM with writeback in mode m, then LDM with writeback in mode 3 - m from any state t that kept
      the base and the pushed words: every listed register and the base come back, and nothing else
      changes. */
  lemma PopUndoesPush(s: State, t: State, mode: Mode, rn: nat, list: Half, stale: Word)
    requires Savable(list, rn) && SlotsAccepted(s.mem, Frame(s, mode, rn, list), list)
    requires t.regs[rn] == Push(s, mode, rn, list).regs[rn]
    requires SavedIn(t, s, mode, rn, list)
    ensures var t' := Pop(t, mode, rn, list, stale);
            && (forall j :: 0 <= j < 16 ==>
                  t'.regs[j] == if j == rn || (j < 15 && Bit(list, j) == 1) then s.regs[j] else t.regs[j])
            && t'.mem == t.mem && t'.cpsr == t.cpsr
  {
    hide ReadWord, Count, LoadLoop, StoreLoop, Slot, ArmWriteback, InitAddresses, Push;
    PushEffect(s, mode, rn, list);
    ModesInvert(s.regs[rn], mode, list);
    var start := Frame(s, mode, rn, list);
    var t1 := WriteReg(t, rn, s.regs[rn]);
    FirstSlot(start, list);
    LoadLoopLoads(t1, list, 0, start, stale);
  }

  /** In particular, back to back: the registers and flags of s, and its memory outside the pushed words. */
  lemma PushThenPop(s: State, mode: Mode, rn: nat, list: Half, stale: Word)
    requires Savable(list, rn) && SlotsAccepted(s.mem, Frame(s, mode, rn, list), list)
    ensures var s' := Pop(Push(s, mode, rn, list), mode, rn, list, stale);
            && s'.regs == s.regs && s'.cpsr == s.cpsr
            && LoadStore.SameShape(s, s')
            && (forall x :: 0 <= x < |s.mem.bytes| && !Covered(Frame(s, mode, rn, list), list, 0, x) ==>
                  s'.mem.bytes[x] == s.mem.bytes[x])
  {
    hide Push, Pop, Covered, ReadWord, Slot;
    PushEffect(s, mode, rn, list);
    PopUndoesPush(s, Push(s, mode, rn, list), mode, rn, list, stale);
  }

  // ----- the instruction as decoded by the source -----

  /** `(uint8_t)(ins & 65536)` */
  function CodeDecodedList(ins: Word): Half {
    And(ins, 0x1_0000) % 0x100
  }

  /** The source's list is always empty, so its loops transfer nothing; what it takes for writeback
      overwrites a local. What is left is the address range and the final check. */
  function CodeMultiple(s: State, ins: Word): (State, int) {
    var mode: Mode := And(ins / 0x80_0000, 2);
    var (start, end) := InitAddresses(ReadReg(s, (ins / 0x1_0000) % 16), mode, CodeDecodedList(ins));
    (s, if end != Wrap(start - 4) then 1 else 0)
  }

  lemma AndMultiple(x: nat, m: nat)
    ensures And(x, 0x100 * m) % 0x100 == 0
  {
    hide And;
    var x4 := x / 2 / 2;
    var x16 := x4 / 2 / 2;
    var x64 := x16 / 2 / 2;
    AndFourTimes(x, 0x40 * m);
    AndFourTimes(x4, 0x10 * m);
    AndFourTimes(x16, 4 * m);
    AndFourTimes(x64, m);
    assert And(x, 0x100 * m) == 0x100 * And(x64 / 2 / 2, m);
    WholeBytes(And(x64 / 2 / 2, m));
  }

  lemma WholeBytes(k: nat)
    ensures (0x100 * k) % 0x100 == 0
  {
    DivUnique(0x100 * k, 0x100, k, 0);
  }

  lemma AndFourTimes(x: nat, m: nat)
    ensures And(x, 4 * m) == 4 * And(x / 2 / 2, m)
  {
    hide And;
    AndEven(x, 2 * m);
    AndEven(x / 2, m);
  }

  lemma CodeMultipleDoesNothing(s: State, ins: Word)
    ensures CodeDecodedList(ins) == 0
    ensures CodeMultiple(s, ins) == (s, 0)
  {
    hide And, InitAddresses, ReadReg;
    AndMultiple(ins, 0x100);
    var mode: Mode := And(ins / 0x80_0000, 2);
    var base := ReadReg(s, (ins / 0x1_0000) % 16);
    EndOfRange(base, mode, 0);
    CountMono(0, 0, 15);
    EmptyCount(15);
  }

  lemma {:induction false} EmptyCount(n: nat)
    ensures Count(0, n) == 0
  {
    if n > 0 { EmptyCount(n - 1); }
  }

  lemma {:induction false} CountZero(list: nat, n: nat)
    requires list < Pow2(n) && Count(list, n) == 0
    ensures list == 0
  {
    if n > 0 { CountZero(list / 2, n - 1); }
  }

  /** So a push or a pop is executed as meant exactly when it lists nothing. */
  lemma CodeAgreesIff(s: State, ins: Word, stale: Word)
    requires Decode(ins).writeback && Savable(Decode(ins).list, Decode(ins).rn)
    ensures CodeMultiple(s, ins) == Transfer(s, Decode(ins), stale) <==> Decode(ins).list == 0
  {
    hide CodeMultiple, Transfer;
    CodeMultipleDoesNothing(s, ins);
    IdleTransferIff(s, Decode(ins), stale);
  }

  lemma IdleTransferIff(s: State, b: Block, stale: Word)
    requires b.writeback && Savable(b.list, b.rn)
    ensures Transfer(s, b, stale) == (s, 0) <==> b.list == 0
  {
    FinalCheckNeverFires(s, b, stale);
    BaseOfTransfer(s, b, stale);
    WritebackMoves(s.regs[b.rn], b.mode, b.list);
    if b.list == 0 {
      EmptyTransfer(s, b, stale);
    } else if Count(b.list, 15) == 0 {
      CountLast(b.list, 15);
      Pow2Values();
      CountZero(b.list, 16);
    }
  }

  lemma EmptyTransfer(s: State, b: Block, stale: Word)
    requires b.list == 0 && b.writeback && Savable(0, b.rn)
    ensures Transfer(s, b, stale).0 == s
  {
    hide ReadWord, InitAddresses, Count, StoreLoop, LoadLoop, ArmWriteback, AndW, Wrap;
    EmptyCount(15);
    WritebackMoves(s.regs[b.rn], b.mode, 0);
    var start := InitAddresses(s.regs[b.rn], b.mode, 0).0;
    EmptyLoops(s, start, stale);
    assert WriteReg(s, b.rn, s.regs[b.rn]) == s;
  }

  lemma WritebackMoves(base: Word, mode: Mode, list: Half)
    ensures ArmWriteback(base, mode, Count(list, 15)) == base <==> Count(list, 15) == 0
  {
    hide Count, Wrap;
    var n: int := Count(list, 15);
    NoCount(list);
    CountMono(list, 0, 15);
    WrapWord(base);
    WrapMoves(base, 4 * n);
    WrapMoves(base, -4 * n);
  }

  lemma NoCount(list: nat)
    ensures Count(list, 0) == 0
  {
  }

  lemma EmptyLoops(s: State, a: Word, v: Word)
    ensures StoreLoop(s, 0, 0, a).0 == s && LoadLoop(s, 0, 0, a, v).0 == s
  {
    StoreNothing(s, 0, a);
    LoadNothing(s, 0, a, v);
  }

  lemma {:induction false} StoreNothing(s: State, i: nat, a: Word)
    requires i <= 15
    ensures StoreLoop(s, 0, i, a).0 == s
    decreases 15 - i
  {
    if i < 15 { BitZero(i); StoreNothing(s, i + 1, a); }
  }

  lemma {:induction false} LoadNothing(s: State, i: nat, a: Word, v: Word)
    requires i <= 15
    ensures LoadLoop(s, 0, i, a, v).0 == s
    decreases 15 - i
  {
    if i < 15 { BitZero(i); LoadNothing(s, i + 1, a, v); }
  }
}
