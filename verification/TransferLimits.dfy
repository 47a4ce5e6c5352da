/**
The single transfers of the source as whole instructions: their round trips, and exactly when they
are the manual's, told from the instruction and from the registers and memory it starts with.
 */
module TransferLimits {
  import opened Words
  import opened Memory
  import opened Registers
  import opened LoadStore

  // ----- round trips of the source -----

  function CodeWidth(ins: Word): nat {
    if BBit(ins) == 1 then 1 else 4
  }

  /** `temp` of `arm_load_store`, and the address of `arm_load_store_h`. */
  function CodeAddress(s: State, ins: Word): Word {
    Moved(ReadReg(s, Rn(ins)), UBit(ins), CodeOffset(s, ins))
  }

  function HalfAddress(s: State, ins: Word): Word {
    Moved(ReadReg(s, Rn(ins)), UBit(ins), HalfOffset(s, ins))
  }

  /** A word loaded into r15 loses bit 0. */
  function Landed(ins: Word, n: nat, v: Word): Word {
    if n == 4 && Rd(ins) == 15 then AndW(v, 0xFFFF_FFFE) else v
  }

  /** A store, then a load of the same width at the same address, in any state with that memory and
      whatever the two forms of offset: because every load writes its address into Rn last, the stored
      value is in Rd exactly when Rd is not Rn, or it happens to be that address. */
  lemma CodeStoreThenLoad(s: State, store: Word, t: State, load: Word, stale: Word)
    requires LBit(store) == 0 && LBit(load) == 1 && CodeWidth(load) == CodeWidth(store)
    requires Accepts(s.mem, CodeAddress(s, store), CodeWidth(store))
    requires t.mem == LoadStore.LoadStore(s, store, stale).mem
    requires CodeAddress(t, load) == CodeAddress(s, store)
    ensures var n, a := CodeWidth(store), CodeAddress(s, store);
            var v := Landed(load, n, ReadReg(s, Rd(store)) % Pow256(n));
            var t' := LoadStore.LoadStore(t, load, stale);
            && (t'.regs[Rd(load)] == v <==> Rd(load) != Rn(load) || v == a)
            && t'.regs[Rn(load)] == a
            && t'.mem == t.mem
            && (forall x :: 0 <= x < |s.mem.bytes| && !(a <= x < a + n) ==> t.mem.bytes[x] == s.mem.bytes[x])
  {
    hide ReadReg, CodeOffset, Moved, ReadByte, ReadWord, WriteByte, WriteWord, Accepts, AndW;
    WriteThenRead(s.mem, CodeAddress(s, store), CodeWidth(store), ReadReg(s, Rd(store)));
    Pow256Values();
  }

  /** The same for half-words, whose loads write the address back only when asked to. */
  lemma HalfStoreThenLoad(s: State, store: Word, t: State, load: Word, stale: Word)
    requires LBit(store) == 0 && LBit(load) == 1
    requires Accepts(s.mem, HalfAddress(s, store), 2)
    requires t.mem == LoadStoreHalf(s, store, stale).mem
    requires HalfAddress(t, load) == HalfAddress(s, store)
    ensures var v, a := ReadReg(s, Rd(store)) % 0x1_0000, HalfAddress(s, store);
            var t' := LoadStoreHalf(t, load, stale);
            && (t'.regs[Rd(load)] == v <==> (Writeback(load) ==> Rd(load) != Rn(load)) || v == a)
            && t'.mem == t.mem
            && (forall x :: 0 <= x < |s.mem.bytes| && !(a <= x < a + 2) ==> t.mem.bytes[x] == s.mem.bytes[x])
  {
    hide ReadReg, HalfOffset, Moved, ReadHalf, WriteHalf, Accepts;
    WriteThenRead(s.mem, HalfAddress(s, store), 2, ReadReg(s, Rd(store)));
    Pow256Values();
  }

  /** The source writes the base back after every load, and after a store with an immediate offset
      that asks for it. */
  predicate CodeWritesBack(ins: Word) {
    LBit(ins) == 1 || (IBit(ins) == 0 && Writeback(ins))
  }

  /** A transfer up and then one down by the same offset restore the base, modulo 2^32, exactly when
      both write it back, or neither does, or the offset is zero. */
  lemma CodePair(s: State, up: Word, down: Word, stale: Word)
    requires UBit(up) == 1 && UBit(down) == 0 && Rn(up) == Rn(down) != 15
    requires CodeOffset(LoadStore.LoadStore(s, up, stale), down) == CodeOffset(s, up)
    ensures LoadStore.LoadStore(LoadStore.LoadStore(s, up, stale), down, stale).regs[Rn(up)] == s.regs[Rn(up)]
       <==> CodeWritesBack(up) == CodeWritesBack(down) || CodeOffset(s, up) == 0
  {
    hide CodeOffset, Moved, ReadByte, ReadWord, WriteByte, WriteWord, AndW, Writeback;
    var base, offset := s.regs[Rn(up)], CodeOffset(s, up);
    UpThenDown(base, offset);
    MovedIsBaseIff(base, 1, offset);
    MovedIsBaseIff(base, 0, offset);
    CodeBaseAfter(s, up, stale);
    CodeBaseAfter(LoadStore.LoadStore(s, up, stale), down, stale);
  }

  lemma CodeBaseAfter(s: State, ins: Word, stale: Word)
    requires Rn(ins) != 15
    ensures LoadStore.LoadStore(s, ins, stale).regs[Rn(ins)]
         == if CodeWritesBack(ins) then Moved(s.regs[Rn(ins)], UBit(ins), CodeOffset(s, ins)) else s.regs[Rn(ins)]
  {
    hide CodeOffset, Moved, ReadByte, ReadWord, WriteByte, WriteWord, AndW;
  }

  /** The same for half-words, where both directions obey the writeback bits. */
  lemma HalfPair(s: State, up: Word, down: Word, stale: Word)
    requires UBit(up) == 1 && UBit(down) == 0 && Rn(up) == Rn(down) != 15
    requires LBit(up) == 1 && !Writeback(up) ==> Rd(up) != Rn(up)
    requires LBit(down) == 1 && !Writeback(down) ==> Rd(down) != Rn(down)
    requires HalfOffset(LoadStoreHalf(s, up, stale), down) == HalfOffset(s, up)
    ensures LoadStoreHalf(LoadStoreHalf(s, up, stale), down, stale).regs[Rn(up)] == s.regs[Rn(up)]
       <==> Writeback(up) == Writeback(down) || HalfOffset(s, up) == 0
  {
    hide HalfOffset, Moved, ReadHalf, WriteHalf;
    var base, offset := s.regs[Rn(up)], HalfOffset(s, up);
    UpThenDown(base, offset);
    MovedIsBaseIff(base, 1, offset);
    MovedIsBaseIff(base, 0, offset);
    HalfBaseAfter(s, up, stale);
    HalfBaseAfter(LoadStoreHalf(s, up, stale), down, stale);
  }

  lemma HalfBaseAfter(s: State, ins: Word, stale: Word)
    requires Rn(ins) != 15 && (LBit(ins) == 1 && !Writeback(ins) ==> Rd(ins) != Rn(ins))
    ensures LoadStoreHalf(s, ins, stale).regs[Rn(ins)]
         == if Writeback(ins) then Moved(s.regs[Rn(ins)], UBit(ins), HalfOffset(s, ins)) else s.regs[Rn(ins)]
  {
    hide HalfOffset, Moved, ReadHalf, WriteHalf;
  }

  // ----- one value stored at two addresses -----

  /** The access is refused, or would find the value there. */
  predicate Holds(m: Mem, a: Word, n: nat, v: Word)
    requires Width(n)
  {
    Read(m, a, n).None? || Read(m, a, n) == Some(v % Pow256(n))
  }

  /** The alignment test lets half-words start at an odd address, so two of them may overlap. */
  predicate Overlapping(m: Mem, a: Word, b: Word, n: nat) {
    n == 2 && Accepts(m, a, 2) && Accepts(m, b, 2) && (a == b + 1 || b == a + 1)
  }

  /** When storing v at a and storing it at b leave the same memory. */
  predicate SameStore(m: Mem, a: Word, b: Word, n: nat, v: Word)
    requires Width(n)
  {
    if Overlapping(m, a, b, n) then
      var low := if a < b then a else b;
      v % 0x100 == (v / 0x100) % 0x100 == m.bytes[low] == m.bytes[low + 2]
    else a == b || (Holds(m, a, n, v) && Holds(m, b, n, v))
  }

  /** A store that finds its value there, or is refused, changes nothing; any other does. */
  lemma HoldsIff(m: Mem, a: Word, n: nat, v: Word)
    requires Width(n)
    ensures Write(m, a, n, v) == m <==> Holds(m, a, n, v)
  {
    hide Read, Write, Accepts;
    ReadMeans(m, a, n);
    WriteMeans(m, a, n, v);
    if Accepts(m, a, n) {
      AcceptedStaysInWord(m, a, n);
      WriteThenRead(m, a, n, v);
      if Holds(m, a, n, v) { SameAssembly(m.big, m.bytes[a..a + n], v); }
    }
  }

  lemma SameAssembly(big: bool, bytes: seq<Byte>, v: nat)
    requires Assemble(big, bytes) == v % Pow256(|bytes|)
    ensures Layout(big, v, |bytes|) == bytes
  {
    var d := if big then Reverse(bytes) else bytes;
    DigitsOfNumber(d);
    LowDigits(v, |bytes|);
    ReverseTwice(bytes);
  }

  /** Overwriting two disjoint ranges gives the same exactly when neither changes anything. */
  lemma ApartOverwrites(s: seq<Byte>, a: nat, b: nat, bytes: seq<Byte>)
    requires a + |bytes| <= b && b + |bytes| <= |s|
    ensures Overwrite(s, a, bytes) == Overwrite(s, b, bytes)
       <==> Overwrite(s, a, bytes) == s && Overwrite(s, b, bytes) == s
  {
    var x, y := Overwrite(s, a, bytes), Overwrite(s, b, bytes);
    if x == y {
      forall i | 0 <= i < |s| ensures x[i] == s[i] {
        assert x[i] == y[i];
      }
    }
  }

  /** Where both are refused or touch different bytes, both must change nothing. */
  lemma ApartStoresIff(m: Mem, a: Word, b: Word, n: nat, v: Word)
    requires Width(n) && a != b && !Overlapping(m, a, b, n)
    ensures Write(m, a, n, v) == Write(m, b, n, v) <==> Write(m, a, n, v) == m && Write(m, b, n, v) == m
  {
    hide Write, Layout, Overwrite;
    WriteMeans(m, a, n, v);
    WriteMeans(m, b, n, v);
    if Accepts(m, a, n) && Accepts(m, b, n) {
      AcceptedStaysInWord(m, a, n);
      AcceptedStaysInWord(m, b, n);
      ApartOverwrites(m.bytes, if a < b then a else b, if a < b then b else a, Layout(m.big, v, n));
    }
  }

  lemma ShiftedOverwrites(s: seq<Byte>, a: nat, bytes: seq<Byte>)
    requires |bytes| == 2 && a + 3 <= |s|
    ensures Overwrite(s, a, bytes) == Overwrite(s, a + 1, bytes) <==> bytes[0] == bytes[1] == s[a] == s[a + 2]
  {
    var x, y := Overwrite(s, a, bytes), Overwrite(s, a + 1, bytes);
    if x == y {
      assert x[a] == y[a] && x[a + 1] == y[a + 1] && x[a + 2] == y[a + 2];
    }
  }

  lemma HalfBytes(big: bool, v: Word)
    ensures var bytes := Layout(big, v, 2);
            {bytes[0], bytes[1]} == {v % 0x100, (v / 0x100) % 0x100}
  {
    hide Layout;
    Pow256Values();
    LayoutByte(big, v, 2, 0);
    LayoutByte(big, v, 2, 1);
  }

  lemma OverlappingStoresIff(m: Mem, a: Word, v: Word)
    requires a + 1 < WORD && Overlapping(m, a + 1, a, 2)
    ensures Write(m, a, 2, v) == Write(m, a + 1, 2, v) <==> SameStore(m, a, a + 1, 2, v)
  {
    hide Write, Layout, Read, Overwrite, Accepts, Holds;
    WriteMeans(m, a, 2, v);
    WriteMeans(m, a + 1, 2, v);
    AcceptedStaysInWord(m, a + 1, 2);
    ShiftedOverwrites(m.bytes, a, Layout(m.big, v, 2));
    var x, y := v % 0x100, (v / 0x100) % 0x100;
    HalfBytes(m.big, v);
    assert x in {x, y} && y in {x, y};
  }

  lemma SameStoreIff(m: Mem, a: Word, b: Word, n: nat, v: Word)
    requires Width(n)
    ensures Write(m, a, n, v) == Write(m, b, n, v) <==> SameStore(m, a, b, n, v)
  {
    hide Write, Holds;
    if Overlapping(m, a, b, n) {
      if a < b { OverlappingStoresIff(m, a, v); } else { OverlappingStoresIff(m, b, v); }
    } else if a != b {
      ApartStoresIff(m, a, b, n, v);
      HoldsIff(m, a, n, v);
      HoldsIff(m, b, n, v);
    }
  }

  // ----- whole transfers compared -----

  /** What a load of n bytes at `a` puts in Rd. */
  function Received(s: State, ins: Word, n: nat, a: Word, stale: Word): Word
    requires Width(n)
  {
    Landed(ins, n, Loaded(Read(s.mem, a, n), Leftover(n, stale)))
  }

  /** A half-word load must find the same value at the moved base as at the manual's address, or, where
      Rd is written back, the moved base itself; a half-word store must leave the same memory. */
  predicate HalfRight(s: State, ins: Word, stale: Word) {
    var moved := HalfAddress(s, ins);
    var address := ArmAddress(PBit(ins), ReadReg(s, Rn(ins)), moved);
    if LBit(ins) == 0 then SameStore(s.mem, moved, address, 2, ReadReg(s, Rd(ins)))
    else if Writeback(ins) && Rd(ins) == Rn(ins) then Received(s, ins, 2, address, stale) == moved
    else Received(s, ins, 2, moved, stale) == Received(s, ins, 2, address, stale)
  }

  lemma HalfAgreesIff(s: State, ins: Word, stale: Word)
    ensures LoadStoreHalf(s, ins, stale) == ArmLoadStoreHalf(s, ins, stale) <==> HalfRight(s, ins, stale)
  {
    hide Moved, HalfOffset, ReadHalf, WriteHalf, ReadReg, SameStore, ArmAddress;
    var moved := HalfAddress(s, ins);
    var address := ArmAddress(PBit(ins), ReadReg(s, Rn(ins)), moved);
    SameStoreIff(s.mem, moved, address, 2, ReadReg(s, Rd(ins)));
    var code, arm := LoadStoreHalf(s, ins, stale), ArmLoadStoreHalf(s, ins, stale);
    assert LBit(ins) == 1 ==> code.regs[Rd(ins)] == arm.regs[Rd(ins)] ==> code.regs == arm.regs;
  }

  /** The base that the manual leaves when Rd is not loaded into it. */
  function ArmKept(s: State, ins: Word): Word {
    if Writeback(ins) then Moved(ReadReg(s, Rn(ins)), UBit(ins), ArmOffset(s, ins)) else s.regs[Rn(ins)]
  }

  /** For words and bytes the same two conditions, with the offsets of each; and the base the source
      leaves (its address after every load, and after an immediate store that writes back) must be the
      manual's. */
  predicate TransferRight(s: State, ins: Word, stale: Word) {
    var n, temp, base := CodeWidth(ins), CodeAddress(s, ins), ReadReg(s, Rn(ins));
    var address := ArmAddress(PBit(ins), base, Moved(base, UBit(ins), ArmOffset(s, ins)));
    if LBit(ins) == 0 then
      && SameStore(s.mem, temp, address, n, ReadReg(s, Rd(ins)))
      && (if CodeWritesBack(ins) then temp else s.regs[Rn(ins)]) == ArmKept(s, ins)
    else if Rd(ins) == Rn(ins) then Received(s, ins, n, address, stale) == temp
    else Received(s, ins, n, temp, stale) == Received(s, ins, n, address, stale) && temp == ArmKept(s, ins)
  }

  lemma StoreAgreesIff(s: State, ins: Word, stale: Word)
    requires LBit(ins) == 0
    ensures LoadStore.LoadStore(s, ins, stale) == ArmLoadStore(s, ins, stale) <==> TransferRight(s, ins, stale)
  {
    hide Moved, CodeOffset, ArmOffset, WriteByte, WriteWord, ReadReg, SameStore, ArmAddress;
    var n, temp, base := CodeWidth(ins), CodeAddress(s, ins), ReadReg(s, Rn(ins));
    var address := ArmAddress(PBit(ins), base, Moved(base, UBit(ins), ArmOffset(s, ins)));
    SameStoreIff(s.mem, temp, address, n, ReadReg(s, Rd(ins)));
    var code, arm := LoadStore.LoadStore(s, ins, stale), ArmLoadStore(s, ins, stale);
    assert code.regs[Rn(ins)] == arm.regs[Rn(ins)] ==> code.regs == arm.regs;
  }

  lemma LoadAgreesIff(s: State, ins: Word, stale: Word)
    requires LBit(ins) == 1
    ensures LoadStore.LoadStore(s, ins, stale) == ArmLoadStore(s, ins, stale) <==> TransferRight(s, ins, stale)
  {
    hide Moved, CodeOffset, ArmOffset, ReadByte, ReadWord, ReadReg, ArmAddress, AndW;
    var code, arm := LoadStore.LoadStore(s, ins, stale), ArmLoadStore(s, ins, stale);
    assert code.regs[Rn(ins)] == arm.regs[Rn(ins)] && code.regs[Rd(ins)] == arm.regs[Rd(ins)] ==> code.regs == arm.regs;
  }

  /** Every word and byte transfer of the source, offset, pre- and post-indexed, is the manual's exactly
      then. */
  lemma TransferAgreesIff(s: State, ins: Word, stale: Word)
    ensures LoadStore.LoadStore(s, ins, stale) == ArmLoadStore(s, ins, stale) <==> TransferRight(s, ins, stale)
  {
    if LBit(ins) == 0 { StoreAgreesIff(s, ins, stale); } else { LoadAgreesIff(s, ins, stale); }
  }

  /** Hence half-word transfers are right whenever P = 1 or the offset is zero, but for a load into a
      base that is written back. */
  lemma HalfAgrees(s: State, ins: Word, stale: Word)
    requires PBit(ins) == 1 || HalfOffset(s, ins) == 0
    requires LBit(ins) == 1 && Writeback(ins) ==> Rd(ins) != Rn(ins)
    ensures LoadStoreHalf(s, ins, stale) == ArmLoadStoreHalf(s, ins, stale)
  {
    hide Moved, HalfOffset, Received, LoadStoreHalf, ArmLoadStoreHalf, ReadReg, Writeback;
    HalfAgreesIff(s, ins, stale);
    CodeAddressIff(PBit(ins), ReadReg(s, Rn(ins)), UBit(ins), HalfOffset(s, ins));
  }

  /** Moving the base by an offset leaves the register as it is. */
  predicate BaseStays(s: State, ins: Word, offset: Word) {
    if Rn(ins) == 15 then Moved(ReadReg(s, 15), UBit(ins), offset) == s.regs[15] else offset == 0
  }

  lemma BaseStaysIff(s: State, ins: Word, offset: Word)
    ensures Moved(ReadReg(s, Rn(ins)), UBit(ins), offset) == s.regs[Rn(ins)] <==> BaseStays(s, ins, offset)
  {
    hide Moved;
    MovedIsBaseIff(s.regs[Rn(ins)], UBit(ins), offset);
  }

  lemma MovedSame(base: Word, u: Flag, x: Word, y: Word)
    ensures Moved(base, u, x) == Moved(base, u, y) <==> x == y
  {
    hide Wrap;
    WrapMoves(base + y, x - y);
    WrapMoves(base - y, y - x);
  }

  /** What is left in the base register, in every case: where a load puts its value there, the manual's must
      be the address of the source; where both write the base back, the offsets must agree; where one of them
      does, its offset must leave the base alone. Loads of the source always write back; its stores with a
      register offset never do. */
  lemma CodeWritebackIff(s: State, ins: Word, stale: Word)
    ensures LoadStore.LoadStore(s, ins, stale).regs[Rn(ins)] == ArmLoadStore(s, ins, stale).regs[Rn(ins)]
       <==> var base := ReadReg(s, Rn(ins));
            var address := ArmAddress(PBit(ins), base, Moved(base, UBit(ins), ArmOffset(s, ins)));
            if LBit(ins) == 1 && Rd(ins) == Rn(ins) then
              Received(s, ins, CodeWidth(ins), address, stale) == CodeAddress(s, ins)
            else if CodeWritesBack(ins) then
              if Writeback(ins) then CodeOffset(s, ins) == ArmOffset(s, ins) else BaseStays(s, ins, CodeOffset(s, ins))
            else Writeback(ins) ==> BaseStays(s, ins, ArmOffset(s, ins))
  {
    hide Moved, CodeOffset, ArmOffset, ReadByte, ReadWord, WriteByte, WriteWord, ReadReg, ArmAddress, AndW, Writeback,
      BaseStays;
    MovedSame(ReadReg(s, Rn(ins)), UBit(ins), CodeOffset(s, ins), ArmOffset(s, ins));
    BaseStaysIff(s, ins, CodeOffset(s, ins));
    BaseStaysIff(s, ins, ArmOffset(s, ins));
  }

  // ----- what a transfer leaves -----

  /** The half-word transfer of the source leaves these registers, and no other change. */
  predicate HalfLeaves(s: State, ins: Word, regs: RegisterFile, stale: Word) {
    var rd, rn, address, back := Rd(ins), Rn(ins), HalfAddress(s, ins), Writeback(ins);
    && KeepsOthers(s, regs, (if LBit(ins) == 1 then {rd} else {}) + (if back then {rn} else {}))
    && (if LBit(ins) == 0 then Holds(s.mem, address, 2, ReadReg(s, rd))
        else (back && rd == rn) || regs[rd] == Received(s, ins, 2, address, stale))
    && (back ==> regs[rn] == address)
  }

  lemma HalfLeavesIff(s: State, ins: Word, regs: RegisterFile, stale: Word)
    ensures LoadStoreHalf(s, ins, stale) == s.(regs := regs) <==> HalfLeaves(s, ins, regs, stale)
  {
    hide Moved, HalfOffset, ReadHalf, WriteHalf, ReadReg, Holds;
    HoldsIff(s.mem, HalfAddress(s, ins), 2, ReadReg(s, Rd(ins)));
    SameRegisters(LoadStoreHalf(s, ins, stale).regs, regs);
  }

  /** Register files are compared register by register. */
  lemma SameRegisters(x: RegisterFile, y: RegisterFile)
    ensures x == y <==> forall r: nat :: r < 16 ==> x[r] == y[r]
  {
  }

  /** The same for its word and byte transfers. */
  predicate WordLeaves(s: State, ins: Word, regs: RegisterFile, stale: Word) {
    var rd, rn, n, temp := Rd(ins), Rn(ins), CodeWidth(ins), CodeAddress(s, ins);
    if LBit(ins) == 0 then
      && KeepsOthers(s, regs, if CodeWritesBack(ins) then {rn} else {})
      && Holds(s.mem, temp, n, ReadReg(s, rd))
      && (CodeWritesBack(ins) ==> regs[rn] == temp)
    else
      && KeepsOthers(s, regs, {rd, rn})
      && (rd == rn || regs[rd] == Received(s, ins, n, temp, stale))
      && regs[rn] == temp
  }

  lemma WordLeavesIff(s: State, ins: Word, regs: RegisterFile, stale: Word)
    ensures LoadStore.LoadStore(s, ins, stale) == s.(regs := regs) <==> WordLeaves(s, ins, regs, stale)
  {
    hide Moved, CodeOffset, ReadByte, ReadWord, WriteByte, WriteWord, ReadReg, Holds, AndW;
    HoldsIff(s.mem, CodeAddress(s, ins), CodeWidth(ins), ReadReg(s, Rd(ins)));
    SameRegisters(LoadStore.LoadStore(s, ins, stale).regs, regs);
  }

  /** And for the manual's transfers of n bytes. */
  predicate ArmTransferLeaves(s: State, ins: Word, n: nat, offset: Word, regs: RegisterFile, stale: Word)
    requires Width(n)
  {
    var rd, rn, base, back := Rd(ins), Rn(ins), ReadReg(s, Rn(ins)), Writeback(ins);
    var moved := Moved(base, UBit(ins), offset);
    var address := ArmAddress(PBit(ins), base, moved);
    if LBit(ins) == 0 then
      && KeepsOthers(s, regs, if back then {rn} else {})
      && Holds(s.mem, address, n, ReadReg(s, rd))
      && (back ==> regs[rn] == moved)
    else
      && KeepsOthers(s, regs, if back then {rd, rn} else {rd})
      && regs[rd] == Received(s, ins, n, address, stale)
      && (back && rd != rn ==> regs[rn] == moved)
  }

  lemma ArmTransferLeavesIff(s: State, ins: Word, n: nat, offset: Word, regs: RegisterFile, stale: Word)
    requires Width(n)
    ensures ArmTransfer(s, ins, n, offset, stale) == s.(regs := regs)
       <==> ArmTransferLeaves(s, ins, n, offset, regs, stale)
  {
    hide Moved, ArmAddress, Read, Write, ReadReg, Holds, AndW, Leftover;
    var base := ReadReg(s, Rn(ins));
    HoldsIff(s.mem, ArmAddress(PBit(ins), base, Moved(base, UBit(ins), offset)), n, ReadReg(s, Rd(ins)));
    SameRegisters(ArmTransfer(s, ins, n, offset, stale).regs, regs);
  }
}
