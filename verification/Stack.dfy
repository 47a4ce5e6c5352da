/**
Well-nested use of a stack: procedures that push registers with one of the four addressing modes,
overwrite them, call other procedures, and pop what they pushed.
 */
module Stack {
  import opened Words
  import opened Memory
  import opened Registers
  import opened LoadStoreMultiple
  import LoadStore

  /** A sequence of calls. A call saves `list`, replaces the saved registers by those of `scratch`,
      makes the `inner` calls and returns; `stale` is the uninitialised local of its pop. */
  datatype Calls = Return | Call(list: Half, scratch: RegisterFile, stale: Word, inner: Calls, rest: Calls)

  predicate Disciplined(calls: Calls, rn: nat) {
    match calls
    case Return => rn < 15
    case Call(list, _, _, inner, rest) => Savable(list, rn) && Disciplined(inner, rn) && Disciplined(rest, rn)
  }

  /** The stack the calls need, in words. */
  function Depth(calls: Calls): nat {
    match calls
    case Return => 0
    case Call(list, _, _, inner, rest) =>
      var here := Count(list, 15) + Depth(inner);
      if here >= Depth(rest) then here else Depth(rest)
  }

  /** The body of a call may leave anything in the registers that were saved. */
  function Scratch(regs: RegisterFile, list: Half, scratch: RegisterFile): (r: RegisterFile)
    ensures forall i: nat :: i < 16 ==> r[i] == if i < 15 && Bit(list, i) == 1 then scratch[i] else regs[i]
  {
    seq(16, i requires 0 <= i < 16 => if i < 15 && Bit(list, i) == 1 then scratch[i] else regs[i])
  }

  function Execute(s: State, mode: Mode, rn: nat, calls: Calls): State
    requires rn < 16
    decreases calls
  {
    match calls
    case Return => s
    case Call(list, scratch, stale, inner, rest) =>
      var pushed := Push(s, mode, rn, list);
      var body := pushed.(regs := Scratch(pushed.regs, list, scratch));
      var back := Pop(Execute(body, mode, rn, inner), mode, rn, list, stale);
      Execute(back, mode, rn, rest)
  }

  /** The lowest byte of the d words next to be pushed at a base, and the first byte above them. */
  function Low(base: Word, mode: Mode, d: nat): int {
    if mode % 2 == 1 then base + 4 * (mode / 2) else base - 4 * d + 4 * (1 - mode / 2)
  }

  function High(base: Word, mode: Mode, d: nat): int {
    Low(base, mode, d) + 4 * d
  }

  /** There is room for d more words: the base stays a word and the bytes are in memory. */
  predicate Room(m: Mem, base: Word, mode: Mode, d: nat) {
    && base % 4 == 0
    && (if mode % 2 == 1 then base + 4 * d < WORD else 4 * d <= base)
    && (d > 0 ==> High(base, mode, d) <= 4 * m.Size())
  }

  lemma RoomShrinks(m: Mem, base: Word, mode: Mode, d: nat, d': nat)
    requires Room(m, base, mode, d) && d' <= d
    ensures Room(m, base, mode, d')
    ensures Low(base, mode, d) <= Low(base, mode, d') <= High(base, mode, d') <= High(base, mode, d)
  {
  }

  /** With room, the written-back base does not wrap around. */
  lemma BaseAfterPush(base: Word, mode: Mode, k: nat)
    requires if mode % 2 == 1 then base + 4 * k < WORD else 4 * k <= base
    ensures ArmWriteback(base, mode, k) == if mode % 2 == 1 then base + 4 * k else base - 4 * k
  {
    if mode % 2 == 1 { WrapWord(base + 4 * k); } else { WrapWord(base - 4 * k); }
  }

  lemma FrameStart(base: Word, mode: Mode, list: Half)
    ensures InitAddresses(base, mode, list).0 == Wrap(Low(base, mode, Count(list, 15)))
  {
    hide Count, Wrap;
    WrapWord(base);
  }

  /** Where the first k of the words go, and where the rest of the room lies after pushing them. */
  lemma FrameLayout(m: Mem, base: Word, mode: Mode, list: Half, d: nat)
    requires Room(m, base, mode, Count(list, 15) + d)
    ensures var k := Count(list, 15);
            var base' := ArmWriteback(base, mode, k);
            && InitAddresses(base, mode, list).0 == Wrap(Low(base, mode, k))
            && (k > 0 ==> 0 <= Low(base, mode, k) && High(base, mode, k) <= WORD && High(base, mode, k) <= 4 * m.Size())
            && Low(base, mode, k) % 4 == 0
            && Room(m, base', mode, d)
            && Low(base, mode, k + d) <= Low(base', mode, d) && High(base', mode, d) <= High(base, mode, k + d)
            && (High(base', mode, d) <= Low(base, mode, k) || High(base, mode, k) <= Low(base', mode, d))
  {
    hide Room, Low, High, Count, InitAddresses, ArmWriteback;
    var k := Count(list, 15);
    FrameStart(base, mode, list);
    FrameAfter(m, base, mode, k, d);
  }

  lemma FrameAfter(m: Mem, base: Word, mode: Mode, k: nat, d: nat)
    requires Room(m, base, mode, k + d)
    ensures var base' := ArmWriteback(base, mode, k);
            && (k > 0 ==> 0 <= Low(base, mode, k) && High(base, mode, k) <= WORD && High(base, mode, k) <= 4 * m.Size())
            && Low(base, mode, k) % 4 == 0
            && Room(m, base', mode, d)
            && Low(base, mode, k + d) <= Low(base', mode, d) && High(base', mode, d) <= High(base, mode, k + d)
            && (High(base', mode, d) <= Low(base, mode, k) || High(base, mode, k) <= Low(base', mode, d))
  {
    hide ArmWriteback;
    BaseAfterPush(base, mode, k);
    if mode % 2 == 1 {
      UpwardFrame(m, base, mode, k, d);
    } else {
      DownwardFrame(m, base, mode, k, d);
    }
  }

  lemma UpwardFrame(m: Mem, base: Word, mode: Mode, k: nat, d: nat)
    requires Room(m, base, mode, k + d) && mode % 2 == 1
    ensures (base + 4 * k) % 4 == 0 && base + 4 * k < WORD
    ensures Low(base, mode, k) % 4 == 0 && 0 <= Low(base, mode, k)
    ensures k > 0 ==> High(base, mode, k) <= 4 * m.Size() && High(base, mode, k) <= WORD
    ensures Room(m, base + 4 * k, mode, d)
    ensures Low(base, mode, k + d) <= Low(base + 4 * k, mode, d)
    ensures High(base + 4 * k, mode, d) == High(base, mode, k + d)
    ensures High(base, mode, k) == Low(base + 4 * k, mode, d)
  {
  }

  lemma DownwardFrame(m: Mem, base: Word, mode: Mode, k: nat, d: nat)
    requires Room(m, base, mode, k + d) && mode % 2 == 0
    ensures (base - 4 * k) % 4 == 0 && 0 <= base - 4 * k
    ensures Low(base, mode, k) % 4 == 0 && 0 <= Low(base, mode, k)
    ensures k > 0 ==> High(base, mode, k) <= 4 * m.Size() && High(base, mode, k) <= WORD
    ensures Room(m, base - 4 * k, mode, d)
    ensures Low(base, mode, k + d) == Low(base - 4 * k, mode, d)
    ensures High(base - 4 * k, mode, d) <= High(base, mode, k + d)
    ensures High(base - 4 * k, mode, d) == Low(base, mode, k)
  {
  }

  lemma CountBelow(list: Half, j: nat)
    requires j < 15 && Bit(list, j) == 1
    ensures Count(list, j) < Count(list, 15)
  {
    hide Count;
    CountLast(list, j);
    CountMono(list, j + 1, 15);
  }

  /** The slots of a frame that has room are accepted, and lie inside it. */
  lemma SlotInFrame(m: Mem, base: Word, mode: Mode, list: Half, d: nat, j: nat)
    requires Room(m, base, mode, Count(list, 15) + d)
    requires j < 15 && Bit(list, j) == 1
    ensures var slot := Slot(InitAddresses(base, mode, list).0, list, j);
            && Accepts(m, slot, 4)
            && Low(base, mode, Count(list, 15)) <= slot && slot + 4 <= High(base, mode, Count(list, 15))
  {
    hide Count, Low, Room, InitAddresses, Bit, Wrap;
    CountBelow(list, j);
    FrameLayout(m, base, mode, list, d);
    var slot := Low(base, mode, Count(list, 15)) + 4 * Count(list, j);
    WrapSum(Low(base, mode, Count(list, 15)), 4 * Count(list, j));
    WrapWord(slot);
  }

  lemma SlotsInFrame(m: Mem, base: Word, mode: Mode, list: Half, d: nat)
    requires Room(m, base, mode, Count(list, 15) + d)
    ensures SlotsAccepted(m, InitAddresses(base, mode, list).0, list)
    ensures forall x :: Covered(InitAddresses(base, mode, list).0, list, 0, x) ==>
              Low(base, mode, Count(list, 15)) <= x < High(base, mode, Count(list, 15))
  {
    hide Count, Low, High, Room, InitAddresses, Bit, Slot, Accepts;
    forall j: nat | j < 15 && Bit(list, j) == 1
      ensures var slot := Slot(InitAddresses(base, mode, list).0, list, j);
              && Accepts(m, slot, 4)
              && Low(base, mode, Count(list, 15)) <= slot && slot + 4 <= High(base, mode, Count(list, 15))
    {
      SlotInFrame(m, base, mode, list, d, j);
    }
  }

  /** Memory differs only in [low, high). */
  predicate SameOutside(m: Mem, m': Mem, low: int, high: int) {
    |m'.bytes| == |m.bytes| && m'.big == m.big &&
    forall x :: 0 <= x < |m.bytes| && !(low <= x < high) ==> m'.bytes[x] == m.bytes[x]
  }

  lemma Wider(m: Mem, m': Mem, low: int, high: int, low': int, high': int)
    requires SameOutside(m, m', low, high) && low' <= low && high <= high'
    ensures SameOutside(m, m', low', high')
  {
  }

  lemma InTurn(m: Mem, m1: Mem, m2: Mem, low: int, high: int)
    requires SameOutside(m, m1, low, high) && SameOutside(m1, m2, low, high)
    ensures SameOutside(m, m2, low, high)
  {
  }

  /** Any well-nested sequence of calls with room for its depth leaves every register, the base among
      them, and the flags as they were, and memory unchanged outside the stack it used. */
  lemma {:induction false} CallsRestore(s: State, mode: Mode, rn: nat, calls: Calls)
    requires Disciplined(calls, rn) && Room(s.mem, s.regs[rn], mode, Depth(calls))
    ensures var s' := Execute(s, mode, rn, calls);
            && s'.regs == s.regs && s'.cpsr == s.cpsr
            && SameOutside(s.mem, s'.mem, Low(s.regs[rn], mode, Depth(calls)), High(s.regs[rn], mode, Depth(calls)))
    decreases calls, 0
  {
    match calls
    case Return =>
    case Call(list, scratch, stale, inner, rest) =>
      DepthOfCall(list, scratch, stale, inner, rest);
      hide Room, Low, High, Push, Pop, Count, SameOutside, Depth, Execute;
      var d, k := Depth(calls), Count(list, 15);
      var base := s.regs[rn];
      RoomShrinks(s.mem, base, mode, d, k + Depth(inner));
      RoomShrinks(s.mem, base, mode, d, Depth(rest));
      var back := OneCall(s, mode, rn, list, scratch, stale, inner, rest);
      SameRoom(s.mem, back.mem, base, mode, Depth(rest));
      CallsRestore(back, mode, rn, rest);
      var low, high := Low(base, mode, d), High(base, mode, d);
      Wider(s.mem, back.mem, Low(base, mode, k + Depth(inner)), High(base, mode, k + Depth(inner)), low, high);
      var after := Execute(back, mode, rn, rest).mem;
      Wider(back.mem, after, Low(base, mode, Depth(rest)), High(base, mode, Depth(rest)), low, high);
      InTurn(s.mem, back.mem, after, low, high);
  }

  lemma DepthOfCall(list: Half, scratch: RegisterFile, stale: Word, inner: Calls, rest: Calls)
    ensures Depth(Call(list, scratch, stale, inner, rest)) >= Count(list, 15) + Depth(inner)
    ensures Depth(Call(list, scratch, stale, inner, rest)) >= Depth(rest)
  {
  }

  lemma SameRoom(m: Mem, m': Mem, base: Word, mode: Mode, d: nat)
    requires Room(m, base, mode, d) && |m'.bytes| == |m.bytes|
    ensures Room(m', base, mode, d)
  {
  }

  /** One call, up to its return. */
  lemma {:induction false} OneCall(s: State, mode: Mode, rn: nat, list: Half, scratch: RegisterFile, stale: Word,
                                    inner: Calls, rest: Calls)
    returns (back: State)
    requires Savable(list, rn) && Disciplined(inner, rn)
    requires Room(s.mem, s.regs[rn], mode, Count(list, 15) + Depth(inner))
    ensures Execute(s, mode, rn, Call(list, scratch, stale, inner, rest)) == Execute(back, mode, rn, rest)
    ensures back.regs == s.regs && back.cpsr == s.cpsr
    ensures var d := Count(list, 15) + Depth(inner);
            SameOutside(s.mem, back.mem, Low(s.regs[rn], mode, d), High(s.regs[rn], mode, d))
    decreases inner, 1
  {
    hide Room, Low, High, Push, Pop, Count, Depth, ArmWriteback, InitAddresses, ReadWord, Slot, Covered;
    var base, k, d := s.regs[rn], Count(list, 15), Depth(inner);
    RoomShrinks(s.mem, base, mode, k + d, k);
    FrameLayout(s.mem, base, mode, list, d);
    SlotsInFrame(s.mem, base, mode, list, d);
    PushEffect(s, mode, rn, list);
    var pushed := Push(s, mode, rn, list);
    var body := pushed.(regs := Scratch(pushed.regs, list, scratch));
    SameRoom(s.mem, body.mem, body.regs[rn], mode, d);
    CallsRestore(body, mode, rn, inner);
    var done := Execute(body, mode, rn, inner);
    FrameKept(s, pushed, done, mode, rn, list, d);
    PopUndoesPush(s, done, mode, rn, list, stale);
    back := Pop(done, mode, rn, list, stale);
  }

  /** The inner calls stay out of the frame. */
  lemma FrameKept(s: State, pushed: State, done: State, mode: Mode, rn: nat, list: Half, d: nat)
    requires rn < 15 && Room(s.mem, s.regs[rn], mode, Count(list, 15) + d)
    requires SavedIn(pushed, s, mode, rn, list) && LoadStore.SameShape(s, pushed)
    requires var base' := ArmWriteback(s.regs[rn], mode, Count(list, 15));
             SameOutside(pushed.mem, done.mem, Low(base', mode, d), High(base', mode, d))
    ensures SavedIn(done, s, mode, rn, list)
  {
    hide Room, Low, High, Count, ArmWriteback, InitAddresses, Slot, Bit;
    FrameLayout(s.mem, s.regs[rn], mode, list, d);
    forall j: nat | j < 15 && Bit(list, j) == 1
      ensures ReadWord(done.mem, Slot(Frame(s, mode, rn, list), list, j)) == Some(s.regs[j])
    {
      hide ReadWord, Accepts;
      var slot := Slot(Frame(s, mode, rn, list), list, j);
      SlotInFrame(s.mem, s.regs[rn], mode, list, d, j);
      AcceptedStaysInWord(s.mem, slot, 4);
      ReadElsewhere(pushed.mem, done.mem, slot, 4);
    }
  }
}
