/**
The calls of `Stack` as the instruction words they are made of: STM and LDM words with writeback and the
condition AL, with anything done to the saved registers in between.
 */
module StackWords {
  import opened Words
  import opened Flags
  import opened Registers
  import opened Instruction
  import opened LoadStoreMultiple
  import opened Stack
  import opened Encodings

  datatype Action = Run(ins: Word, stale: Stale) | Put(list: Half, scratch: RegisterFile)

  function Act(s: State, a: Action): State {
    match a
    case Run(ins, stale) => ArmGate(s, ins, stale)
    case Put(list, scratch) => s.(regs := Scratch(s.regs, list, scratch))
  }

  function Perform(s: State, actions: seq<Action>): State
    decreases |actions|
  {
    if actions == [] then s else Perform(Act(s, actions[0]), actions[1..])
  }

  /** A push word, the body, the words of the inner calls and the pop word, then the rest. */
  function Actions(p: Flag, u: Flag, rn: nat, calls: Calls): seq<Action>
    requires rn < 16
    decreases calls
  {
    match calls
    case Return => []
    case Call(list, scratch, stale, inner, rest) =>
      [PushWord(p, u, rn, list), Put(list, scratch)] + Actions(p, u, rn, inner)
      + [PopWord(p, u, rn, list, stale)] + Actions(p, u, rn, rest)
  }

  lemma {:induction false} PerformAppend(s: State, x: seq<Action>, y: seq<Action>)
    ensures Perform(s, x + y) == Perform(Perform(s, x), y)
    decreases |x|
  {
    hide Act;
    if x == [] {
      assert x + y == y;
    } else {
      assert (x + y)[1..] == x[1..] + y;
      PerformAppend(Act(s, x[0]), x[1..], y);
    }
  }

  lemma PerformOne(s: State, a: Action)
    ensures Perform(s, [a]) == Act(s, a)
  {
  }

  lemma AlwaysRuns(s: State, p: Flag, u: Flag, w: Flag, l: Flag, rn: nat, list: Half, stale: Stale)
    requires rn < 16
    ensures var ins := MultipleWord(14, p, u, w, l, rn, list);
            ArmGate(s, ins, stale) == ArmOperation(s, ins, stale)
  {
    hide ArmOperation, ArmPasses;
    ConditionNumbers(s.cpsr);
    DivUnique(MultipleWord(14, p, u, w, l, rn, list), 0x1000_0000, 14,
              0x800_0000 + p * 0x100_0000 + u * 0x80_0000 + w * 0x20_0000 + l * 0x10_0000 + rn * 0x1_0000 + list);
  }

  function PushWord(p: Flag, u: Flag, rn: nat, list: Half): Action
    requires rn < 16
  {
    Run(MultipleWord(14, p, u, 1, 0, rn, list), Stale(0, 0))
  }

  function PopWord(p: Flag, u: Flag, rn: nat, list: Half, stale: Word): Action
    requires rn < 16
  {
    Run(MultipleWord(14, 1 - p, 1 - u, 1, 1, rn, list), Stale(stale, 0))
  }

  lemma WordsAct(s: State, p: Flag, u: Flag, rn: nat, list: Half, stale: Word)
    requires Savable(list, rn)
    ensures Act(s, PushWord(p, u, rn, list)) == Push(s, 2 * p + u, rn, list)
    ensures Act(s, PopWord(p, u, rn, list, stale)) == Pop(s, 2 * p + u, rn, list, stale)
  {
    hide Push, Pop, ArmGate, MultipleWord, ArmOperation;
    AlwaysRuns(s, p, u, 1, 0, rn, list, Stale(0, 0));
    AlwaysRuns(s, 1 - p, 1 - u, 1, 1, rn, list, Stale(stale, 0));
    PushAndPopWords(s, 14, p, u, rn, list, Stale(0, 0));
    PushAndPopWords(s, 14, p, u, rn, list, Stale(stale, 0));
  }

  /** Executing the words is executing the calls. */
  lemma {:induction false} WordsAreCalls(s: State, p: Flag, u: Flag, rn: nat, calls: Calls)
    requires Disciplined(calls, rn)
    ensures Perform(s, Actions(p, u, rn, calls)) == Execute(s, 2 * p + u, rn, calls)
    decreases calls
  {
    match calls
    case Return =>
    case Call(list, scratch, stale, inner, rest) =>
      hide Push, Pop, Perform, ArmGate, Scratch, Savable, PushWord, PopWord;
      var push, pop := PushWord(p, u, rn, list), PopWord(p, u, rn, list, stale);
      WordsAct(s, p, u, rn, list, stale);
      var body := Act(Act(s, push), Put(list, scratch));
      var done := Execute(body, 2 * p + u, rn, inner);
      WordsAct(done, p, u, rn, list, stale);
      WordsAreCalls(body, p, u, rn, inner);
      WordsAreCalls(Act(done, pop), p, u, rn, rest);
      PerformCall(s, push, Put(list, scratch), Actions(p, u, rn, inner), pop, Actions(p, u, rn, rest));
  }

  lemma PerformCall(s: State, push: Action, put: Action, inner: seq<Action>, pop: Action, rest: seq<Action>)
    ensures Perform(s, [push, put] + inner + [pop] + rest)
         == Perform(Act(Perform(Act(Act(s, push), put), inner), pop), rest)
  {
    hide Perform, Act;
    PerformAppend(s, [push, put] + inner + [pop], rest);
    PerformAppend(s, [push, put] + inner, [pop]);
    PerformAppend(s, [push, put], inner);
    assert [push, put] == [push] + [put];
    PerformAppend(s, [push], [put]);
    PerformOne(s, push);
    PerformOne(Act(s, push), put);
    PerformOne(Perform(Act(Act(s, push), put), inner), pop);
  }

  /** So with room for the calls the words restore every register, the flags, and memory outside the stack. */
  lemma WordsRestore(s: State, p: Flag, u: Flag, rn: nat, calls: Calls)
    requires Disciplined(calls, rn) && Room(s.mem, s.regs[rn], 2 * p + u, Depth(calls))
    ensures var s' := Perform(s, Actions(p, u, rn, calls));
            var mode, d := 2 * p + u, Depth(calls);
            && s'.regs == s.regs && s'.cpsr == s.cpsr
            && SameOutside(s.mem, s'.mem, Low(s.regs[rn], mode, d), High(s.regs[rn], mode, d))
  {
    hide Perform, Actions, Execute, Room, Low, High, SameOutside, Depth;
    WordsAreCalls(s, p, u, rn, calls);
    CallsRestore(s, 2 * p + u, rn, calls);
  }
}
