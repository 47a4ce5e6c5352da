/**
The debugger's continue command: step after step until the instruction about to be fetched is a
breakpoint, which is never executed.
 */
module Debugger {
  import opened Words
  import opened Memory
  import opened Registers
  import opened Instruction
  import LoadStore

  /** The undefined instruction that gdb plants. */
  predicate IsBreakpoint(instruction: Word) {
    And(instruction, 0xFFF0_00F0) == 0xE7F0_00F0
  }

  /** Its bits 31 to 20 and 7 to 4 are 0xE7F and 0xF; the others are free. */
  lemma BreakpointIff(w: Word)
    ensures IsBreakpoint(w) <==> w / 0x10_0000 == 0xE7F && (w / 0x10) % 0x10 == 0xF
  {
    Pow2Values();
    hide And, Pow2;
    var w1, w2, w3, w4, w5 := w / 0x10, w / 0x100, w / 0x1000, w / 0x1_0000, w / 0x10_0000;
    NibbleAbove(w, 0x10);
    NibbleAbove(w, 0x100);
    NibbleAbove(w, 0x1000);
    NibbleAbove(w, 0x1_0000);
    AndNibble(w, 0xFFF_000F);
    AndNibble(w1, 0xFF_F000);
    AndNibble(w2, 0xF_FF00);
    AndNibble(w3, 0xFFF0);
    AndNibble(w4, 0xFFF);
    MaskIsMod(w5, 12);
  }

  lemma NibbleAbove(w: Word, unit: nat)
    requires unit > 0
    ensures w / unit / 16 == w / (16 * unit)
  {
    DivDiv(w, unit, 16);
  }

  /** The read in anticipation; a refused one leaves the local as it was. */
  function Anticipated(s: State, instruction: Word): Word {
    LoadStore.Loaded(ReadWord(s.mem, FetchAddress(s)), instruction)
  }

  /** How many turns of `cont` step before one finds a breakpoint; `instruction` is its local, which is
      not initialised before the first turn, and |stales| bounds the number of turns. */
  function Steps(s: State, instruction: Word, stales: seq<Stale>): (k: nat)
    ensures k <= |stales|
    decreases |stales|
  {
    var seen := Anticipated(s, instruction);
    if stales == [] || IsBreakpoint(seen) then 0 else 1 + Steps(Step(s, stales[0]).0, seen, stales[1..])
  }

  /** The loop stops before turn i: the word at its fetch address is a breakpoint, or, in the first turn
      only, that word cannot be read and the uninitialised local happens to be one. */
  predicate StopsAt(s: State, instruction: Word, stales: seq<Stale>, i: nat)
    requires i <= |stales|
  {
    var t := Run(s, stales[..i]);
    match ReadWord(t.mem, FetchAddress(t))
    case Some(word) => IsBreakpoint(word)
    case None => i == 0 && IsBreakpoint(instruction)
  }

  lemma StopsFirst(s: State, instruction: Word, stales: seq<Stale>)
    ensures StopsAt(s, instruction, stales, 0) <==> IsBreakpoint(Anticipated(s, instruction))
  {
    hide FetchAddress, IsBreakpoint;
    assert stales[..0] == [];
  }

  lemma StopsLater(s: State, instruction: Word, stales: seq<Stale>, i: nat)
    requires 0 < i <= |stales| && !IsBreakpoint(Anticipated(s, instruction))
    ensures StopsAt(s, instruction, stales, i)
       <==> StopsAt(Step(s, stales[0]).0, Anticipated(s, instruction), stales[1..], i - 1)
  {
    hide FetchAddress, IsBreakpoint, Step, Anticipated;
    assert stales[..i][1..] == stales[1..][..i - 1] && stales[..i][0] == stales[0];
  }

  /** The loop runs to the first such turn: every word it executes that could be read ahead is not a
      breakpoint, and it stops early only at one. */
  lemma {:induction false} StepsIff(s: State, instruction: Word, stales: seq<Stale>, k: nat)
    requires k <= |stales|
    ensures Steps(s, instruction, stales) == k
       <==> && (forall i: nat :: i < k ==> !StopsAt(s, instruction, stales, i))
            && (k == |stales| || StopsAt(s, instruction, stales, k))
    decreases |stales|
  {
    hide StopsAt, Anticipated, Step, IsBreakpoint;
    StopsFirst(s, instruction, stales);
    var seen := Anticipated(s, instruction);
    if stales == [] {
    } else if IsBreakpoint(seen) {
    } else {
      var t, rest := Step(s, stales[0]).0, stales[1..];
      forall i: nat | 0 < i <= |stales|
        ensures StopsAt(s, instruction, stales, i) <==> StopsAt(t, seen, rest, i - 1)
      {
        StopsLater(s, instruction, stales, i);
      }
      if k > 0 {
        StepsIff(t, seen, rest, k - 1);
        forall i: nat | i < k - 1 ensures StopsAt(s, instruction, stales, i + 1) <==> StopsAt(t, seen, rest, i) {}
      }
    }
  }

  /** A word that is stepped over and can be read is fetched and is no breakpoint. */
  lemma NoBreakpointExecuted(s: State, instruction: Word, stales: seq<Stale>, i: nat)
    requires i < Steps(s, instruction, stales)
    requires var t := Run(s, stales[..i]); ReadWord(t.mem, FetchAddress(t)).Some?
    ensures !IsBreakpoint(Fetched(Run(s, stales[..i])))
  {
    hide IsBreakpoint, FetchAddress, Run, Steps;
    StepsIff(s, instruction, stales, Steps(s, instruction, stales));
    assert !StopsAt(s, instruction, stales, i);
  }
}
