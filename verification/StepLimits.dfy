/**
Exactly when a step of the source is the manual's, a run of steps, and a pair of complementary
conditions: the condition gate around the instructions.
 */
module StepLimits {
  import opened Words
  import opened Flags
  import opened Memory
  import opened Registers
  import opened Instruction
  import opened InstructionLimits
  import DataProcessing
  import LoadStore
  import Branch
  import TransferLimits

  // ----- steps -----

  /** The source resets where the manual goes on: the same only in a machine that was reset already and
      is about to wrap around to address 0. */
  predicate ResetAlready(s: State) {
    s.cpsr == RESET_CPSR && AfterFetch(s).regs[15] == 0
  }

  lemma FailedStepAgreesIff(s: State, stale: Stale)
    requires Fails(s) && !ArmPasses(s.cpsr, CondField(Fetched(s)))
    ensures Step(s, stale).0 == ArmStep(s, stale) <==> ResetAlready(s)
  {
    hide Fetched, FetchAddress, CondFailed, ArmPasses;
    var f := AfterFetch(s);
    if s.cpsr == RESET_CPSR && f.regs[15] == 0 {
      assert f.regs[15 := 0] == f.regs;
    }
  }

  /** LS is the one condition that the source may decide wrongly. */
  predicate Misjudged(s: State) {
    CondField(Fetched(s)) == 9 && FlagC(s.cpsr) == FlagZ(s.cpsr)
  }

  lemma MisjudgedPasses(s: State)
    requires Misjudged(s)
    ensures ArmPasses(s.cpsr, CondField(Fetched(s))) && Fails(s)
  {
    hide Fetched, FlagN, FlagZ, FlagC, FlagV;
  }

  /** The manual's operation leaves what a reset leaves: r15 zero, the status register RESET_CPSR and
      everything else as it was. */
  predicate LikeReset(s: State, mot: Word, stale: Stale) {
    ArmLeaves(s, mot, s.regs[15 := 0], stale) && ArmStatus(s, mot, RESET_CPSR)
  }

  /** A step is right when its condition passes and its instruction is right, or its condition fails in a
      machine that was reset already; or it is misjudged, and looks like a reset. */
  predicate StepRight(s: State, stale: Stale) {
    if !ArmPasses(s.cpsr, CondField(Fetched(s))) then ResetAlready(s)
    else if Misjudged(s) then LikeReset(AfterFetch(s), Fetched(s), stale)
    else InstructionRight(AfterFetch(s), Fetched(s), stale)
  }

  /** From every state, one whole step (fetch, condition, dispatch, execution) of the source is the
      manual's exactly then. */
  lemma StepAgreesIff(s: State, stale: Stale)
    ensures Step(s, stale).0 == ArmStep(s, stale) <==> StepRight(s, stale)
  {
    hide Fetched, FetchAddress, CondFailed, ArmPasses, SelectExecute, ArmOperation, InstructionRight, ResetAlready,
      ArmLeaves, ArmStatus, FlagC, FlagZ;
    var mot := Fetched(s);
    CondAgreesIff(s.cpsr, CondField(mot));
    if Misjudged(s) { MisjudgedPasses(s); }
    InstructionIff(AfterFetch(s), mot, stale);
    ArmLeavesIff(AfterFetch(s), mot, AfterFetch(s).regs[15 := 0], RESET_CPSR, stale);
    SelectKeeps(AfterFetch(s), mot, stale);
    if !ArmPasses(s.cpsr, CondField(mot)) { FailedStepAgreesIff(s, stale); }
  }

  /** A plain branch, and a pre-indexed transfer with an immediate offset, are right in every state. */
  lemma BranchStepAgrees(s: State, stale: Stale)
    requires var mot := Fetched(s);
             && TypeField(mot) == 2 && IBit(mot) == 1 && Branch.LinkBit(mot) == 0
             && ArmPasses(s.cpsr, CondField(mot)) && !Misjudged(s)
    ensures Step(s, stale) == (ArmStep(s, stale), 0)
  {
    hide Step, ArmStep, Fetched, FetchAddress, ArmPasses, FlagC, FlagZ;
    PassingStep(s, stale);
    StepAgreesIff(s, stale);
  }

  lemma PreIndexedStepAgrees(s: State, stale: Stale)
    requires var mot := Fetched(s);
             && TypeField(mot) == 1 && IBit(mot) == 0
             && LoadStore.PBit(mot) == 1 && LoadStore.WBit(mot) == 1
             && (LoadStore.LBit(mot) == 1 ==> Rd(mot) != Rn(mot))
             && ArmPasses(s.cpsr, CondField(mot)) && !Misjudged(s)
    ensures Step(s, stale) == (ArmStep(s, stale), 0)
  {
    hide Step, ArmStep, Fetched, FetchAddress, ArmPasses, FlagC, FlagZ, TransferLimits.TransferRight,
      LoadStore.LoadStore, LoadStore.ArmLoadStore;
    PassingStep(s, stale);
    StepAgreesIff(s, stale);
    LoadStore.PreIndexedAgrees(AfterFetch(s), Fetched(s), stale.word);
    TransferLimits.TransferAgreesIff(AfterFetch(s), Fetched(s), stale.word);
  }

  lemma PassingStep(s: State, stale: Stale)
    requires ArmPasses(s.cpsr, CondField(Fetched(s))) && !Misjudged(s)
    ensures Step(s, stale).1 == 0
  {
    hide Step, Fetched, ArmPasses, FlagC, FlagZ;
    CondAgreesIff(s.cpsr, CondField(Fetched(s)));
    StepCpsr(s, stale);
  }

  /** Every step of the manual's run is right. */
  predicate RunRight(s: State, stales: seq<Stale>)
    decreases |stales|
  {
    stales != [] ==> StepRight(s, stales[0]) && RunRight(ArmStep(s, stales[0]), stales[1..])
  }

  predicate Together(s: State, stales: seq<Stale>) {
    forall k: nat :: k <= |stales| ==> Run(s, stales[..k]) == ArmRun(s, stales[..k])
  }

  /** Two machines that start together stay together after every step of a run exactly when each of its
      steps is right. */
  lemma {:induction false} RunsAgreeIff(s: State, stales: seq<Stale>)
    ensures Together(s, stales) <==> RunRight(s, stales)
    decreases |stales|
  {
    if stales == [] {
      assert stales[..0] == [];
    } else {
      hide Step, ArmStep, StepRight, Together;
      StepAgreesIff(s, stales[0]);
      FirstStep(s, stales);
      RunsAgreeIff(ArmStep(s, stales[0]), stales[1..]);
    }
  }

  lemma FirstStep(s: State, stales: seq<Stale>)
    requires stales != []
    ensures Together(s, stales)
       <==> Step(s, stales[0]).0 == ArmStep(s, stales[0]) && Together(ArmStep(s, stales[0]), stales[1..])
  {
    hide Step, ArmStep;
    var t, t', rest := Step(s, stales[0]).0, ArmStep(s, stales[0]), stales[1..];
    assert stales[..0] == [];
    forall k: nat | k <= |rest|
      ensures Run(s, stales[..k + 1]) == Run(t, rest[..k]) && ArmRun(s, stales[..k + 1]) == ArmRun(t', rest[..k])
    {
      assert stales[..k + 1][1..] == rest[..k] && stales[..k + 1][0] == stales[0];
    }
    if Together(s, stales) {
      assert Run(s, stales[..0 + 1]) == ArmRun(s, stales[..0 + 1]) && rest[..0] == [];
      assert t == t';
      forall k: nat | k <= |rest| ensures Run(t, rest[..k]) == ArmRun(t', rest[..k]) {
        assert Run(s, stales[..k + 1]) == ArmRun(s, stales[..k + 1]);
      }
    }
    if t == t' && Together(t', rest) {
      forall k: nat | k <= |stales| ensures Run(s, stales[..k]) == ArmRun(s, stales[..k]) {
        if k > 0 {
          assert stales[..(k - 1) + 1] == stales[..k];
          assert Run(t', rest[..k - 1]) == ArmRun(t', rest[..k - 1]);
        }
      }
    }
  }

  // ----- complementary conditions -----

  /** An instruction under another condition. */
  function WithCond(mot: Word, cond: nat): Word
    requires cond < 16
  {
    mot % 0x1000_0000 + cond * 0x1000_0000
  }

  lemma WithCondFields(mot: Word, cond: nat)
    requires cond < 16
    ensures CondField(WithCond(mot, cond)) == cond && WithCond(mot, cond) % 0x1000_0000 == mot % 0x1000_0000
  {
  }

  /** An instruction that leaves the flags alone, run by the manual under conditions 2k and 2k+1 in
      turn, has the effect of running it once unconditionally. */
  lemma ComplementaryPair(s: State, mot: Word, k: nat, stale: Stale)
    requires k < 7
    requires ArmOperation(s, mot, stale).cpsr == s.cpsr
    ensures ArmGate(ArmGate(s, WithCond(mot, 2 * k), stale), WithCond(mot, 2 * k + 1), stale)
         == ArmGate(s, WithCond(mot, 14), stale)
         == ArmOperation(s, mot, stale)
  {
    hide FlagN, FlagZ, FlagC, FlagV, ArmOperation, WithCond, CondField, ArmPasses;
    WithCondFields(mot, 2 * k);
    WithCondFields(mot, 2 * k + 1);
    WithCondFields(mot, 14);
    CondPairs(s.cpsr, k);
    SameOperation(s, WithCond(mot, 2 * k), mot, stale);
    SameOperation(s, WithCond(mot, 2 * k + 1), mot, stale);
    SameOperation(s, WithCond(mot, 14), mot, stale);
    AlwaysPasses(s.cpsr);
  }

  lemma AlwaysPasses(cpsr: Word)
    ensures ArmPasses(cpsr, 14)
  {
  }

  lemma SameOperation(s: State, mot: Word, mot': Word, stale: Stale)
    requires mot % 0x1000_0000 == mot' % 0x1000_0000
    ensures ArmOperation(s, mot, stale) == ArmOperation(s, mot', stale)
  {
  }

  /** The source's condition check and what follows it in a step. */
  function CodeGate(s: State, mot: Word, stale: Stale): State {
    if CondFailed(s.cpsr, CondField(mot)) != 0 then Exception(s, RESET) else SelectExecute(s, mot, stale).0
  }

  /** The instruction does not write r15. */
  predicate KeepsPc(mot: Word) {
    match TypeField(mot)
    case 0 =>
      if HalfTransfer(mot) then
        && (LoadStore.LBit(mot) == 1 ==> Rd(mot) != 15)
        && (LoadStore.Writeback(mot) ==> Rn(mot) != 15)
      else DataProcessing.IsTest(DataProcessing.OpCode(mot)) || Rd(mot) != 15
    case 1 =>
      && (LoadStore.LBit(mot) == 1 ==> Rd(mot) != 15)
      && (TransferLimits.CodeWritesBack(mot) ==> Rn(mot) != 15)
    case 2 => IBit(mot) == 0
    case _ => true
  }

  lemma PcKept(s: State, mot: Word, stale: Stale)
    requires KeepsPc(mot)
    ensures CodePc(s, mot, stale) == s.regs[15]
  {
    hide CodeDestination, TransferLimits.Received, TransferLimits.HalfAddress, TransferLimits.CodeAddress;
    if TypeField(mot) == 0 && !HalfTransfer(mot) && Rd(mot) == 15 { TestKeeps(s, mot, stale); }
  }

  lemma TestKeeps(s: State, mot: Word, stale: Stale)
    requires DataProcessing.IsTest(DataProcessing.OpCode(mot))
    ensures CodeDestination(s, mot, stale) == s.regs[Rd(mot)]
  {
  }

  /** When the pair below has the effect of the instruction alone in a machine whose status register is the
      reset value: EQ, CS, MI and VS (k < 4) fail there and reset before the other executes it; HI and LS
      both fail; GE and GT pass, and the other resets after it. */
  predicate PairRight(s: State, mot: Word, k: nat, stale: Stale) {
    if k < 4 then s.regs[15] == 0
    else if k == 4 then CodeLeaves(s, mot, s.regs[15 := 0], stale)
    else CodePc(s, mot, stale) == 0
  }

  /** In the source one of the two resets, whatever the flags, so that the pair has the effect of the
      instruction alone only in a machine whose status register is the reset value already. (An
      instruction that writes r15 may also read it, which a reset in front of it changes: hence the
      requirement for k < 4.) */
  lemma CodePairIff(s: State, mot: Word, k: nat, stale: Stale)
    requires k < 7 && (k < 4 ==> KeepsPc(mot))
    ensures var pair := CodeGate(CodeGate(s, WithCond(mot, 2 * k), stale), WithCond(mot, 2 * k + 1), stale);
            && pair.cpsr == RESET_CPSR
            && (pair == SelectExecute(s, mot, stale).0 <==> s.cpsr == RESET_CPSR && PairRight(s, mot, k, stale))
  {
    hide SelectExecute, WithCond, CondField, CondFailed, KeepsPc, CodeLeaves, CodePc;
    var s1, after := Exception(s, RESET), SelectExecute(s, mot, stale).0;
    WithCondFields(mot, 2 * k);
    WithCondFields(mot, 2 * k + 1);
    SameSelect(s, WithCond(mot, 2 * k), mot, stale);
    SameSelect(s1, WithCond(mot, 2 * k + 1), mot, stale);
    SelectKeeps(s, mot, stale);
    SelectKeeps(s1, mot, stale);
    CodePcIs(s, mot, stale);
    CodePcIs(s1, mot, stale);
    CodeLeavesIff(s, mot, s.regs[15 := 0], stale);
    if k < 4 {
      PcKept(s, mot, stale);
      PcKept(s1, mot, stale);
    }
    OneFails(s.cpsr, k);
    UnderReset(k);
    assert s.regs[15] == 0 ==> s.regs[15 := 0] == s.regs;
    assert after.regs[15] == 0 ==> after.regs[15 := 0] == after.regs;
  }

  lemma SameSelect(s: State, mot: Word, mot': Word, stale: Stale)
    requires mot % 0x1000_0000 == mot' % 0x1000_0000
    ensures SelectExecute(s, mot, stale) == SelectExecute(s, mot', stale)
  {
    hide SelectExecute;
    SelectBody(s, mot, stale);
    SelectBody(s, mot', stale);
  }

  lemma OneFails(cpsr: Word, k: nat)
    requires k < 7
    ensures CondFailed(cpsr, 2 * k) != 0 || CondFailed(cpsr, 2 * k + 1) != 0
  {
    hide FlagN, FlagZ, FlagC, FlagV;
  }

  lemma UnderReset(k: nat)
    requires k < 7
    ensures CondFailed(RESET_CPSR, 2 * k) == 0 <==> k == 5 || k == 6
    ensures CondFailed(RESET_CPSR, 2 * k + 1) == 0 <==> k <= 3
  {
    Pow2Values();
    forall i: nat | 28 <= i < 32 ensures Bit(RESET_CPSR, i) == 0 { BitAboveWidth(RESET_CPSR, 28, i); }
  }
}
