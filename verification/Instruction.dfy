/**
Fetch, condition gate and dispatch, and whole runs. `Step` is the source's step; `ArmStep` is the
same machine with the manual's instructions, a failed condition doing nothing, and LDM / STM
dispatched.
 */
module Instruction {
  import opened Words
  import opened Flags
  import opened Memory
  import opened Registers
  import DataProcessing
  import LoadStore
  import LoadStoreMultiple
  import Branch

  const RESET := 1
  const RESET_CPSR: Word := 0x1D3

  // ----- fetch -----

  function FetchAddress(s: State): Word {
    Wrap(ReadReg(s, 15) - 4)
  }

  /** A refused fetch leaves the word the caller initialised it with: the status register. */
  function Fetched(s: State): Word {
    LoadStore.Loaded(ReadWord(s.mem, FetchAddress(s)), s.cpsr)
  }

  function AfterFetch(s: State): State {
    WriteReg(s, 15, Wrap(FetchAddress(s) + 4))
  }

  /** At a word-aligned r15 the fetch takes the word there and moves on by one word; the instruction
      then reads its own address plus 8. */
  lemma FetchReadsAhead(s: State)
    requires s.regs[15] % 4 == 0
    ensures Fetched(s) == LoadStore.Loaded(ReadWord(s.mem, s.regs[15]), s.cpsr)
    ensures AfterFetch(s).regs[15] == Wrap(4 + s.regs[15] as int)
    ensures ReadReg(AfterFetch(s), 15) == Wrap(8 + s.regs[15] as int)
  {
    hide ReadWord, And;
    ReadPc(s);
    FourBack(s.regs[15]);
    assert AfterFetch(s).regs[15] == Wrap(4 + s.regs[15] as int);
    hide FetchAddress, Wrap;
    ReadPc(AfterFetch(s));
    WrapSum(4 + s.regs[15] as int, 4);
    StaysAligned(s.regs[15]);
  }

  /** From any r15: its value plus 4, bit 1 cleared, is what r15 becomes; the word fetched is the one before. */
  lemma FetchAnywhere(s: State)
    ensures var x := (4 + s.regs[15] as int) % 0x1_0000_0000;
            var next := if x / 2 % 2 == 1 then x - 2 else x;
            && Fetched(s) == (match ReadWord(s.mem, (next - 4) % 0x1_0000_0000) case Some(v) => v case None => s.cpsr)
            && AfterFetch(s) == s.(regs := s.regs[15 := next])
  {
    hide ReadWord, And, Bit;
    ReadPc(s);
    var x := Wrap(4 + s.regs[15] as int);
    SecondBit(x);
    BackAndForth(x - 2 * Bit(x, 1));
  }

  lemma SecondBit(x: Word)
    ensures Bit(x, 1) == (x / 2) % 2 && 2 * Bit(x, 1) <= x
  {
  }

  lemma BackAndForth(x: Word)
    ensures Wrap(Wrap(x - 4) + 4) == x
  {
  }

  lemma FourBack(pc: Word)
    ensures Wrap(Wrap(4 + pc) - 4) == pc
  {
  }

  lemma StaysAligned(pc: Word)
    requires pc % 4 == 0
    ensures Wrap(4 + pc) % 4 == 0
  {
  }

  function CondField(mot: Word): Byte { mot / 0x1000_0000 }
  function TypeField(mot: Word): nat { (mot / 0x400_0000) % 4 }

  predicate HalfTransfer(mot: Word) {
    (mot / 0x80) % 2 == 1 && (mot / 0x10) % 2 == 1
  }

  /** Half-word transfers share bits 7 and 4 only with other register forms: an immediate operand
      (bit 25) may have them set by its value. */
  predicate ArmHalfTransfer(mot: Word) {
    IBit(mot) == 0 && HalfTransfer(mot)
  }

  // ----- the source -----

  /** `traitement_BR` drops the result of `arm_branch`, so an undefined instruction is a no-op. */
  function SelectExecute(s: State, mot: Word, stale: Stale): (State, int) {
    match TypeField(mot)
    case 0 =>
      if HalfTransfer(mot) then (LoadStore.LoadStoreHalf(s, mot, stale.word), 0)
      else (DataProcessing.DataProcess(s, mot, stale), 0)
    case 1 => (LoadStore.LoadStore(s, mot, stale.word), 0)
    case 2 => (if IBit(mot) == 1 then Branch.BranchLink(s, mot) else s, 0)
    case _ => (s, 0)
  }

  function ExecuteInstruction(s: State, stale: Stale): (State, int) {
    var mot := Fetched(s);
    if CondFailed(s.cpsr, CondField(mot)) != 0 then (AfterFetch(s), 1)
    else SelectExecute(AfterFetch(s), mot, stale)
  }

  /** `arm_exception`: only RESET does anything. */
  function Exception(s: State, exception: int): State {
    if exception == RESET then WriteReg(s.(cpsr := RESET_CPSR), 15, 0) else s
  }

  function Step(s: State, stale: Stale): (State, int) {
    var (s', result) := ExecuteInstruction(s, stale);
    (if result != 0 then Exception(s', result) else s', result)
  }

  function Run(s: State, stales: seq<Stale>): State
    decreases |stales|
  {
    if stales == [] then s else Run(Step(s, stales[0]).0, stales[1..])
  }

  lemma {:induction false} RunLast(s: State, stales: seq<Stale>, i: nat)
    requires i < |stales|
    ensures Run(s, stales[..i + 1]) == Step(Run(s, stales[..i]), stales[i]).0
    decreases |stales|
  {
    hide Step;
    var t := Step(s, stales[0]).0;
    assert stales[..i + 1][1..] == stales[1..][..i];
    if i > 0 {
      assert stales[..i][1..] == stales[1..][..i - 1];
      RunLast(t, stales[1..], i - 1);
    }
  }

  // ----- the manual -----

  /** The operation of an instruction, which its condition field is not part of. */
  function ArmOperation(s: State, mot: Word, stale: Stale): State {
    var body := mot % 0x1000_0000;
    match TypeField(body)
    case 0 =>
      if ArmHalfTransfer(body) then LoadStore.ArmLoadStoreHalf(s, body, stale.word)
      else DataProcessing.ArmDataProcessing(s, body)
    case 1 => LoadStore.ArmLoadStore(s, body, stale.word)
    case 2 =>
      if IBit(body) == 1 then Branch.ArmBranchLink(s, body)
      else LoadStoreMultiple.ArmMultiple(s, LoadStoreMultiple.Decode(body), stale.word)
    case _ => s
  }

  function ArmGate(s: State, mot: Word, stale: Stale): State {
    if ArmPasses(s.cpsr, CondField(mot)) then ArmOperation(s, mot, stale) else s
  }

  function ArmStep(s: State, stale: Stale): State {
    ArmGate(AfterFetch(s), Fetched(s), stale)
  }

  function ArmRun(s: State, stales: seq<Stale>): State
    decreases |stales|
  {
    if stales == [] then s else ArmRun(ArmStep(s, stales[0]), stales[1..])
  }

  // ----- runs of the source -----

  lemma SelectKeeps(s: State, mot: Word, stale: Stale)
    ensures var (s', result) := SelectExecute(s, mot, stale);
            s'.cpsr == s.cpsr && LoadStore.SameShape(s, s') && result == 0
  {
    hide LoadStore.LoadStoreHalf, LoadStore.LoadStore, DataProcessing.DataProcess, ReadReg;
    LoadStore.TransfersKeep(s, mot, stale.word);
    DataProcessing.DataProcessFrame(s, mot, stale);
  }

  predicate Fails(s: State) {
    CondFailed(s.cpsr, CondField(Fetched(s))) != 0
  }

  /** A step of the source returns 1 exactly when its condition fails, and that resets the machine;
      otherwise the status register is kept. */
  lemma StepCpsr(s: State, stale: Stale)
    ensures var (s', result) := Step(s, stale);
            && result == (if Fails(s) then RESET else 0)
            && s'.cpsr == (if Fails(s) then RESET_CPSR else s.cpsr)
            && (Fails(s) ==> s'.regs[15] == 0)
            && LoadStore.SameShape(s, s')
  {
    hide SelectExecute, FetchAddress, Fetched, CondFailed;
    SelectKeeps(AfterFetch(s), Fetched(s), stale);
  }

  /** Some condition fails during the run. */
  predicate FailsDuring(s: State, stales: seq<Stale>)
    decreases |stales|
  {
    stales != [] && (Fails(s) || FailsDuring(Step(s, stales[0]).0, stales[1..]))
  }

  lemma {:induction false} RunCpsr(s: State, stales: seq<Stale>)
    ensures var s' := Run(s, stales);
            && s'.cpsr == (if FailsDuring(s, stales) then RESET_CPSR else s.cpsr)
            && LoadStore.SameShape(s, s')
    decreases |stales|
  {
    if stales != [] {
      hide Step, Fails;
      StepCpsr(s, stales[0]);
      RunCpsr(Step(s, stales[0]).0, stales[1..]);
    }
  }

  /** The source keeps the control bits 27..0 over a run exactly when no condition fails in it, or
      they are the reset value already. */
  lemma RunKeepsControlBitsIff(s: State, stales: seq<Stale>)
    ensures Run(s, stales).cpsr % 0x1000_0000 == s.cpsr % 0x1000_0000
       <==> !FailsDuring(s, stales) || s.cpsr % 0x1000_0000 == RESET_CPSR
  {
    hide Run, FailsDuring;
    RunCpsr(s, stales);
  }

  // ----- runs of the manual's machine -----

  lemma OperationKeeps(s: State, mot: Word, stale: Stale)
    ensures var s' := ArmOperation(s, mot, stale);
            && s'.cpsr % 0x1000_0000 == s.cpsr % 0x1000_0000
            && LoadStore.SameShape(s, s')
            && (s'.cpsr != s.cpsr ==>
                  TypeField(mot) == 0 && !ArmHalfTransfer(mot) && DataProcessing.SetsFlags(mot % 0x1000_0000))
  {
    hide LoadStore.ArmLoadStoreHalf, LoadStore.ArmLoadStore, DataProcessing.ArmDataProcessing, DataProcessing.SetsFlags,
      LoadStoreMultiple.ArmMultiple, ReadReg;
    var body := mot % 0x1000_0000;
    LoadStore.TransfersKeep(s, body, stale.word);
    DataProcessing.ArmDataProcessingFrame(s, body);
    LoadStoreMultiple.ArmMultipleKeeps(s, LoadStoreMultiple.Decode(body), stale.word);
    FieldsOfBody(mot);
  }

  lemma FieldsOfBody(mot: Word)
    ensures TypeField(mot) == TypeField(mot % 0x1000_0000)
    ensures HalfTransfer(mot) == HalfTransfer(mot % 0x1000_0000)
    ensures IBit(mot) == IBit(mot % 0x1000_0000)
  {
    FieldOfBody(mot, 0x400_0000, 4, 1);
    FieldOfBody(mot, 0x80, 2, 0x10_0000);
    FieldOfBody(mot, 0x10, 2, 0x80_0000);
    FieldOfBody(mot, 0x200_0000, 2, 4);
  }

  /** A field below bit 28 does not see the bits above. */
  lemma FieldOfBody(mot: Word, unit: nat, width: nat, above: nat)
    requires unit > 0 && width > 0 && unit * (width * above) == 0x1000_0000
    ensures mot % 0x1000_0000 / unit % width == mot / unit % width
  {
    FieldAbove(mot % 0x1000_0000, mot / 0x1000_0000, unit, width, above);
  }

  lemma FieldAbove(body: nat, c: nat, unit: nat, width: nat, above: nat)
    requires unit > 0 && width > 0 && unit * (width * above) == 0x1000_0000
    ensures (body + 0x1000_0000 * c) / unit % width == body / unit % width
  {
    DivMod(body, unit);
    DivMod(body / unit, width);
    var q, high, r := body / unit, above * c, body / unit % width;
    assert 0x1000_0000 * c == unit * (width * high) by {
      assert (unit * (width * above)) * c == unit * (width * (above * c));
    }
    assert unit * (q + width * high) == unit * q + unit * (width * high);
    DivUnique(body + 0x1000_0000 * c, unit, q + width * high, body % unit);
    assert width * (q / width + high) == width * (q / width) + width * high;
    DivUnique(q + width * high, width, q / width + high, r);
  }

  /** Each step keeps the control bits, and the flags too unless it executes an S-suffixed or test
      instruction whose condition passed. */
  lemma ArmStepCpsr(s: State, stale: Stale)
    ensures var s' := ArmStep(s, stale);
            var mot := Fetched(s);
            && s'.cpsr % 0x1000_0000 == s.cpsr % 0x1000_0000
            && LoadStore.SameShape(s, s')
            && (s'.cpsr != s.cpsr ==>
                  && ArmPasses(s.cpsr, CondField(mot))
                  && TypeField(mot) == 0 && !ArmHalfTransfer(mot) && DataProcessing.SetsFlags(mot % 0x1000_0000))
  {
    hide ArmOperation, Fetched, FetchAddress, ArmPasses, DataProcessing.SetsFlags, TypeField, ArmHalfTransfer;
    OperationKeeps(AfterFetch(s), Fetched(s), stale);
  }

  /** CPSR bits 27..0 never change in any run, nor do the memory's size and byte order. */
  lemma {:induction false} ArmRunKeepsControlBits(s: State, stales: seq<Stale>)
    ensures var s' := ArmRun(s, stales);
            s'.cpsr % 0x1000_0000 == s.cpsr % 0x1000_0000 && LoadStore.SameShape(s, s')
    decreases |stales|
  {
    if stales != [] {
      hide ArmStep;
      ArmStepCpsr(s, stales[0]);
      ArmRunKeepsControlBits(ArmStep(s, stales[0]), stales[1..]);
    }
  }

  /** In every state reachable by either machine, an accepted access lies in one aligned word inside
      the buffer the memory was created with. */
  lemma ReachableAccessesInside(s: State, stales: seq<Stale>, a: Word, n: nat)
    requires Width(n)
    ensures forall s' :: s' == Run(s, stales) || s' == ArmRun(s, stales) ==>
              (Accepts(s'.mem, a, n) == Accepts(s.mem, a, n)) &&
              (Accepts(s'.mem, a, n) ==> a + n <= |s.mem.bytes| && a / 4 == (a + n - 1) / 4)
  {
    hide Run, ArmRun;
    RunCpsr(s, stales);
    ArmRunKeepsControlBits(s, stales);
    if Accepts(s.mem, a, n) { AcceptedStaysInWord(s.mem, a, n); }
  }
}
