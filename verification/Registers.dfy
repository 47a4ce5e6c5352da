/**
The processor state as a value: sixteen registers, the status register and the memory.
 */
module Registers {
  import opened Words
  import opened Memory

  type RegisterFile = r: seq<Word> | |r| == 16 witness seq(16, i => 0)

  datatype State = State(regs: RegisterFile, cpsr: Word, mem: Mem)

  /** What uninitialised locals hold during one instruction, and what lies beyond the register file: a
      word, and a shifter carry. */
  datatype Stale = Stale(word: Word, carry: Flag)

  // ----- fields that several classes of instructions share -----

  function Rn(ins: Word): (r: nat) ensures r < 16 { (ins / 0x1_0000) % 16 }
  function Rd(ins: Word): (r: nat) ensures r < 16 { (ins / 0x1000) % 16 }

  /** Bit 25: an immediate operand in data processing, a register offset in a transfer, and what tells a
      branch from a multiple transfer. */
  function IBit(ins: Word): Flag { (ins / 0x200_0000) % 2 }

  // ----- reading and writing -----

  /** The program counter reads as the address of the instruction plus 8; the fetch has already
      added 4 of them. */
  function ReadReg(s: State, r: nat): Word
    requires r < 16
  {
    if r == 15 then AndW(Wrap(4 + s.regs[15] as int), 0xFFFF_FFFD) else s.regs[r]
  }

  /** The source does not check register numbers: one beyond the file reads what lies there. */
  function Numbered(s: State, r: Byte, beyond: Word): Word {
    if r < 16 then ReadReg(s, r) else beyond
  }

  function WriteReg(s: State, r: nat, v: Word): State
    requires r < 16
  {
    s.(regs := s.regs[r := v])
  }

  /** Registers that are not in `written` are as in s. */
  predicate KeepsOthers(s: State, regs: RegisterFile, written: set<nat>) {
    forall r: nat :: r < 16 && r !in written ==> regs[r] == s.regs[r]
  }

  lemma ReadPc(s: State)
    ensures ReadReg(s, 15) == Wrap(4 + s.regs[15] as int) - 2 * Bit(Wrap(4 + s.regs[15] as int), 1)
    ensures s.regs[15] % 4 == 0 ==> ReadReg(s, 15) == Wrap(4 + s.regs[15] as int)
  {
    ClearBitOne(Wrap(4 + s.regs[15] as int));
  }
}
