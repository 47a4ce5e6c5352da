/**
B and BL: the relative jump and the link (section A4.1.5 of the ARM Architecture Reference Manual).
 */
module Branch {
  import opened Words
  import opened Registers

  type Field24 = f: nat | f < 0x100_0000

  function OffsetField(ins: Word): Field24 { ins % 0x100_0000 }
  function LinkBit(ins: Word): Flag { (ins / 0x100_0000) % 2 }

  /** The source's sign extension: six ones above the field, then two zeros below. */
  function Extend(si: Field24): Word {
    if (si / 0x80_0000) % 2 == 1 then ExtendFits(si); Shl(Or(si, 0x3F00_0000), 2)
    else Shl(si, 2)
  }

  lemma ExtendFits(si: Field24)
    ensures Or(si, 0x3F00_0000) == si + 0x3F00_0000
  {
    Pow2Values();
    OrDisjoint(si, 0x3F, 24);
  }

  function BranchLink(s: State, ins: Word): State {
    var pc := ReadReg(s, 15);
    var s' := if LinkBit(ins) == 1 then WriteReg(s, 14, pc) else s;
    WriteReg(s', 15, Wrap(pc + Extend(OffsetField(ins))))
  }

  /** The displacement of the manual: four times the field in two's complement. */
  function Displacement(si: Field24): int {
    4 * (if si < 0x80_0000 then si else si - 0x100_0000)
  }

  /** The manual's branch: the link is the address of the next instruction. */
  function ArmBranchLink(s: State, ins: Word): State {
    var s' := if LinkBit(ins) == 1 then WriteReg(s, 14, s.regs[15]) else s;
    WriteReg(s', 15, Wrap(ReadReg(s, 15) + Displacement(OffsetField(ins))))
  }

  /** OR-ing 0x3F000000 and shifting left by two is sign extension times four, modulo 2^32. */
  lemma ExtendIsDisplacement(si: Field24)
    ensures Extend(si) == Wrap(Displacement(si))
  {
    hide Or;
    ExtendFits(si);
    assert Pow2(2) == 4;
    WrapMultiple(Displacement(si));
  }

  lemma WrapMultiple(x: int)
    ensures Wrap(x + WORD) == Wrap(x)
  {
  }

  /** The displacements are exactly the multiples of 4 from -2^25 to 2^25 - 4, each once. */
  lemma DisplacementRange(d: int)
    ensures (exists si: Field24 :: Displacement(si) == d) <==> d % 4 == 0 && -0x200_0000 <= d <= 0x1FF_FFFC
  {
    if d % 4 == 0 && -0x200_0000 <= d <= 0x1FF_FFFC {
      var si: Field24 := if d >= 0 then d / 4 else d / 4 + 0x100_0000;
      assert Displacement(si) == d;
    }
  }

  /** Every target in the window is reached, by exactly one field value. */
  lemma TargetReachedOnce(pc: Word, d: int) returns (si: Field24)
    requires d % 4 == 0 && -0x200_0000 <= d <= 0x1FF_FFFC
    ensures Wrap(pc + Extend(si)) == Wrap(pc + d)
    ensures forall si': Field24 :: Wrap(pc + Extend(si')) == Wrap(pc + d) ==> si' == si
  {
    si := if d >= 0 then d / 4 else d / 4 + 0x100_0000;
    assert Displacement(si) == d;
    forall si': Field24 ensures Wrap(pc + Extend(si')) == Wrap(pc + d) <==> si' == si {
      TargetOf(pc, d, si', si);
    }
  }

  lemma TargetOf(pc: Word, d: int, si': Field24, si: Field24)
    requires Displacement(si) == d
    ensures Wrap(pc + Extend(si')) == Wrap(pc + d) <==> si' == si
  {
    hide Extend, Wrap;
    ExtendIsDisplacement(si');
    WrapSum(Displacement(si'), pc);
    WrapMoves(pc + d, Displacement(si') - d);
  }

  /** The jump is always the manual's. The link is not: it is the program counter as read, two words
      ahead, so the instruction is the manual's exactly when it does not link. */
  lemma BranchAgreesIff(s: State, ins: Word)
    ensures BranchLink(s, ins).regs[15] == ArmBranchLink(s, ins).regs[15]
    ensures BranchLink(s, ins) == ArmBranchLink(s, ins) <==> LinkBit(ins) == 0
  {
    hide Extend;
    var si := OffsetField(ins);
    ExtendIsDisplacement(si);
    WrapSum(Displacement(si), ReadReg(s, 15));
    ReadPc(s);
    PcIsAhead(s.regs[15], Bit(Wrap(4 + s.regs[15] as int), 1));
    assert LinkBit(ins) == 1 ==>
        BranchLink(s, ins).regs[14] == ReadReg(s, 15) && ArmBranchLink(s, ins).regs[14] == s.regs[15];
  }

  lemma PcIsAhead(pc: Word, b: Flag)
    ensures Wrap(4 + pc) - 2 * b != pc
  {
  }

  /** For a word-aligned instruction the link is 4 too large. */
  lemma LinkIsOneWordLate(s: State, ins: Word)
    requires LinkBit(ins) == 1 && s.regs[15] % 4 == 0
    ensures BranchLink(s, ins).regs[14] == Wrap(4 + ArmBranchLink(s, ins).regs[14] as int)
  {
    hide Extend, Displacement;
    ReadPc(s);
  }
}
