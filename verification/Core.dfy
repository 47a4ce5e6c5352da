/**
The simulator's objects: a memory buffer, a register file and the core that joins them, updated in
place. Every method is proved to do to the object's value what the function of the same purpose does.
 */
module Core {
  import opened Words
  import opened Flags
  import Memory
  import Registers
  import Shifter
  import DataProcessing
  import LoadStore
  import LoadStoreMultiple
  import Branch
  import Instruction
  import Debugger

  class MemoryData {
    const size: nat
    const memo: array<Byte>
    const isBigEndian: bool

    /** Four bytes a word, contents arbitrary. */
    constructor (size: nat, isBigEndian: bool)
      ensures Valid() && fresh(memo)
      ensures this.size == size && this.isBigEndian == isBigEndian
    {
      this.size := size;
      this.isBigEndian := isBigEndian;
      memo := new Byte[4 * size];
    }

    predicate Valid() {
      memo.Length == 4 * size
    }

    function View(): (m: Memory.Mem)
      reads memo
      ensures |m.bytes| == memo.Length && m.big == isBigEndian
    {
      Memory.Mem(memo[..], isBigEndian)
    }

    method ReadByte(address: Word) returns (r: Option<Byte>)
      requires Valid()
      ensures r == Memory.ReadByte(View(), address)
    {
      if address / 4 >= size { return None; }
      var value: Word := memo[address];
      if !isBigEndian { value := Memory.ReverseEndianess(value, 8); }
      return Some(value % 0x100);
    }

    method ReadHalf(address: Word) returns (r: Option<Half>)
      requires Valid()
      ensures r == Memory.ReadHalf(View(), address)
    {
      if address / 4 >= size || address % 4 > 2 { return None; }
      var value: Word := memo[address] as int * 0x100 + memo[address + 1];
      Memory.Pow256Values();
      if !isBigEndian { value := Memory.ReverseEndianess(value, 16); }
      return Some(value);
    }

    method ReadWord(address: Word) returns (r: Option<Word>)
      requires Valid()
      ensures r == Memory.ReadWord(View(), address)
    {
      if address / 4 >= size || address % 4 > 0 { return None; }
      var value: Word := memo[address] as int * 0x100_0000 + memo[address + 1] as int * 0x1_0000
                       + memo[address + 2] as int * 0x100 + memo[address + 3];
      if !isBigEndian { value := Memory.ReverseEndianess(value, 32); }
      return Some(value);
    }

    method WriteByte(address: Word, value: Byte) returns (code: int)
      requires Valid()
      modifies memo
      ensures View() == Memory.WriteByte(old(View()), address, value)
      ensures code == if Memory.Accepts(old(View()), address, 1) then 0 else -1
    {
      if address / 4 >= size { return -1; }
      var v: Word := value;
      if !isBigEndian { v := Memory.ReverseEndianess(v, 8); }
      Memory.Pow256Values();
      memo[address] := v;
      return 0;
    }

    method WriteHalf(address: Word, value: Half) returns (code: int)
      requires Valid()
      modifies memo
      ensures View() == Memory.WriteHalf(old(View()), address, value)
      ensures code == if Memory.Accepts(old(View()), address, 2) then 0 else -1
    {
      if address / 4 >= size || address % 4 > 2 { return -1; }
      var v: Word := value;
      if !isBigEndian { v := Memory.ReverseEndianess(v, 16); }
      Memory.Pow256Values();
      memo[address] := v / 0x100;
      memo[address + 1] := v % 0x100;
      return 0;
    }

    method WriteWord(address: Word, value: Word) returns (code: int)
      requires Valid()
      modifies memo
      ensures View() == Memory.WriteWord(old(View()), address, value)
      ensures code == if Memory.Accepts(old(View()), address, 4) then 0 else -1
    {
      if address / 4 >= size || address % 4 > 0 { return -1; }
      var v := value;
      if !isBigEndian { v := Memory.ReverseEndianess(v, 32); }
      memo[address] := v / 0x100_0000;
      memo[address + 1] := (v / 0x1_0000) % 0x100;
      memo[address + 2] := (v / 0x100) % 0x100;
      memo[address + 3] := v % 0x100;
      return 0;
    }
  }

  class RegistersData {
    const regs: array<Word>
    var cpsr: Word

    constructor ()
      ensures Valid() && fresh(regs)
    {
      regs := new Word[16];
      cpsr := 0;
    }

    predicate Valid() {
      regs.Length == 16
    }
  }

  class ArmCore {
    const reg: RegistersData
    const mem: MemoryData

    /** Creation ends with a RESET exception. */
    constructor (mem: MemoryData)
      requires mem.Valid()
      ensures Valid() && this.mem == mem && fresh(reg) && fresh(reg.regs)
      ensures View().cpsr == Instruction.RESET_CPSR && View().regs[15] == 0
      ensures View().mem == mem.View()
    {
      this.mem := mem;
      reg := new RegistersData();
      new;
      ArmException(Instruction.RESET);
    }

    ghost predicate Valid() {
      reg.Valid() && mem.Valid() && reg.regs as object != mem.memo
    }

    function View(): Registers.State
      requires Valid()
      reads reg, reg.regs, mem.memo
    {
      Registers.State(reg.regs[..], reg.cpsr, mem.View())
    }

    // ----- registers -----

    method ReadUsrRegister(r: nat) returns (value: Word)
      requires Valid() && r < 16
      ensures value == Registers.ReadReg(View(), r)
    {
      value := reg.regs[r];
      if r == 15 {
        value := Wrap(4 + value as int);
        value := AndW(value, 0xFFFF_FFFD);
      }
    }

    method WriteUsrRegister(r: nat, value: Word)
      requires Valid() && r < 16
      modifies reg.regs
      ensures View() == Registers.WriteReg(old(View()), r, value)
    {
      reg.regs[r] := value;
    }

    method WriteCpsr(value: Word)
      requires Valid()
      modifies reg
      ensures View() == old(View()).(cpsr := value)
    {
      reg.cpsr := value;
    }

    // ----- data processing -----

    /** The results of `SetOneBit` are computed and dropped. */
    method WriteFlags(rdest: Byte, flagC: Byte, flagV: Byte, beyond: Word)
      requires Valid()
      modifies reg
      ensures var s := old(View());
              View() == s.(cpsr := Flags.WriteFlags(s.cpsr, Registers.Numbered(s, rdest, beyond), flagC, flagV))
    {
      var value := beyond;
      if rdest < 16 { value := ReadUsrRegister(rdest); }
      var newCpsr := reg.cpsr;
      var _ := SetOneBit(newCpsr, N, Shr(value, 31) % 2);
      var _ := SetOneBit(newCpsr, Z, if value == 0 then 1 else 0);
      if flagC != KEEP { var _ := SetOneBit(newCpsr, C, flagC); }
      if flagV != KEEP { var _ := SetOneBit(newCpsr, V, flagV); }
      WriteCpsr(newCpsr);
    }

    method UpdateFlags(rdest: nat, sBit: nat, flagC: Byte, flagV: Byte, beyond: Word)
      requires Valid() && rdest < 16
      modifies reg
      ensures View() == DataProcessing.UpdateFlags(old(View()), rdest, sBit, flagC, flagV)
    {
      if sBit == 1 && rdest == 15 {
      } else if sBit == 1 {
        WriteFlags(rdest, flagC, flagV, beyond);
      }
    }

    method TraitementAR(mot: Word, flagC: Flag, stale: Registers.Stale)
      requires Valid() && flagC == FlagC(View().cpsr)
      modifies reg, reg.regs
      ensures View() == DataProcessing.DataProcess(old(View()), mot, stale)
    {
      hide Shifter.UpdateShifterOperand, DataProcessing.CodeAlu, DataProcessing.CodeFlagC, DataProcessing.CodeFlagV,
        Registers.ReadReg;
      var op, rn, rd := DataProcessing.OpCode(mot), Registers.Rn(mot), Registers.Rd(mot);
      var so := mot % 0x1000;
      var rm := ReadUsrRegister(so % 16);
      var operand := Shifter.UpdateShifterOperand(rm, rd, so, Registers.IBit(mot), flagC, stale.carry);
      var source := ReadUsrRegister(rn);
      var value := DataProcessing.CodeAlu(op, source, operand.value, flagC);
      if 8 <= op <= 11 {
        WriteFlags(value % 0x100, DataProcessing.CodeFlagC(op, source, operand.value, operand.carry, flagC),
                   DataProcessing.CodeFlagV(op, source, operand.value, value, flagC), stale.word);
      } else {
        WriteUsrRegister(rd, value);
        source := ReadUsrRegister(rn);
        UpdateFlags(DataProcessing.SBit(mot), rd,
                    DataProcessing.CodeFlagC(op, source, operand.value, operand.carry, flagC),
                    DataProcessing.CodeFlagV(op, source, operand.value, value, flagC), stale.word);
      }
    }

    // ----- single transfers -----

    method LdrLdrb(b: Flag, temp: Word, rd: nat, rn: nat, stale: Word)
      requires Valid() && rd < 16 && rn < 16
      modifies reg.regs
      ensures View() == LoadStore.LdrLdrb(old(View()), b, temp, rd, rn, stale)
    {
      if b == 1 {
        var r := mem.ReadByte(temp);
        WriteUsrRegister(rd, LoadStore.Loaded(r, stale % 0x100));
      } else {
        var r := mem.ReadWord(temp);
        var motaecrire := LoadStore.Loaded(r, stale);
        if rd == 15 {
          WriteUsrRegister(15, AndW(motaecrire, 0xFFFF_FFFE));
        } else {
          WriteUsrRegister(rd, motaecrire);
        }
      }
      WriteUsrRegister(rn, temp);
    }

    method StrStrb(b: Flag, temp: Word, rd: nat)
      requires Valid() && rd < 16
      modifies mem.memo
      ensures View() == LoadStore.StrStrb(old(View()), b, temp, rd)
    {
      hide Registers.ReadReg, Memory.WriteByte, Memory.WriteWord;
      var motaecrire := ReadUsrRegister(rd);
      if b == 1 {
        var _ := mem.WriteByte(temp, motaecrire % 0x100);
      } else {
        var _ := mem.WriteWord(temp, motaecrire);
      }
    }

    method ArmLoadStore(ins: Word, stale: Word)
      requires Valid()
      modifies reg.regs, mem.memo
      ensures View() == LoadStore.LoadStore(old(View()), ins, stale)
    {
      hide LoadStore.LdrLdrb, LoadStore.StrStrb, LoadStore.Moved, LoadStore.CodeScaled, Registers.ReadReg;
      var rn, rd := Registers.Rn(ins), Registers.Rd(ins);
      var base := ReadUsrRegister(rn);
      var offset: Word := ins % 0x1000;
      var i := Registers.IBit(ins);
      if i == 1 {
        var rm := ReadUsrRegister(LoadStore.Rm(ins));
        offset := LoadStore.CodeScaled(Shifter.TypeOf((ins / 32) % 4), rm, (ins / 128) % 32);
      }
      var temp := LoadStore.Moved(base, LoadStore.UBit(ins), offset);
      if LoadStore.LBit(ins) == 1 {
        LdrLdrb(LoadStore.BBit(ins), temp, rd, rn, stale);
        if i == 0 && LoadStore.PBit(ins) == 1 && LoadStore.WBit(ins) == 1 { WriteUsrRegister(rn, temp); }
      } else {
        StrStrb(LoadStore.BBit(ins), temp, rd);
        if i == 0 && (LoadStore.PBit(ins) == 0 || LoadStore.WBit(ins) == 1) { WriteUsrRegister(rn, temp); }
      }
    }

    method ArmLoadStoreH(ins: Word, stale: Word)
      requires Valid()
      modifies reg.regs, mem.memo
      ensures View() == LoadStore.LoadStoreHalf(old(View()), ins, stale)
    {
      hide LoadStore.Moved, Registers.ReadReg, Memory.ReadHalf, Memory.WriteHalf;
      var rn, rd := Registers.Rn(ins), Registers.Rd(ins);
      var base := ReadUsrRegister(rn);
      var rm := ReadUsrRegister(LoadStore.Rm(ins));
      var offset: Word := if LoadStore.BBit(ins) == 1 then ((ins / 256) % 16) * 16 + ins % 16 else rm;
      var address := LoadStore.Moved(base, LoadStore.UBit(ins), offset);
      if LoadStore.LBit(ins) == 1 {
        var r := mem.ReadHalf(address);
        WriteUsrRegister(rd, LoadStore.Loaded(r, stale % 0x1_0000));
      } else {
        var value := ReadUsrRegister(rd);
        var _ := mem.WriteHalf(address, value % 0x1_0000);
      }
      if LoadStore.Writeback(ins) { WriteUsrRegister(rn, address); }
    }

    // ----- multiple transfers -----

    method ArmLoadStoreMultiple(b: LoadStoreMultiple.Block, stale: Word) returns (result: int)
      requires Valid() && b.rn < 16
      modifies reg.regs, mem.memo
      ensures (View(), result) == LoadStoreMultiple.Transfer(old(View()), b, stale)
    {
      hide LoadStoreMultiple.InitAddresses, LoadStoreMultiple.ArmWriteback, Registers.ReadReg, Memory.ReadWord,
        Memory.WriteWord;
      var n := LoadStoreMultiple.NumberOfRegisters(b.list);
      LoadStoreMultiple.CountIsCardinality(b.list, 15);
      var base := ReadUsrRegister(b.rn);
      var (start, end) := LoadStoreMultiple.InitAddresses(base, b.mode, b.list);
      if b.writeback { WriteUsrRegister(b.rn, LoadStoreMultiple.ArmWriteback(base, b.mode, n)); }
      var address: Word;
      if b.load { address := LoadRegisters(b.list, start, stale); } else { address := StoreRegisters(b.list, start); }
      result := if end != Wrap(address - 4) then 1 else 0;
    }

    method LoadRegisters(list: Half, start: Word, stale: Word) returns (address: Word)
      requires Valid()
      modifies reg.regs
      ensures var (s, last, value) := LoadStoreMultiple.LoadLoop(old(View()), list, 0, start, stale);
              && address == last
              && View() == if Bit(list, 15) == 1 then
                             var pc := LoadStore.Loaded(Memory.ReadWord(s.mem, last), value);
                             Registers.WriteReg(s, 15, AndW(pc, 0xFFFF_FFFE))
                           else s
    {
      hide Memory.ReadWord, AndW, Wrap;
      address := start;
      var value := stale;
      for i := 0 to 15
        invariant LoadStoreMultiple.LoadLoop(View(), list, i, address, value)
               == LoadStoreMultiple.LoadLoop(old(View()), list, 0, start, stale)
      {
        BitIsShift(list, i);
        if (list / Pow2(i)) % 2 == 1 {
          var r := mem.ReadWord(address);
          value := LoadStore.Loaded(r, value);
          WriteUsrRegister(i, value);
          address := Wrap(address + 4);
        }
      }
      BitIsShift(list, 15);
      if (list / Pow2(15)) % 2 == 1 {
        var r := mem.ReadWord(address);
        value := LoadStore.Loaded(r, value);
        WriteUsrRegister(15, AndW(value, 0xFFFF_FFFE));
      }
    }

    method StoreRegisters(list: Half, start: Word) returns (address: Word)
      requires Valid()
      modifies mem.memo
      ensures (View(), address) == LoadStoreMultiple.StoreLoop(old(View()), list, 0, start)
    {
      hide Memory.WriteWord, Wrap, Registers.ReadReg;
      address := start;
      for i := 0 to 15
        invariant LoadStoreMultiple.StoreLoop(View(), list, i, address)
               == LoadStoreMultiple.StoreLoop(old(View()), list, 0, start)
      {
        BitIsShift(list, i);
        if (list / Pow2(i)) % 2 == 1 {
          var value := ReadUsrRegister(i);
          var _ := mem.WriteWord(address, value);
          address := Wrap(address + 4);
        }
      }
    }

    // ----- branch -----

    method BBlInstr(ins: Word)
      requires Valid()
      modifies reg.regs
      ensures View() == Branch.BranchLink(old(View()), ins)
    {
      hide Registers.ReadReg, Wrap, Shl, Or;
      var si := Branch.OffsetField(ins);
      var pc := ReadUsrRegister(15);
      if Branch.LinkBit(ins) == 1 { WriteUsrRegister(14, pc); }
      var se: Word;
      if (si / 0x80_0000) % 2 == 1 {
        Branch.ExtendFits(si);
        se := Shl(Or(si, 0x3F00_0000), 2);
      } else {
        se := Shl(si, 2);
      }
      WriteUsrRegister(15, Wrap(pc as int + se));
    }

    // ----- step -----

    method ArmFetch() returns (mot: Word)
      requires Valid()
      modifies reg.regs
      ensures View() == Instruction.AfterFetch(old(View())) && mot == Instruction.Fetched(old(View()))
    {
      hide Registers.ReadReg, Memory.ReadWord, Wrap;
      mot := reg.cpsr;
      var pc := ReadUsrRegister(15);
      var address := Wrap(pc as int - 4);
      var r := mem.ReadWord(address);
      mot := LoadStore.Loaded(r, mot);
      WriteUsrRegister(15, Wrap(address as int + 4));
    }

    method SelectExecuteInstruction(mot: Word, flagC: Flag, stale: Registers.Stale) returns (result: int)
      requires Valid() && flagC == FlagC(View().cpsr)
      modifies reg, reg.regs, mem.memo
      ensures (View(), result) == Instruction.SelectExecute(old(View()), mot, stale)
    {
      hide DataProcessing.DataProcess, LoadStore.LoadStore, LoadStore.LoadStoreHalf, Branch.BranchLink;
      result := 0;
      match Instruction.TypeField(mot)
      case 0 =>
        if Instruction.HalfTransfer(mot) {
          ArmLoadStoreH(mot, stale.word);
        } else {
          TraitementAR(mot, flagC, stale);
        }
      case 1 => ArmLoadStore(mot, stale.word);
      case 2 => if Registers.IBit(mot) == 1 { BBlInstr(mot); }
      case _ =>
    }

    method ArmExecuteInstruction(stale: Registers.Stale) returns (result: int)
      requires Valid()
      modifies reg, reg.regs, mem.memo
      ensures (View(), result) == Instruction.ExecuteInstruction(old(View()), stale)
    {
      hide Instruction.SelectExecute, Instruction.Fetched, Instruction.AfterFetch, CheckCondFailed;
      var mot := ArmFetch();
      assert View().cpsr == old(View()).cpsr by { FetchKeepsCpsr(old(View())); }
      var cpsr := reg.cpsr;
      var failed := CheckCondFailed(FlagN(cpsr), FlagZ(cpsr), FlagV(cpsr), FlagC(cpsr), Instruction.CondField(mot));
      if failed != 0 { return 1; }
      result := SelectExecuteInstruction(mot, FlagC(cpsr), stale);
    }

    method ArmException(exception: int)
      requires Valid()
      modifies reg, reg.regs
      ensures View() == Instruction.Exception(old(View()), exception)
    {
      if exception == Instruction.RESET {
        WriteCpsr(Instruction.RESET_CPSR);
        WriteUsrRegister(15, 0);
      }
    }

    method ArmStep(stale: Registers.Stale) returns (result: int)
      requires Valid()
      modifies reg, reg.regs, mem.memo
      ensures (View(), result) == Instruction.Step(old(View()), stale)
    {
      hide Instruction.ExecuteInstruction, Instruction.Exception;
      result := ArmExecuteInstruction(stale);
      if result != 0 { ArmException(result); }
    }

    /** The debugger's continue command: it runs the steps before the first breakpoint, and reports
        what the last of them returned. `stales` bounds the turns of the loop. */
    method Cont(instruction: Word, targetException: int, stales: seq<Registers.Stale>) returns (exception: int)
      requires Valid()
      modifies reg, reg.regs, mem.memo
      ensures var s, k := old(View()), Debugger.Steps(old(View()), instruction, stales);
              && View() == Instruction.Run(s, stales[..k])
              && View().cpsr == (if Instruction.FailsDuring(s, stales[..k]) then Instruction.RESET_CPSR else s.cpsr)
              && exception == if k == 0 then targetException
                              else Instruction.Step(Instruction.Run(s, stales[..k - 1]), stales[k - 1]).1
    {
      hide Instruction.Step, Instruction.Run, Instruction.FailsDuring, Memory.ReadWord, Registers.ReadReg, And, Wrap;
      ghost var s := View();
      var seen, end, i := instruction, false, 0;
      exception := targetException;
      StartOfRun(s, stales);
      while !end && i < |stales|
        invariant 0 <= i <= |stales|
        invariant View() == Instruction.Run(s, stales[..i])
        invariant i + (if end then 0 else Debugger.Steps(View(), seen, stales[i..]))
               == Debugger.Steps(s, instruction, stales)
        invariant exception == if i == 0 then targetException
                               else Instruction.Step(Instruction.Run(s, stales[..i - 1]), stales[i - 1]).1
        decreases !end, |stales| - i
      {
        var pc := ReadUsrRegister(15);
        var r := mem.ReadWord(Wrap(pc as int - 4));
        seen := LoadStore.Loaded(r, seen);
        if And(seen, 0xFFF0_00F0) == 0xE7F0_00F0 {
          end := true;
        } else {
          assert stales[i..][1..] == stales[i + 1..];
          Instruction.RunLast(s, stales, i);
          exception := ArmStep(stales[i]);
          i := i + 1;
        }
      }
      Instruction.RunCpsr(s, stales[..i]);
    }
  }

  lemma StartOfRun(s: Registers.State, stales: seq<Registers.Stale>)
    ensures Instruction.Run(s, stales[..0]) == s && stales[0..] == stales
  {
  }

  lemma FetchKeepsCpsr(s: Registers.State)
    ensures Instruction.AfterFetch(s).cpsr == s.cpsr
  {
  }
}
