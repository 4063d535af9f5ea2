/**
 * The register file and its transfers as the processor object updates them, proved against
 * `BankedRegisters` and `BlockTransfer`.
 */
module ArmCore {
  import opened Basics
  import opened BankedRegisters
  import opened BlockTransfer

  class ArmCore {
    const arm7: bool
    const r: array<u32>
    const fiq: array<u32>
    const irq: array<u32>
    const svc: array<u32>
    const abt: array<u32>
    const und: array<u32>
    var cpsr: u32
    var mem: Memory

    constructor (arm7: bool)
      ensures Valid() && this.arm7 == arm7 && fresh(r) && fresh(fiq) && fresh(irq) && fresh(svc) && fresh(abt)
              && fresh(und)
    {
      this.arm7, cpsr, mem := arm7, 0xD3, map[];
      r := new u32[16](_ => 0);
      fiq := new u32[8](_ => 0);
      irq, svc, abt, und := new u32[3](_ => 0), new u32[3](_ => 0), new u32[3](_ => 0), new u32[3](_ => 0);
    }

    predicate Valid() {
      && r.Length == 16 && fiq.Length == 8 && irq.Length == svc.Length == abt.Length == und.Length == 3
      && r != fiq && r != irq && r != svc && r != abt && r != und
      && fiq != irq && fiq != svc && fiq != abt && fiq != und
      && irq != svc && irq != abt && irq != und && svc != abt && svc != und && abt != und
    }

    ghost function Registers(): State
      reads this, r, fiq, irq, svc, abt, und
    {
      State(r[..], fiq[..], irq[..], svc[..], abt[..], und[..], cpsr)
    }

    /** `std::swap` of registers 13 and 14 with the first two elements of a bank. */
    method SwapPair(bank: array<u32>)
      requires Valid() && bank.Length == 3 && bank != r
      modifies r, bank
      ensures r[..] == old(r[..])[13 := old(bank[0])][14 := old(bank[1])]
      ensures bank[..] == [old(r[13]), old(r[14]), old(bank[2])]
    {
      r[13], bank[0] := bank[0], r[13];
      r[14], bank[1] := bank[1], r[14];
    }

    /** The seven registers that the FIQ mode has of its own. */
    method SwapSeven()
      requires Valid()
      modifies r, fiq
      ensures r[..] == old(r[..8]) + old(fiq[..7]) + old(r[15..])
      ensures fiq[..] == old(r[8..15]) + old(fiq[7..])
    {
      for k := 0 to 7
        invariant forall i :: 0 <= i < 16 ==> r[i] == if 8 <= i < 8 + k then old(fiq[i - 8]) else old(r[i])
        invariant forall i :: 0 <= i < 8 ==> fiq[i] == if i < k then old(r[i + 8]) else old(fiq[i])
      {
        r[8 + k], fiq[k] := fiq[k], r[8 + k];
      }
    }

    method SwapBank(mode: int)
      requires Valid()
      modifies r, fiq, irq, svc, abt, und
      ensures Registers() == Swap(old(Registers()), mode)
    {
      if mode == 0x11 {
        SwapSeven();
      } else if mode == 0x12 {
        SwapPair(irq);
      } else if mode == 0x13 {
        SwapPair(svc);
      } else if mode == 0x17 {
        SwapPair(abt);
      } else if mode == 0x1B {
        SwapPair(und);
      }
    }

    method UpdateMode(oldMode: u32, newMode: u32)
      requires Valid()
      modifies r, fiq, irq, svc, abt, und
      ensures Registers() == BankedRegisters.UpdateMode(old(Registers()), ModeOf(oldMode), ModeOf(newMode))
    {
      hide Swap;
      if ModeOf(oldMode) == ModeOf(newMode) {
        return;
      }
      SwapBank(ModeOf(oldMode));
      SwapBank(ModeOf(newMode));
    }

    method RestoreCPSR()
      requires Valid()
      modifies this`cpsr, r, fiq, irq, svc, abt, und
      ensures Registers() == BankedRegisters.RestoreCPSR(old(Registers()))
    {
      hide BankedRegisters.UpdateMode, Bit4;
      var oldcpsr := cpsr;
      var mode := ModeOf(cpsr);
      if mode == 0x11 {
        cpsr := fiq[7];
      } else if mode == 0x12 {
        cpsr := irq[2];
      } else if mode == 0x13 {
        cpsr := svc[2];
      } else if 0x14 <= mode <= 0x17 {
        cpsr := abt[2];
      } else if 0x18 <= mode <= 0x1B {
        cpsr := und[2];
      }
      cpsr := WithBit4(cpsr);
      UpdateMode(oldcpsr, cpsr);
    }

    method TriggerIRQ(exceptionBase: u32)
      requires Valid()
      modifies this`cpsr, r, fiq, irq, svc, abt, und
      ensures Registers() == BankedRegisters.TriggerIRQ(old(Registers()), exceptionBase)
    {
      hide BankedRegisters.UpdateMode, Wrap, ThumbOf, IrqMasked;
      if IrqMasked(cpsr) {
        return;
      }
      var oldcpsr := cpsr;
      cpsr := cpsr / 256 * 256 + 0xD2;
      UpdateMode(oldcpsr, cpsr);
      irq[2] := oldcpsr;
      r[14] := Add(r[15], if ThumbOf(oldcpsr) then 2 else 0);
      JumpTo(Add(exceptionBase, 0x18));
    }

    method JumpTo(addr: u32)
      requires Valid()
      modifies this`cpsr, r
      ensures Registers() == BankedRegisters.JumpTo(old(Registers()), addr)
    {
      hide Wrap, ThumbOf;
      if addr % 2 == 1 {
        r[15] := Add(addr, 1);
        cpsr := WithThumb(cpsr, true);
      } else {
        r[15] := Add(addr - addr % 4, 4);
        cpsr := WithThumb(cpsr, false);
      }
    }

    // ---------------------------------------------------------------- block transfers

    ghost function Whole(): Machine
      reads this, r, fiq, irq, svc, abt, und
    {
      Machine(Registers(), mem)
    }

    /** The descending forms count the base down, four for every listed register. */
    static method Lowered(list: set<Reg>, base0: u32) returns (base: u32)
      ensures base == Wrap(base0 - 4 * Rank(list, 16))
    {
      base := base0;
      for i := 0 to 16
        invariant base == Wrap(base0 - 4 * Rank(list, i))
      {
        var reg: Reg := i;
        if reg in list {
          WrapTwice(base0 - 4 * Rank(list, i), -4);
          base := Add(base, -4);
        }
      }
    }

    method A_STM(instr: Instr)
      requires Valid()
      modifies this`mem, r, fiq, irq, svc, abt, und
      ensures Whole() == Stm(old(Whole()), instr, arm7)
    {
      hide BankedRegisters.UpdateMode, StoreFrom, Wrap, BaseIsBanked, Rank;
      var oldbase := r[instr.baseid];
      var base := oldbase;
      if !instr.up {
        base := Lowered(instr.list, base);
        if instr.writeback {
          r[instr.baseid] := base;
        }
      }
      UserMode(cpsr);
      if instr.user {
        UpdateMode(cpsr, cpsr / 32 * 32 + USR);
      }
      base := StoreRegisters(instr, BaseIsBanked(instr, ModeOf(cpsr)), oldbase, base);
      if instr.user {
        UpdateMode(cpsr / 32 * 32 + USR, cpsr);
      }
      if instr.up && instr.writeback {
        r[instr.baseid] := base;
      }
    }

    /** The loop of `A_STM`. */
    method StoreRegisters(instr: Instr, banked: bool, oldbase: u32, base0: u32) returns (base: u32)
      requires Valid()
      modifies this`mem
      ensures (mem, base) == StoreFrom(Registers(), instr, arm7, banked, oldbase, old(mem), base0, 0)
    {
      hide Wrap, Add, StoredValue;
      base := base0;
      ghost var s := Registers();
      for i := 0 to 16
        invariant StoreFrom(s, instr, arm7, banked, oldbase, mem, base, i)
                  == StoreFrom(s, instr, arm7, banked, oldbase, old(mem), base0, 0)
      {
        var reg: Reg := i;
        if reg in instr.list {
          var addr := Add(base, if Preinc(instr) then 4 else 0);
          var value := Value(instr, banked, oldbase, addr, reg);
          mem := WriteWord(mem, addr, value);
          base := Add(base, 4);
        }
      }
    }

    method Value(instr: Instr, banked: bool, oldbase: u32, addr: u32, i: Reg) returns (value: u32)
      requires Valid()
      ensures value == StoredValue(Registers(), instr, arm7, banked, oldbase, addr, i)
    {
      if i == instr.baseid && !banked {
        value := if !arm7 || Rank(instr.list, i) == 0 then oldbase else addr;
      } else {
        value := r[i];
      }
    }

    /** The loop of `A_LDM` over registers 0 to 14. */
    method LoadRegisters(instr: Instr, base0: u32) returns (base: u32)
      requires Valid()
      modifies r
      ensures (Registers(), base) == LoadFrom(old(Registers()), instr, mem, base0, 0)
    {
      hide Wrap, Add;
      base := base0;
      for i := 0 to 15
        invariant LoadFrom(Registers(), instr, mem, base, i) == LoadFrom(old(Registers()), instr, mem, base0, 0)
      {
        var reg: Reg := i;
        if reg in instr.list {
          var addr := Add(base, if Preinc(instr) then 4 else 0);
          ghost var s := Registers();
          r[reg] := ReadWord(mem, addr);
          assert Registers() == s.(r := s.r[i := ReadWord(mem, addr)]);
          base := Add(base, 4);
        }
      }
    }

    /** The writeback of `A_LDM`; a base in the list keeps the loaded value on the ARM7. */
    method WriteBack(instr: Instr, wbbase: u32)
      requires Valid()
      modifies r
      ensures var s := old(Registers());
              Registers() == if instr.writeback && (instr.baseid !in instr.list || WritesListedBase(instr, arm7))
                             then s.(r := s.r[instr.baseid := wbbase]) else s
    {
      ghost var s := Registers();
      if instr.writeback {
        if instr.baseid in instr.list {
          if !arm7 && (instr.list == {instr.baseid} || exists j <- instr.list :: j > instr.baseid) {
            r[instr.baseid] := wbbase;
            assert Registers() == s.(r := s.r[instr.baseid := wbbase]);
          }
        } else {
          r[instr.baseid] := wbbase;
          assert Registers() == s.(r := s.r[instr.baseid := wbbase]);
        }
      }
    }

    /** `A_LDM` up to its jump. */
    method LoadAndWriteBack(instr: Instr) returns (pc: u32)
      requires Valid()
      modifies r, fiq, irq, svc, abt, und
      ensures Registers() == LdmRegisters(old(Whole()), instr, arm7).0
      ensures 15 in instr.list ==> pc == PcWord(ReadWord(mem, LdmRegisters(old(Whole()), instr, arm7).1), arm7)
    {
      hide BankedRegisters.UpdateMode, LoadFrom, Wrap, Add, Rank, ReadWord, WritesListedBase, PcWord;
      pc := 0;
      var base := r[instr.baseid];
      if !instr.up {
        base := Lowered(instr.list, base);
      }
      var wbbase := base;
      UserMode(cpsr);
      if instr.user && 15 !in instr.list {
        UpdateMode(cpsr, cpsr / 32 * 32 + USR);
      }
      base := LoadRegisters(instr, base);
      if 15 in instr.list {
        pc := PcWord(ReadWord(mem, Add(base, if Preinc(instr) then 4 else 0)), arm7);
        base := Add(base, 4);
      }
      if instr.up {
        wbbase := base;
      }
      WriteBack(instr, wbbase);
      if instr.user && 15 !in instr.list {
        UpdateMode(cpsr / 32 * 32 + USR, cpsr);
      }
    }

    method A_LDM(instr: Instr)
      requires Valid()
      modifies this`cpsr, r, fiq, irq, svc, abt, und
      ensures Whole() == Ldm(old(Whole()), instr, arm7)
    {
      hide LdmRegisters, ReadWord, PcWord, BankedRegisters.JumpTo, BankedRegisters.JumpRestoring;
      var pc := LoadAndWriteBack(instr);
      if 15 in instr.list {
        JumpToRestoring(pc, instr.user);
      }
    }

    /** `JumpTo` with its second parameter. */
    method JumpToRestoring(addr0: u32, restorecpsr: bool)
      requires Valid()
      modifies this`cpsr, r, fiq, irq, svc, abt, und
      ensures Registers() == if restorecpsr then JumpRestoring(old(Registers()), addr0)
                             else BankedRegisters.JumpTo(old(Registers()), addr0)
    {
      hide BankedRegisters.RestoreCPSR, BankedRegisters.JumpTo, ThumbOf;
      var addr := addr0;
      if restorecpsr {
        RestoreCPSR();
        addr := WithBit0(addr, ThumbOf(cpsr));
      }
      JumpTo(addr);
    }

    // ---------------------------------------------------------------- the Thumb forms

    /** `T_PUSH` is `STMDB R13!` of its list. */
    method T_PUSH(list: set<Reg>, lr: bool)
      requires Valid() && forall i <- list :: i < 8
      modifies this`mem, r
      ensures Whole() == Stm(old(Whole()), PushInstr(13, if lr then list + {14} else list), arm7)
    {
      hide Wrap, Rank, StoreFrom;
      var all: set<Reg> := if lr then list + {14} else list;
      ghost var instr := PushInstr(13, all);
      var nregs := CountLow(list, all);
      if lr {
        nregs := nregs + 1;
      }
      PushCount(list, lr);
      var base := Wrap(r[13] - 4 * nregs);
      ghost var oldbase := r[13];
      r[13] := base;
      ghost var s, base0 := Registers(), base;
      for i := 0 to 8
        invariant Registers() == s
        invariant StoreFrom(s, instr, arm7, false, oldbase, mem, base, i)
                  == StoreFrom(s, instr, arm7, false, oldbase, old(mem), base0, 0)
      {
        var reg: Reg := i;
        StoreStep(s, instr, arm7, oldbase, mem, base, i);
        if reg in list {
          mem := WriteWord(mem, base, r[i]);
          base := Add(base, 4);
        }
      }
      NothingBetween(s, instr, arm7, oldbase, mem, base);
      StoreStep(s, instr, arm7, oldbase, mem, base, 14);
      if lr {
        mem := WriteWord(mem, base, r[14]);
        base := Add(base, 4);
      }
      StoreEnd(s, instr, arm7, oldbase, mem, base);
    }

    static method CountLow(list: set<Reg>, ghost all: set<Reg>) returns (n: nat)
      requires forall i: Reg :: i < 8 ==> (i in all <==> i in list)
      ensures n == Rank(all, 8)
    {
      n := 0;
      for i := 0 to 8
        invariant n == Rank(all, i)
      {
        var reg: Reg := i;
        if reg in list {
          n := n + 1;
        }
      }
    }

    /** The loop of `T_POP`. */
    method PopRegisters(list: set<Reg>, ghost instr: Instr) returns (base: u32)
      requires Valid() && !Preinc(instr) && (forall i <- list :: i < 8)
               && (instr.list == list || instr.list == list + {15})
      modifies r
      ensures (Registers(), base) == LoadFrom(old(Registers()), instr, mem, old(r[13]), 0)
    {
      hide Wrap, LoadFrom, Add, ReadWord;
      base := r[13];
      ghost var base0 := base;
      for i := 0 to 8
        invariant LoadFrom(Registers(), instr, mem, base, i) == LoadFrom(old(Registers()), instr, mem, base0, 0)
      {
        var reg: Reg := i;
        ghost var s := Registers();
        LoadStep(s, instr, mem, base, i);
        if reg in list {
          r[i] := ReadWord(mem, base);
          assert Registers() == s.(r := s.r[i := ReadWord(mem, base)]);
          base := Add(base, 4);
        }
      }
      LoadEnd(Registers(), instr, mem, base);
    }

    /** `T_POP` is `LDMIA R13!` of its list but for the state that an ARM7 goes on in. */
    method T_POP(list: set<Reg>, pc: bool)
      requires Valid() && forall i <- list :: i < 8
      modifies this`cpsr, r
      ensures Whole() == Pop(old(Whole()), list, pc, arm7)
    {
      hide Wrap, Rank, LoadFrom, ReadWord, WithBit0, BankedRegisters.JumpTo;
      ghost var instr := PopInstr(13, if pc then list + {15} else list);
      var base := PopRegisters(list, instr);
      ghost var loaded := Registers();
      AheadNone(base);
      if pc {
        var word := ReadWord(mem, base);
        var target := if arm7 then WithBit0(word, true) else word;
        JumpTo(target);
        base := Add(base, 4);
        JumpThenBase(loaded, target, base);
      }
      ghost var jumped := Registers();
      r[13] := base;
      assert Registers() == jumped.(r := jumped.r[13 := base]);
    }
  }

  /** Writing the stack pointer back after the jump is the same as before it. */
  lemma JumpThenBase(s: State, addr: u32, base: u32)
    requires s.Valid()
    ensures BankedRegisters.JumpTo(s.(r := s.r[13 := base]), addr)
            == var t := BankedRegisters.JumpTo(s, addr); t.(r := t.r[13 := base])
  {
  }

  lemma UserMode(cpsr: u32)
    ensures 0 <= cpsr / 32 * 32 + USR < 0x1_0000_0000 && ModeOf(cpsr / 32 * 32 + USR) == USR
  {
  }

  lemma PushCount(list: set<Reg>, lr: bool)
    requires forall i <- list :: i < 8
    ensures var all: set<Reg> := if lr then list + {14} else list;
            Rank(all, 16) == Rank(all, 8) + if lr then 1 else 0
  {
    var all: set<Reg> := if lr then list + {14} else list;
    assert Rank(all, 12) == Rank(all, 10) == Rank(all, 8);
    assert Rank(all, 14) == Rank(all, 12);
  }

  /** One step of the storing loop of a push. */
  lemma StoreStep(s: State, instr: Instr, arm7: bool, oldbase: u32, mem: Memory, base: u32, i: Reg)
    requires s.Valid() && !Preinc(instr) && instr.baseid !in instr.list
    ensures StoreFrom(s, instr, arm7, false, oldbase, mem, base, i)
            == if i in instr.list then
                 StoreFrom(s, instr, arm7, false, oldbase, WriteWord(mem, base, s.r[i]), Add(base, 4), i + 1)
               else StoreFrom(s, instr, arm7, false, oldbase, mem, base, i + 1)
  {
    AheadNone(base);
  }

  lemma NothingBetween(s: State, instr: Instr, arm7: bool, oldbase: u32, mem: Memory, base: u32)
    requires s.Valid() && !Preinc(instr) && instr.baseid !in instr.list
    requires forall i <- instr.list :: i < 8 || i == 14
    ensures StoreFrom(s, instr, arm7, false, oldbase, mem, base, 8)
            == StoreFrom(s, instr, arm7, false, oldbase, mem, base, 14)
  {
    hide StoreFrom;
    for i := 8 to 14
      invariant StoreFrom(s, instr, arm7, false, oldbase, mem, base, 8)
                == StoreFrom(s, instr, arm7, false, oldbase, mem, base, i)
    {
      StoreStep(s, instr, arm7, oldbase, mem, base, i);
    }
  }

  lemma StoreEnd(s: State, instr: Instr, arm7: bool, oldbase: u32, mem: Memory, base: u32)
    requires s.Valid() && 15 !in instr.list
    ensures StoreFrom(s, instr, arm7, false, oldbase, mem, base, 15) == (mem, base)
  {
  }

  /** One step of the loading loop of a pop. */
  lemma LoadStep(s: State, instr: Instr, mem: Memory, base: u32, i: Reg)
    requires s.Valid() && !Preinc(instr) && i < 15
    ensures LoadFrom(s, instr, mem, base, i)
            == if i in instr.list then LoadFrom(s.(r := s.r[i := ReadWord(mem, base)]), instr, mem, Add(base, 4), i + 1)
               else LoadFrom(s, instr, mem, base, i + 1)
  {
    AheadNone(base);
  }

  lemma LoadEnd(s: State, instr: Instr, mem: Memory, base: u32)
    requires s.Valid() && !Preinc(instr) && forall i <- instr.list :: i < 8 || i == 15
    ensures LoadFrom(s, instr, mem, base, 8) == (s, base)
  {
    hide LoadFrom;
    for i := 8 to 15
      invariant LoadFrom(s, instr, mem, base, 8) == LoadFrom(s, instr, mem, base, i)
    {
      LoadStep(s, instr, mem, base, i);
    }
    LoadDone(s, instr, mem, base);
  }

  lemma LoadDone(s: State, instr: Instr, mem: Memory, base: u32)
    requires s.Valid()
    ensures LoadFrom(s, instr, mem, base, 15) == (s, base)
  {
  }
}
