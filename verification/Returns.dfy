/** Returning by a block load: from a call, and from an interrupt. */
module Returns {
  import opened Basics
  import opened BankedRegisters
  import opened BlockTransfer

  lemma {:induction false} SameRank(list: set<Reg>, i: nat)
    requires 14 !in list && 15 !in list && i <= 14
    ensures Rank(list + {14}, i) == Rank(list, i) == Rank(list + {15}, i)
  {
    if i > 0 {
      SameRank(list, i - 1);
    }
  }

  /** The list pushed with the link register and popped with the program counter: one for one. */
  lemma SavedRanks(list: set<Reg>)
    requires 14 !in list && 15 !in list
    ensures Rank(list + {14}, 14) == Rank(list + {15}, 15) && Rank(list + {14}, 16) == Rank(list + {15}, 16)
  {
    SameRank(list, 14);
    var (a, b) := (list + {14}, list + {15});
    assert Rank(a, 15) == Rank(a, 14) + 1 && Rank(a, 16) == Rank(a, 15);
    assert Rank(b, 15) == Rank(b, 14) && Rank(b, 16) == Rank(b, 15) + 1;
  }

  /** A later machine in the same mode, with the memory and the base register that a push left. */
  predicate After(saved: Machine, push: Instr, arm7: bool, later: Machine)
    requires saved.s.Valid()
  {
    && later.s.Valid() && ModeOf(later.s.cpsr) == ModeOf(saved.s.cpsr)
    && later.mem == Stm(saved, push, arm7).mem
    && later.s.r[push.baseid] == Stm(saved, push, arm7).s.r[push.baseid]
  }

  /** The form of the load that returns: with or without the bit that also restores the status. */
  function ReturnInstr(baseid: Reg, list: set<Reg>, user: bool): Instr {
    Instr(false, true, user, true, baseid, list + {15})
  }

  predicate Callee(baseid: Reg, list: set<Reg>) { baseid < 14 && baseid !in list && 14 !in list && 15 !in list }

  /** The lowest address of the pop is the lowest of the push, and the base comes back. */
  lemma PopLow(saved: Machine, arm7: bool, later: Machine, baseid: Reg, list: set<Reg>, user: bool)
    requires saved.s.Valid() && Callee(baseid, list) && After(saved, PushInstr(baseid, list + {14}), arm7, later)
    ensures Low(ReturnInstr(baseid, list, user), later.s.r[baseid])
            == Low(PushInstr(baseid, list + {14}), saved.s.r[baseid])
    ensures Ahead(later.s.r[baseid], Rank(list + {15}, 16)) == saved.s.r[baseid]
  {
    hide Stm, Rank, Wrap;
    var push := PushInstr(baseid, list + {14});
    StmBase(saved, push, arm7);
    SavedRanks(list);
    DownAndUp(saved.s.r[baseid], Rank(list + {14}, 16));
  }

  /**
   * Before the jump, the pop has brought back the pushed registers and the stack
   * pointer as the mode sees them, left every other register alone, and holds the
   * pushed link register as the word for the program counter.
   */
  lemma ReturnLoads(
    saved: Machine, arm7: bool, later: Machine, baseid: Reg, list: set<Reg>, user: bool, b: Bank, i: Reg)
    requires saved.s.Valid() && Callee(baseid, list) && After(saved, PushInstr(baseid, list + {14}), arm7, later)
    requires Has(b, i)
    ensures var mode := ModeOf(saved.s.cpsr);
            var (t, addr) := LdmRegisters(later, ReturnInstr(baseid, list, user), arm7);
            && Logical(t, mode, b, i)
               == (if (i in list || i == baseid) && b == BankOf(mode, i) then saved.s.r[i]
                   else Logical(later.s, mode, b, i))
            && ReadWord(later.mem, addr) == saved.s.r[14]
  {
    hide Stm, Rank, Wrap, Low, WordAt, Ahead, LdmRegisters, Logical;
    var (push, ret) := (PushInstr(baseid, list + {14}), ReturnInstr(baseid, list, user));
    var mode := ModeOf(saved.s.cpsr);
    PopLow(saved, arm7, later, baseid, list, user);
    LdmRegistersLoads(later, ret, arm7, b, i);
    SavedRanks(list);
    PushedWord(saved, arm7, push, 14);
    if i in list {
      SameRank(list, i);
      PushedWord(saved, arm7, push, i);
    }
  }

  /** The word that a push leaves for a register. */
  lemma PushedWord(saved: Machine, arm7: bool, push: Instr, i: Reg)
    requires saved.s.Valid() && !push.user && push.baseid !in push.list && i in push.list
    ensures ReadWord(Stm(saved, push, arm7).mem, Ahead(Low(push, saved.s.r[push.baseid]), Rank(push.list, i)))
            == saved.s.r[i]
  {
    hide Stm, Low, WordAt, Ahead, Logical;
    StmStores(saved, push, arm7, i);
    SeenByMode(saved.s, ModeOf(saved.s.cpsr), i);
    WordOfAhead(Low(push, saved.s.r[push.baseid]), Rank(push.list, i));
  }

  lemma JumpedTo(s: State, addr: u32, b: Bank, i: Reg)
    requires s.Valid() && Has(b, i) && i != 15
    ensures var t := JumpTo(s, addr);
            && t.r[15] == Target(addr) && (ThumbOf(t.cpsr) <==> addr % 2 == 1) && ModeOf(t.cpsr) == ModeOf(s.cpsr)
            && t.r[i] == s.r[i] && forall mode :: Logical(t, mode, b, i) == Logical(s, mode, b, i)
    ensures (addr % 2 == 1 <==> ThumbOf(s.cpsr)) ==> JumpTo(s, addr).cpsr == s.cpsr
  {
    hide Wrap;
    ThumbBit(s.cpsr, addr % 2 == 1);
  }

  lemma ThumbBit(cpsr: u32, thumb: bool)
    ensures ThumbOf(WithThumb(cpsr, thumb)) == thumb && ModeOf(WithThumb(cpsr, thumb)) == ModeOf(cpsr)
  {
    var q := cpsr / 32;
    assert cpsr == 32 * q + cpsr % 32;
    if ThumbOf(cpsr) != thumb {
      var d := if thumb then 1 else -1;
      assert WithThumb(cpsr, thumb) == 32 * (q + d) + cpsr % 32;
      assert WithThumb(cpsr, thumb) / 32 == q + d;
    }
  }

  /**
   * `PUSH {list, lr}`, whatever happens in between that keeps memory and the stack
   * pointer, `LDMIA sp!, {list, pc}`: the listed registers and the stack pointer are
   * back and execution goes on where the link register pointed.  An ARM9 takes the
   * state from bit 0 of that address; an ARM7 is always left in ARM state.
   */
  lemma CallReturns(saved: Machine, arm7: bool, later: Machine, baseid: Reg, list: set<Reg>, i: Reg)
    requires saved.s.Valid() && Callee(baseid, list) && After(saved, PushInstr(baseid, list + {14}), arm7, later)
    requires i in list || i == baseid
    ensures var t := Ldm(later, ReturnInstr(baseid, list, false), arm7).s;
            var lr := saved.s.r[14];
            && t.r[i] == saved.s.r[i] && t.r[15] == Target(PcWord(lr, arm7))
            && (ThumbOf(t.cpsr) <==> !arm7 && lr % 2 == 1)
  {
    hide Stm, Rank, Wrap, LdmRegisters, JumpTo, Target, ThumbOf, Logical, ReadWord, After;
    var mode := ModeOf(saved.s.cpsr);
    var ret := ReturnInstr(baseid, list, false);
    LaterMode(saved, arm7, later, PushInstr(baseid, list + {14}));
    var (s, addr) := LdmRegisters(later, ret, arm7);
    SeenByMode(s, mode, i);
    ReturnLoads(saved, arm7, later, baseid, list, false, BankOf(mode, i), i);
    JumpedTo(s, PcWord(saved.s.r[14], arm7), BankOf(mode, i), i);
  }

  /**
   * The same by `POP {list, pc}`: there an ARM7 always goes on in Thumb state, and an
   * ARM9 still follows bit 0.
   */
  lemma ThumbCallReturns(saved: Machine, arm7: bool, later: Machine, list: set<Reg>, i: Reg)
    requires saved.s.Valid() && Callee(13, list) && After(saved, PushInstr(13, list + {14}), arm7, later)
    requires i in list || i == 13
    ensures var t := Pop(later, list, true, arm7).s;
            var lr := saved.s.r[14];
            && t.r[i] == saved.s.r[i] && t.r[15] == Target(if arm7 then WithBit0(lr, true) else lr)
            && (ThumbOf(t.cpsr) <==> arm7 || lr % 2 == 1)
  {
    hide Stm, Rank, Wrap, LdmRegisters, JumpTo, Target, ThumbOf, Logical, ReadWord, After;
    var mode := ModeOf(saved.s.cpsr);
    var lr := saved.s.r[14];
    LaterMode(saved, arm7, later, PushInstr(13, list + {14}));
    var (s, addr) := LdmRegisters(later, PopInstr(13, list + {15}), arm7);
    SeenByMode(s, mode, i);
    ReturnLoads(saved, arm7, later, 13, list, false, BankOf(mode, i), i);
    assert PopInstr(13, list + {15}) == ReturnInstr(13, list, false);
    JumpedTo(s, if arm7 then WithBit0(lr, true) else lr, BankOf(mode, i), i);
  }

  /** What a handler may have done by the time it returns: anything to the registers that it saved. */
  ghost predicate Handled(entered: State, later: State, list: set<Reg>, status: u32)
    requires entered.Valid()
  {
    && later.Valid() && later.irq[2] == status
    && forall b, i: Reg :: b != IRQ && Has(b, i) && i != 15 && !(b.User? && i in list) ==>
         Logical(later, 0x12, b, i) == Logical(entered, 0x12, b, i)
  }

  function Less(a: int, n: int): u32 { Wrap(a - n) }

  /** `SUB lr, lr, #n`. */
  function LinkLowered(s: State, n: nat): (t: State)
    requires s.Valid()
    ensures t.Valid()
  {
    s.(r := s.r[14 := Less(s.r[14], n)])
  }

  /** Instructions sit on halfwords in Thumb state and on words otherwise. */
  predicate CounterAligned(s: State)
    requires s.Valid()
  {
    if ThumbOf(s.cpsr) then s.r[15] % 2 == 0 else s.r[15] % 4 == 0
  }

  /** Where the pushed link leads, in the state that is restored. */
  function Resumed(s: State, n: nat, arm7: bool): u32
    requires s.Valid()
  {
    Target(WithBit0(PcWord(Less(Link(s), n), arm7), ThumbOf(s.cpsr)))
  }

  /**
   * A whole interrupt: entry, `SUB lr, lr, #n`, `STMDB sp!, {list, lr}`, a handler
   * that may change the registers it saved, and `LDMIA sp!, {list, pc}^`.  Every
   * register of every mode but the IRQ's own is as it was, and the status register
   * is as it was if and only if its bit 4 was set.  Execution goes on in the
   * interrupted state n bytes before the interrupted program counter, which the
   * pipeline has 4 bytes ahead: with n = 4 exactly where it was interrupted.
   */
  lemma InterruptReturns(
    s: State, exceptionBase: u32, n: nat, mem: Memory, arm7: bool, later: Machine, list: set<Reg>)
    requires s.Valid() && !IrqMasked(s.cpsr) && exceptionBase % 4 == 0 && ModeOf(s.cpsr) != 0x12
    requires forall i <- list :: i < 13
    requires var entered := LinkLowered(TriggerIRQ(s, exceptionBase), n);
             && After(Machine(entered, mem), PushInstr(13, list + {14}), arm7, later)
             && Handled(entered, later.s, list, s.cpsr)
    ensures var t := Ldm(later, ReturnInstr(13, list, true), arm7).s;
            && (t.cpsr == s.cpsr <==> Bit4(s.cpsr))
            && (forall b, i: Reg :: b != IRQ && Has(b, i) && i != 15 ==>
                  Logical(t, ModeOf(t.cpsr), b, i) == Logical(s, ModeOf(s.cpsr), b, i))
            && (ThumbOf(t.cpsr) <==> ThumbOf(s.cpsr))
            && t.r[15] == Resumed(s, n, arm7)
            && (n == 4 && CounterAligned(s) ==> t.r[15] == s.r[15])
  {
    hide Stm, Rank, Wrap, Add, Less, Link, LdmRegisters, JumpTo, Target, ThumbOf, IrqMasked, Logical, ReadWord,
      TriggerIRQ, After, RestoreCPSR;
    var entry := TriggerIRQ(s, exceptionBase);
    var entered := LinkLowered(entry, n);
    var saved := Machine(entered, mem);
    var ret := ReturnInstr(13, list, true);
    var (h, addr) := LdmRegisters(later, ret, arm7);
    EntryKeeps(s, exceptionBase, User, 0);
    EntryLinks(s, exceptionBase);
    assert ModeOf(h.cpsr) == 0x12 by { LaterMode(saved, arm7, later, PushInstr(13, list + {14})); }
    forall b, i: Reg | b != IRQ && Has(b, i) && i != 15
      ensures Logical(h, 0x12, b, i) == Logical(entry, 0x12, b, i)
    {
      LoweredElsewhere(entry, n, b, i);
      ReturnLoads(saved, arm7, later, 13, list, true, b, i);
      SeenByMode(entered, 0x12, i);
      IrqBanks(i);
    }
    ReturnLoads(saved, arm7, later, 13, list, true, User, 0);
    InterruptRoundTrip(s, exceptionBase, h);
    RestoredState(s, h);
    var restored := RestoreCPSR(h);
    var pc := PcWord(entered.r[14], arm7);
    forall b, i: Reg | b != IRQ && Has(b, i) && i != 15
      ensures Logical(JumpRestoring(h, pc), ModeOf(JumpRestoring(h, pc).cpsr), b, i) == Logical(s, ModeOf(s.cpsr), b, i)
    {
      JumpedTo(restored, WithBit0(pc, ThumbOf(restored.cpsr)), b, i);
    }
    JumpedTo(restored, WithBit0(pc, ThumbOf(restored.cpsr)), User, 0);
    if n == 4 && CounterAligned(s) {
      ResumesThere(s, arm7);
    }
  }

  lemma LoweredElsewhere(s: State, n: nat, b: Bank, i: Reg)
    requires s.Valid() && Has(b, i) && b != IRQ
    ensures Logical(LinkLowered(s, n), 0x12, b, i) == Logical(s, 0x12, b, i)
  {
  }

  /** The restored state bit is the interrupted one, whatever bit 4 was. */
  lemma RestoredState(s: State, handled: State)
    requires handled.Valid() && ModeOf(handled.cpsr) == 0x12 && handled.irq[2] == s.cpsr
    ensures ThumbOf(RestoreCPSR(handled).cpsr) == ThumbOf(s.cpsr)
  {
    hide UpdateMode;
    var q := s.cpsr / 32;
    assert s.cpsr == 32 * q + s.cpsr % 32;
  }

  /** The link less 4 leads back to the interrupted program counter. */
  lemma ResumesThere(s: State, arm7: bool)
    requires s.Valid() && CounterAligned(s)
    ensures Resumed(s, 4, arm7) == s.r[15]
  {
    hide Wrap, Target, WithBit0, PcWord, Less, Add, ThumbOf;
    var (pc, thumb) := (s.r[15], ThumbOf(s.cpsr));
    var k := if thumb then 2 else 4;
    LessThenMore(pc, k);
    MultipleOfTwo(Less(pc, k));
    assert Less(Link(s), 4) == Less(pc, k) by { AddNone(pc); }
    TargetOf(Less(pc, k), arm7, thumb);
  }

  lemma AddNone(pc: u32)
    ensures Add(pc, 0) == pc
  {
  }

  lemma MultipleOfTwo(x: int)
    ensures x % 4 == 0 ==> x % 2 == 0
  {
    var q := x / 4;
    if x % 4 == 0 {
      assert x == 2 * (2 * q);
    }
  }

  lemma LessThenMore(pc: u32, k: int)
    requires (k == 2 && pc % 2 == 0) || (k == 4 && pc % 4 == 0)
    ensures Less(pc, k) % k == 0 && Add(Less(pc, k), k) == pc
    ensures Less(Add(pc, 4 - k), 4) == Less(pc, k)
  {
    LessIs(pc, k);
    StillMultiple(pc, k);
    WrapTwice(pc + (4 - k), -4);
    WrapTwice(pc - k, k);
  }

  lemma LessIs(pc: u32, k: int)
    requires 0 < k <= 4
    ensures Less(pc, k) == if pc >= k then pc - k else pc - k + 0x1_0000_0000
    ensures Wrap(pc) == pc
  {
  }

  /** 2^32 is a multiple of both. */
  lemma StillMultiple(x: int, k: int)
    requires (k == 2 && x % 2 == 0) || (k == 4 && x % 4 == 0)
    ensures (x - k) % k == 0 && (x - k + 0x1_0000_0000) % k == 0
  {
  }

  lemma TargetOf(addr: u32, arm7: bool, thumb: bool)
    requires addr % 2 == 0 && (thumb || addr % 4 == 0)
    ensures Target(WithBit0(PcWord(addr, arm7), thumb)) == Add(addr, if thumb then 2 else 4)
  {
    hide Add, Wrap;
    EvenStays(addr);
    assert PcWord(addr, arm7) == addr;
    if thumb {
      OddFollows(addr);
    }
  }

  lemma EvenStays(addr: u32)
    requires addr % 2 == 0
    ensures WithBit0(addr, false) == addr && WithBit0(addr, true) == addr + 1
  {
  }

  lemma OddFollows(addr: u32)
    requires addr % 2 == 0 && addr + 1 < 0x1_0000_0000
    ensures (addr + 1) % 2 == 1 && Add(addr + 1, 1) == Add(addr, 2)
  {
  }

  lemma LaterMode(saved: Machine, arm7: bool, later: Machine, push: Instr)
    requires saved.s.Valid() && After(saved, push, arm7, later)
    ensures later.s.Valid() && ModeOf(later.s.cpsr) == ModeOf(saved.s.cpsr)
  {
  }

  lemma IrqBanks(i: Reg)
    ensures BankOf(0x12, i) == if i == 13 || i == 14 then IRQ else User
  {
  }
}
