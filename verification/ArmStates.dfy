/**
 * Register banks, exception entry and block addresses in the numbers of the
 * architecture: mode fields, status bits, array places and word addresses.
 */
module ArmStates {
  import opened Basics
  import opened BankedRegisters
  import opened BlockTransfer

  // ---------------------------------------------------------------- the banks

  /** The array that a mode swaps with, and the number of the first register that it holds. */
  function ArrayOf(s: State, mode: int): Option<(seq<u32>, nat)> {
    if mode == 0x11 then Some((s.fiq, 8))
    else if mode == 0x12 then Some((s.irq, 13))
    else if mode == 0x13 then Some((s.svc, 13))
    else if mode == 0x17 then Some((s.abt, 13))
    else if mode == 0x1B then Some((s.und, 13))
    else None
  }

  /** What stands in a mode's array for register i, if it has one there. */
  function Banked(s: State, mode: int, i: Reg): Option<u32>
    requires s.Valid()
  {
    match ArrayOf(s, mode)
    case None => None
    case Some((regs, from)) => if from <= i < 15 then Some(regs[i - from]) else None
  }

  /** One swap exchanges the registers of one array. */
  lemma Swapped(s: State, mode: int, i: Reg)
    requires s.Valid()
    ensures var (t, own) := (Swap(s, mode), Banked(s, mode, i));
            && t.r[i] == (if own.Some? then own.value else s.r[i])
            && (own.Some? ==> Banked(t, mode, i) == Some(s.r[i]))
            && t.fiq[7] == s.fiq[7] && t.irq[2] == s.irq[2] && t.svc[2] == s.svc[2]
            && t.abt[2] == s.abt[2] && t.und[2] == s.und[2]
  {
    if mode == 0x11 {
      SwappedFIQ(s, i);
    }
  }

  lemma NotSwapped(s: State, mode: int, other: int, i: Reg)
    requires s.Valid() && mode != other
    ensures Banked(Swap(s, mode), other, i) == Banked(s, other, i)
  {
  }

  /**
   * A change of mode, register by register: the new mode sees its own array; what
   * it has not there it shares with user mode, whose registers are in the array
   * of the old mode where that has them, and in `r` where not.
   */
  lemma ModeSees(s: State, oldMode: int, newMode: int, i: Reg)
    requires s.Valid() && oldMode != newMode
    ensures var t := UpdateMode(s, oldMode, newMode);
            t.r[i] == match Banked(s, newMode, i)
                      case Some(own) => own
                      case None => (match Banked(s, oldMode, i) case Some(user) => user case None => s.r[i])
  {
    hide Swap, Banked;
    Swapped(s, oldMode, i);
    NotSwapped(s, oldMode, newMode, i);
    Swapped(Swap(s, oldMode), newMode, i);
  }

  /** And the arrays: the old mode's holds its own registers again, the new mode's the user ones, the others stay. */
  lemma ArraysHold(s: State, oldMode: int, newMode: int, mode: int, i: Reg)
    requires s.Valid() && oldMode != newMode && Banked(s, mode, i).Some?
    ensures var t := UpdateMode(s, oldMode, newMode);
            Banked(t, mode, i)
            == Some(if mode == oldMode then s.r[i]
                    else if mode == newMode then
                      match Banked(s, oldMode, i) case Some(user) => user case None => s.r[i]
                    else Banked(s, mode, i).value)
  {
    hide Swap, Banked;
    var t := Swap(s, oldMode);
    Swapped(s, oldMode, i);
    NotSwapped(s, oldMode, newMode, i);
    Swapped(t, newMode, i);
    if mode != oldMode {
      NotSwapped(s, oldMode, mode, i);
    }
    if mode != newMode {
      NotSwapped(t, newMode, mode, i);
    }
  }

  /** No mode change touches a saved status register, or changes anything within one mode. */
  lemma StatusStays(s: State, oldMode: int, newMode: int)
    requires s.Valid()
    ensures var t := UpdateMode(s, oldMode, newMode);
            && t.fiq[7] == s.fiq[7] && t.irq[2] == s.irq[2] && t.svc[2] == s.svc[2]
            && t.abt[2] == s.abt[2] && t.und[2] == s.und[2] && t.cpsr == s.cpsr
    ensures oldMode == newMode ==> UpdateMode(s, oldMode, newMode) == s
  {
    hide Swap;
    Swapped(s, oldMode, 0);
    Swapped(Swap(s, oldMode), newMode, 0);
  }

  // ---------------------------------------------------------------- entry and return

  lemma EntryStatus(h: nat)
    ensures var t := h * 256 + 0xD2;
            && t % 32 == 0x12 && t / 32 % 2 == 0 && t / 64 % 2 == 1 && t / 128 % 2 == 1 && t / 256 == h
  {
    var t := h * 256 + 0xD2;
    DivisionUnique(t, 256, h, 0xD2);
    DivisionUnique(t, 128, 2 * h + 1, 0x52);
    DivisionUnique(t, 64, 4 * h + 3, 0x12);
    DivisionUnique(t, 32, 8 * h + 6, 0x12);
    Parity(h);
  }

  lemma Parity(h: nat)
    ensures (2 * h + 1) % 2 == 1 && (4 * h + 3) % 2 == 1 && (8 * h + 6) % 2 == 0
  {
    DivisionUnique(4 * h + 3, 2, 2 * h + 1, 1);
    DivisionUnique(8 * h + 6, 2, 4 * h + 3, 0);
  }

  lemma ArmJump(s: State, addr: u32)
    requires s.Valid() && addr % 4 == 0 && s.cpsr / 32 % 2 == 0
    ensures JumpTo(s, addr) == s.(r := s.r[15 := Add(addr, 4)])
  {
  }

  /**
   * After entry: IRQ mode in ARM state with interrupts of both kinds masked and
   * the flags kept, execution at offset 0x18 from the exception base, and the
   * interrupted status and place saved.
   */
  predicate InHandler(s: State, t: State, base: u32) {
    && s.Valid() && t.Valid()
    && t.r[15] == (base + 0x18 + 4) % 0x1_0000_0000
    && t.cpsr % 32 == 0x12 && t.cpsr / 32 % 2 == 0 && t.cpsr / 64 % 2 == 1 && t.cpsr / 128 % 2 == 1
    && t.cpsr / 256 == s.cpsr / 256
    && t.irq[2] == s.cpsr
    && var pc: int := s.r[15];
       t.r[14] == (if s.cpsr / 32 % 2 == 1 then pc + 2 else pc) % 0x1_0000_0000
  }

  /** A masked interrupt changes nothing; any other one is entered so. */
  lemma EntersIrq(s: State, base: u32)
    requires s.Valid() && base % 4 == 0
    ensures if s.cpsr / 128 % 2 == 1 then TriggerIRQ(s, base) == s else InHandler(s, TriggerIRQ(s, base), base)
  {
    hide UpdateMode, JumpTo;
    if s.cpsr / 128 % 2 == 0 {
      var entered := s.(cpsr := s.cpsr / 256 * 256 + 0xD2);
      EntryStatus(s.cpsr / 256);
      var (oldMode, newMode) := (ModeOf(s.cpsr), ModeOf(entered.cpsr));
      var switched := UpdateMode(entered, oldMode, newMode);
      CounterStays(entered, oldMode, newMode);
      StatusStays(entered, oldMode, newMode);
      AlignedVector(base);
      VectorJump(base);
      var lr := Add(switched.r[15], if ThumbOf(s.cpsr) then 2 else 0);
      ArmJump(switched.(irq := switched.irq[2 := s.cpsr], r := switched.r[14 := lr]), Add(base, 0x18));
    }
  }

  lemma CounterStays(s: State, oldMode: int, newMode: int)
    requires s.Valid()
    ensures UpdateMode(s, oldMode, newMode).r[15] == s.r[15]
  {
    if oldMode != newMode {
      ModeSees(s, oldMode, newMode, 15);
    }
  }

  lemma AlignedVector(base: u32)
    requires base % 4 == 0
    ensures Add(base, 0x18) % 4 == 0
  {
    var x: int := base + 0x18;
    assert Add(base, 0x18) == if x < 0x1_0000_0000 then x else x - 0x1_0000_0000;
  }

  lemma VectorJump(base: u32)
    requires base % 4 == 0
    ensures Add(Add(base, 0x18), 4) == (base + 0x18 + 4) % 0x1_0000_0000
  {
    WrapTwice(base + 0x18, 4);
  }

  /** A jump: an odd address continues in Thumb state at the address less one, an even one in ARM state at a word. */
  lemma Jumps(s: State, addr: u32)
    requires s.Valid()
    ensures var t := JumpTo(s, addr);
            && t.r[15] == (if addr % 2 == 1 then addr - 1 + 2 else addr / 4 * 4 + 4) % 0x1_0000_0000
            && t.cpsr / 32 % 2 == addr % 2 && t.cpsr % 32 == s.cpsr % 32 && t.cpsr / 64 == s.cpsr / 64
            && (forall i: Reg :: i < 15 ==> t.r[i] == s.r[i])
            && t == s.(r := t.r, cpsr := t.cpsr)
  {
    ThumbOnly(s.cpsr, addr % 2 == 1);
    assert addr - addr % 4 == addr / 4 * 4;
  }

  lemma ThumbOnly(cpsr: u32, thumb: bool)
    ensures var t := WithThumb(cpsr, thumb);
            t / 32 % 2 == (if thumb then 1 else 0) && t % 32 == cpsr % 32 && t / 64 == cpsr / 64
  {
    var (q, b, r) := (cpsr / 64, cpsr / 32 % 2, cpsr % 32);
    assert cpsr / 32 == 2 * q + b;
    assert cpsr == 64 * q + 32 * b + r;
    var c := if thumb then 1 else 0;
    assert WithThumb(cpsr, thumb) == 64 * q + 32 * c + r;
    DivisionUnique(64 * q + 32 * c + r, 32, 2 * q + c, r);
    DivisionUnique(64 * q + 32 * c + r, 64, q, 32 * c + r);
  }

  /** Which status register a return brings back, with bit 4 set in it. */
  lemma RestoresStatus(s: State)
    requires s.Valid()
    ensures var mode := s.cpsr % 32;
            var saved := if mode == 0x11 then s.fiq[7]
                         else if mode == 0x12 then s.irq[2]
                         else if mode == 0x13 then s.svc[2]
                         else if mode in {0x14, 0x15, 0x16, 0x17} then s.abt[2]
                         else if mode in {0x18, 0x19, 0x1A, 0x1B} then s.und[2]
                         else s.cpsr;
            RestoreCPSR(s).cpsr == if saved / 16 % 2 == 1 then saved else saved + 16
  {
    hide UpdateMode;
  }

  // ---------------------------------------------------------------- block addresses

  /** The registers of the list below number i. */
  function BelowIn(list: set<Reg>, i: nat): set<Reg> { set j <- list | j < i }

  /** The rank of a register is the number of listed registers below it. */
  lemma {:induction false} RankCounts(list: set<Reg>, i: nat)
    requires i <= 16
    ensures Rank(list, i) == |BelowIn(list, i)|
    ensures i == 16 ==> Rank(list, i) == |list|
  {
    if i == 0 {
      assert BelowIn(list, 0) == {};
    } else {
      RankCounts(list, i - 1);
      if i - 1 in list {
        assert BelowIn(list, i) == BelowIn(list, i - 1) + {i - 1};
      } else {
        assert BelowIn(list, i) == BelowIn(list, i - 1);
      }
    }
    if i == 16 {
      assert BelowIn(list, 16) == list;
    }
  }

  /**
   * The lowest address of a transfer of n registers: the base when incrementing
   * after, 4 above it when incrementing before, 4n below it when decrementing
   * before, and 4 above that when decrementing after.
   */
  lemma LowestAddress(instr: Instr, base: u32)
    ensures var n := |instr.list|;
            var low := if instr.up then if instr.pre then base + 4 else base
                       else if instr.pre then base - 4 * n else base - 4 * n + 4;
            Low(instr, base) == low % 0x1_0000_0000
    ensures LoopBase(instr, base) == if instr.up then base else (base - 4 * |instr.list|) % 0x1_0000_0000
  {
    hide Rank;
    RankCounts(instr.list, 16);
    WrapTwice(base - 4 * |instr.list|, 4);
    WrapTwice(base - 4 * |instr.list|, 0);
  }

  /** STM, in addresses: register i of the list ends up as many words above the lowest as lower ones are listed. */
  lemma StoresAt(m: Machine, instr: Instr, arm7: bool, i: Reg)
    requires m.s.Valid() && i in instr.list
    ensures var (mode, base) := (m.s.cpsr % 32, m.s.r[instr.baseid]);
            var (low, k) := (Low(instr, base), |BelowIn(instr.list, i)|);
            var at := (low + 4 * k) % 0x1_0000_0000;
            var mem := Stm(m, instr, arm7).mem;
            && at / 4 in mem
            && (i == instr.baseid && !instr.user ==> mem[at / 4] == if !arm7 || k == 0 then base else at)
            && (i != instr.baseid && !instr.user ==> mem[at / 4] == m.s.r[i])
            && (i != instr.baseid && instr.user ==>
                  mem[at / 4] == match Banked(m.s, mode, i) case Some(user) => user case None => m.s.r[i])
  {
    hide Stm, Low, Rank, BelowIn, WordAt;
    RankCounts(instr.list, i);
    RankSmall(instr.list, i);
    StmStores(m, instr, arm7, i);
    WordOfAhead(Low(instr, m.s.r[instr.baseid]), Rank(instr.list, i));
    LogicalIs(m.s, m.s.cpsr % 32, i);
  }

  lemma RankSmall(list: set<Reg>, i: nat)
    requires i <= 16
    ensures Rank(list, i) <= 16
  {
  }

  /** The two views of register i: the mode's own, and user mode's. */
  lemma LogicalIs(s: State, mode: int, i: Reg)
    requires s.Valid()
    ensures Has(BankOf(mode, i), i) && Logical(s, mode, BankOf(mode, i), i) == s.r[i]
    ensures Logical(s, mode, User, i) == match Banked(s, mode, i) case Some(user) => user case None => s.r[i]
    ensures BankOf(USR, i) == User
  {
  }

  /** LDM without the program counter and without the user bit, in addresses. */
  lemma LoadsFrom(m: Machine, instr: Instr, arm7: bool, i: Reg)
    requires m.s.Valid() && 15 !in instr.list && !instr.user
    ensures var (base, n) := (m.s.r[instr.baseid], |instr.list|);
            var (low, k) := (Low(instr, base), |BelowIn(instr.list, i)|);
            var back := instr.writeback
                        && (instr.baseid !in instr.list
                            || (!arm7 && (n == 1 || exists j <- instr.list :: j > instr.baseid)));
            Ldm(m, instr, arm7).s.r[i]
            == if i == instr.baseid && back then (if instr.up then base + 4 * n else base - 4 * n) % 0x1_0000_0000
               else if i in instr.list then ReadWord(m.mem, (low + 4 * k) % 0x1_0000_0000)
               else m.s.r[i]
  {
    hide Ldm, Low, Rank, BelowIn, ReadWord;
    var mode := ModeOf(m.s.cpsr);
    RankCounts(instr.list, i);
    RankCounts(instr.list, 16);
    LowestAddress(instr, m.s.r[instr.baseid]);
    LogicalIs(m.s, mode, i);
    LogicalIs(Ldm(m, instr, arm7).s, mode, i);
    LdmLoads(m, instr, arm7, BankOf(mode, i), i);
    if instr.baseid in instr.list {
      OnlyOne(instr.list, instr.baseid);
    }
  }

  lemma OnlyOne(list: set<Reg>, i: Reg)
    requires i in list
    ensures |list| == 1 <==> list == {i}
  {
    if |list| == 1 {
      assert |list - {i}| == 0;
      assert list == {i} + (list - {i});
    }
  }
}
