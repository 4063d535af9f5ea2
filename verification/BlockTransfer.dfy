/** Block loads and stores (`LDM`, `STM`, `PUSH`, `POP`) over the banked register file. */
module BlockTransfer {
  import opened Basics
  import opened BankedRegisters

  // ---------------------------------------------------------------- memory

  const WORDS := 0x4000_0000

  /** Words by their index; the low address bits do not matter. */
  type Memory = map<nat, u32>

  function ReadWord(mem: Memory, addr: u32): u32 { if addr / 4 in mem then mem[addr / 4] else 0 }

  function WriteWord(mem: Memory, addr: u32, value: u32): Memory { mem[addr / 4 := value] }

  /** The word index k words after an address. */
  function WordAt(addr: u32, k: nat): nat { (addr / 4 + k) % WORDS }

  /** The address k words after another. */
  function Ahead(addr: u32, k: nat): u32 { Wrap(addr + 4 * k) }

  lemma WordOfAhead(addr: u32, k: nat)
    requires k <= 16
    ensures Ahead(addr, k) / 4 == WordAt(addr, k)
  {
    var x: int := addr + 4 * k;
    assert x / 4 == addr / 4 + k;
    if x < 0x1_0000_0000 {
      assert Ahead(addr, k) == x;
    } else {
      assert Ahead(addr, k) == x - 0x1_0000_0000;
      assert (x - 0x1_0000_0000) / 4 == x / 4 - WORDS;
    }
  }

  lemma WordsDistinct(addr: u32, j: nat, k: nat)
    requires j < 16 && k < 16 && j != k
    ensures WordAt(addr, j) != WordAt(addr, k)
  {
  }

  lemma AheadAgain(addr: u32, k: nat)
    requires k < 16
    ensures Add(Ahead(addr, k), 4) == Ahead(addr, k + 1)
  {
  }

  // ---------------------------------------------------------------- the instructions

  /** The fields of a block transfer; `user` is the bit that selects the user registers. */
  datatype Instr = Instr(pre: bool, up: bool, user: bool, writeback: bool, baseid: Reg, list: set<Reg>)

  /** How many listed registers come before register i. */
  function Rank(list: set<Reg>, i: nat): (n: nat)
    requires i <= 16
    ensures n <= i
  {
    if i == 0 then 0 else Rank(list, i - 1) + if i - 1 in list then 1 else 0
  }

  lemma {:induction false} RankGrows(list: set<Reg>, i: nat, j: nat)
    requires i < j <= 16 && i in list
    ensures Rank(list, i) < Rank(list, j)
    decreases j
  {
    if i < j - 1 {
      RankGrows(list, i, j - 1);
    }
  }

  /** The base before the loop: lowered by the size of the list for the descending forms. */
  function LoopBase(instr: Instr, base: u32): u32 {
    if instr.up then base else Wrap(base - 4 * Rank(instr.list, 16))
  }

  /** Whether the loop increments before each access. */
  predicate Preinc(instr: Instr) { instr.pre == instr.up }

  /** The lowest address that is accessed. */
  function Low(instr: Instr, base: u32): u32 {
    Add(LoopBase(instr, base), if Preinc(instr) then 4 else 0)
  }

  datatype Machine = Machine(s: State, mem: Memory)

  /** The base register is banked in the current mode, so it is not the user one that a user transfer stores. */
  predicate BaseIsBanked(instr: Instr, mode: int) {
    instr.user
    && if mode == 0x11 then 8 <= instr.baseid < 15
       else mode != 0x10 && mode != 0x1F && 13 <= instr.baseid < 15
  }

  /** What STM stores for register i; for the base it depends on the processor. */
  function StoredValue(s: State, instr: Instr, arm7: bool, banked: bool, oldbase: u32, addr: u32, i: Reg): u32
    requires s.Valid()
  {
    if i == instr.baseid && !banked then
      if !arm7 || Rank(instr.list, i) == 0 then oldbase else addr
    else s.r[i]
  }

  /** The storing loop from register i on, with the base it has reached. */
  function StoreFrom(
    s: State, instr: Instr, arm7: bool, banked: bool, oldbase: u32, mem: Memory, base: u32, i: nat): (Memory, u32)
    requires s.Valid() && i <= 16
    decreases 16 - i
  {
    if i == 16 then (mem, base)
    else if i !in instr.list then StoreFrom(s, instr, arm7, banked, oldbase, mem, base, i + 1)
    else
      var addr := Add(base, if Preinc(instr) then 4 else 0);
      StoreFrom(
        s, instr, arm7, banked, oldbase, WriteWord(mem, addr, StoredValue(s, instr, arm7, banked, oldbase, addr, i)),
        Add(base, 4), i + 1)
  }

  function InUserBank(s: State, instr: Instr, mode: int): (t: State)
    requires s.Valid()
    ensures t.Valid() && t.cpsr == s.cpsr
  {
    if instr.user then UpdateMode(s, mode, USR) else s
  }

  function BackFromUser(s: State, instr: Instr, mode: int): (t: State)
    requires s.Valid()
    ensures t.Valid() && t.cpsr == s.cpsr
  {
    if instr.user then UpdateMode(s, USR, mode) else s
  }

  function Stm(m: Machine, instr: Instr, arm7: bool): (t: Machine)
    requires m.s.Valid()
    ensures t.s.Valid() && t.s.cpsr == m.s.cpsr
  {
    var mode := ModeOf(m.s.cpsr);
    var oldbase := m.s.r[instr.baseid];
    var base := LoopBase(instr, oldbase);
    var s1 := if !instr.up && instr.writeback then m.s.(r := m.s.r[instr.baseid := base]) else m.s;
    var s2 := InUserBank(s1, instr, mode);
    var (mem, end) := StoreFrom(s2, instr, arm7, BaseIsBanked(instr, mode), oldbase, m.mem, base, 0);
    var s3 := BackFromUser(s2, instr, mode);
    Machine(if instr.up && instr.writeback then s3.(r := s3.r[instr.baseid := end]) else s3, mem)
  }

  /** The loading loop from register i up to register 14. */
  function LoadFrom(s: State, instr: Instr, mem: Memory, base: u32, i: nat): (r: (State, u32))
    requires s.Valid() && i <= 15
    ensures r.0.Valid() && r.0 == s.(r := r.0.r)
    decreases 15 - i
  {
    if i == 15 then (s, base)
    else if i !in instr.list then LoadFrom(s, instr, mem, base, i + 1)
    else
      var addr := Add(base, if Preinc(instr) then 4 else 0);
      LoadFrom(s.(r := s.r[i := ReadWord(mem, addr)]), instr, mem, Add(base, 4), i + 1)
  }

  /** Whether LDM writes the base back when the base is in the list: on the ARM9 unless it is the last of several. */
  predicate WritesListedBase(instr: Instr, arm7: bool) {
    !arm7 && (instr.list == {instr.baseid} || exists j <- instr.list :: j > instr.baseid)
  }

  /** The user registers are selected only if the program counter is not in the list. */
  function Selecting(instr: Instr): Instr { instr.(user := instr.user && 15 !in instr.list) }

  /**
   * LDM up to the jump: the registers below the program counter, the base, and the address of the
   * word for the counter.
   */
  function LdmRegisters(m: Machine, instr: Instr, arm7: bool): (r: (State, u32))
    requires m.s.Valid()
    ensures r.0.Valid() && r.0.cpsr == m.s.cpsr && (15 in instr.list ==> r.0 == m.s.(r := r.0.r))
  {
    var mode := ModeOf(m.s.cpsr);
    var base := LoopBase(instr, m.s.r[instr.baseid]);
    var (s1, end) := LoadFrom(InUserBank(m.s, Selecting(instr), mode), instr, m.mem, base, 0);
    var wbbase := if !instr.up then base else if 15 in instr.list then Add(end, 4) else end;
    var s2 := if instr.writeback && (instr.baseid !in instr.list || WritesListedBase(instr, arm7))
              then s1.(r := s1.r[instr.baseid := wbbase]) else s1;
    (BackFromUser(s2, Selecting(instr), mode), Add(end, if Preinc(instr) then 4 else 0))
  }

  /** What LDM makes of the word for the program counter: the ARM7 does not change state by it. */
  function PcWord(word: u32, arm7: bool): u32 { if arm7 then WithBit0(word, false) else word }

  function Ldm(m: Machine, instr: Instr, arm7: bool): (t: Machine)
    requires m.s.Valid()
    ensures t.s.Valid() && t.mem == m.mem && (15 !in instr.list ==> t.s.cpsr == m.s.cpsr)
  {
    var (s, addr) := LdmRegisters(m, instr, arm7);
    var pc := PcWord(ReadWord(m.mem, addr), arm7);
    Machine(if 15 !in instr.list then s else if instr.user then JumpRestoring(s, pc) else JumpTo(s, pc), m.mem)
  }

  /** `POP`: like LDM, but the word for the program counter keeps an ARM7 in Thumb state. */
  function Pop(m: Machine, list: set<Reg>, pc: bool, arm7: bool): (t: Machine)
    requires m.s.Valid()
    ensures t.s.Valid() && t.mem == m.mem
  {
    var (s, addr) := LdmRegisters(m, PopInstr(13, if pc then list + {15} else list), arm7);
    var word := ReadWord(m.mem, addr);
    Machine(if pc then JumpTo(s, if arm7 then WithBit0(word, true) else word) else s, m.mem)
  }

  // ---------------------------------------------------------------- what the loops do

  lemma LoopAddress(instr: Instr, base: u32, i: nat)
    requires i < 16
    ensures var k := Rank(instr.list, i);
            Add(Ahead(base, k), if Preinc(instr) then 4 else 0) == Ahead(Add(base, if Preinc(instr) then 4 else 0), k)
  {
    hide Wrap;
    var (k, offset) := (Rank(instr.list, i), if Preinc(instr) then 4 else 0);
    WrapTwice(base + 4 * k, offset);
    WrapTwice(base + offset, 4 * k);
  }

  /** From register i on, the loop stores each listed register at its rank's word, and nothing else. */
  lemma {:induction false} StoreFromStores(
    s: State, instr: Instr, arm7: bool, banked: bool, oldbase: u32, mem: Memory, base: u32, i: nat, j: Reg)
    requires s.Valid() && i <= 16
    ensures var (mem1, end) := StoreFrom(s, instr, arm7, banked, oldbase, mem, Ahead(base, Rank(instr.list, i)), i);
            var low := Add(base, if Preinc(instr) then 4 else 0);
            var w := WordAt(low, Rank(instr.list, j));
            && end == Ahead(base, Rank(instr.list, 16))
            && (j in instr.list && j >= i ==>
                  w in mem1
                  && mem1[w] == StoredValue(s, instr, arm7, banked, oldbase, Ahead(low, Rank(instr.list, j)), j))
            && (j in instr.list && j < i && w in mem ==> w in mem1 && mem1[w] == mem[w])
    decreases 16 - i
  {
    hide Wrap, Ahead, WordAt, Add, StoredValue;
    var low := Add(base, if Preinc(instr) then 4 else 0);
    if i < 16 && i in instr.list {
      var k := Rank(instr.list, i);
      LoopAddress(instr, base, i);
      WordOfAhead(low, k);
      AheadAgain(base, k);
      var value := StoredValue(s, instr, arm7, banked, oldbase, Ahead(low, k), i);
      StoreFromStores(s, instr, arm7, banked, oldbase, WriteWord(mem, Ahead(low, k), value), base, i + 1, j);
      if j in instr.list && j < i {
        RankGrows(instr.list, j, i);
        WordsDistinct(low, Rank(instr.list, j), k);
      }
    } else if i < 16 {
      StoreFromStores(s, instr, arm7, banked, oldbase, mem, base, i + 1, j);
    }
  }

  /** Words outside the range of the list stay. */
  lemma {:induction false} StoreFromLeaves(
    s: State, instr: Instr, arm7: bool, banked: bool, oldbase: u32, mem: Memory, base: u32, i: nat, w: nat)
    requires s.Valid() && i <= 16
    requires var low := Add(base, if Preinc(instr) then 4 else 0);
             forall k :: 0 <= k < Rank(instr.list, 16) ==> w != WordAt(low, k)
    ensures var mem1 := StoreFrom(s, instr, arm7, banked, oldbase, mem, Ahead(base, Rank(instr.list, i)), i).0;
            (w in mem1 <==> w in mem) && (w in mem ==> mem1[w] == mem[w])
    decreases 16 - i
  {
    hide Wrap, Ahead, WordAt, Add, StoredValue;
    var low := Add(base, if Preinc(instr) then 4 else 0);
    if i < 16 && i in instr.list {
      var k := Rank(instr.list, i);
      LoopAddress(instr, base, i);
      WordOfAhead(low, k);
      AheadAgain(base, k);
      RankGrows(instr.list, i, 16);
      var value := StoredValue(s, instr, arm7, banked, oldbase, Ahead(low, k), i);
      StoreFromLeaves(s, instr, arm7, banked, oldbase, WriteWord(mem, Ahead(low, k), value), base, i + 1, w);
    } else if i < 16 {
      StoreFromLeaves(s, instr, arm7, banked, oldbase, mem, base, i + 1, w);
    }
  }

  lemma {:induction false} LoadFromLoads(s: State, instr: Instr, mem: Memory, base: u32, i: nat, j: Reg)
    requires s.Valid() && i <= 15
    ensures var (t, end) := LoadFrom(s, instr, mem, Ahead(base, Rank(instr.list, i)), i);
            var low := Add(base, if Preinc(instr) then 4 else 0);
            && end == Ahead(base, Rank(instr.list, 15))
            && t.r[j]
               == if j in instr.list && i <= j < 15 then ReadWord(mem, Ahead(low, Rank(instr.list, j))) else s.r[j]
    decreases 15 - i
  {
    hide Wrap, Ahead, ReadWord, Add;
    if i < 15 && i in instr.list {
      var k := Rank(instr.list, i);
      LoopAddress(instr, base, i);
      AheadAgain(base, k);
      var word := ReadWord(mem, Ahead(Add(base, if Preinc(instr) then 4 else 0), k));
      LoadFromLoads(s.(r := s.r[i := word]), instr, mem, base, i + 1, j);
    } else if i < 15 {
      LoadFromLoads(s, instr, mem, base, i + 1, j);
    }
  }

  lemma AheadNone(base: u32)
    ensures Ahead(base, 0) == base
  {
  }

  // ---------------------------------------------------------------- the round trip

  /** The bank that a transfer's registers are taken from: the user bank, or what the mode sees. */
  function TransferBank(instr: Instr, mode: int, i: Reg): Bank { BankOf(if instr.user then USR else mode, i) }

  lemma TransferBankHas(instr: Instr, mode: int, i: Reg)
    ensures Has(TransferBank(instr, mode, i), i)
  {
  }

  /** The stored value of a register that is not the base. */
  lemma BankSeen(s: State, instr: Instr, mode: int, i: Reg)
    requires s.Valid()
    ensures Has(TransferBank(instr, mode, i), i)
    ensures InUserBank(s, instr, mode).r[i] == Logical(s, mode, TransferBank(instr, mode, i), i)
  {
    hide UpdateMode;
    TransferBankHas(instr, mode, i);
    SeenByMode(s, mode, i);
    if instr.user {
      UpdateModeKeeps(s, mode, USR, TransferBank(instr, mode, i), i);
      SeenByMode(UpdateMode(s, mode, USR), USR, i);
    }
  }

  /**
   * STM puts each listed register, of the bank it transfers, at its rank's word
   * from the lowest address.  Of a listed base it stores the old value, but an
   * ARM7 only if no lower register is listed, and else the address of the word.
   * A user transfer takes registers 13 and 14 for banked in the reserved modes too,
   * which share them with user mode: there it stores a lowered base.
   */
  lemma StmStores(m: Machine, instr: Instr, arm7: bool, i: Reg)
    requires m.s.Valid() && i in instr.list
    ensures var (mode, base) := (ModeOf(m.s.cpsr), m.s.r[instr.baseid]);
            var (low, k) := (Low(instr, base), Rank(instr.list, i));
            var w := WordAt(low, k);
            Has(TransferBank(instr, mode, i), i)
            && w in Stm(m, instr, arm7).mem
            && Stm(m, instr, arm7).mem[w]
               == if i == instr.baseid && !BaseIsBanked(instr, mode) then
                    if !arm7 || k == 0 then base else Ahead(low, k)
                  else if i == instr.baseid && BankOf(mode, i) == User && !instr.up && instr.writeback then
                    LoopBase(instr, base)
                  else Logical(m.s, mode, TransferBank(instr, mode, i), i)
  {
    hide StoreFrom, UpdateMode, Wrap, WordAt, Logical, Ahead;
    var mode := ModeOf(m.s.cpsr);
    var oldbase := m.s.r[instr.baseid];
    var base := LoopBase(instr, oldbase);
    var s1 := if !instr.up && instr.writeback then m.s.(r := m.s.r[instr.baseid := base]) else m.s;
    BankSeen(s1, instr, mode, i);
    SeenByMode(s1, mode, i);
    if i != instr.baseid || (BaseIsBanked(instr, mode) && BankOf(mode, i) != User) {
      WritebackElsewhere(m.s, mode, instr.baseid, base, TransferBank(instr, mode, i), i);
    }
    AheadNone(base);
    StoreFromStores(InUserBank(s1, instr, mode), instr, arm7, BaseIsBanked(instr, mode), oldbase, m.mem, base, 0, i);
  }

  /** And no other word changes. */
  lemma StmLeaves(m: Machine, instr: Instr, arm7: bool, w: nat)
    requires m.s.Valid()
    requires forall k :: 0 <= k < Rank(instr.list, 16) ==> w != WordAt(Low(instr, m.s.r[instr.baseid]), k)
    ensures var mem := Stm(m, instr, arm7).mem;
            (w in mem <==> w in m.mem) && (w in m.mem ==> mem[w] == m.mem[w])
  {
    hide StoreFrom, UpdateMode, Wrap, WordAt;
    var mode := ModeOf(m.s.cpsr);
    var oldbase := m.s.r[instr.baseid];
    var base := LoopBase(instr, oldbase);
    var s1 := if !instr.up && instr.writeback then m.s.(r := m.s.r[instr.baseid := base]) else m.s;
    AheadNone(base);
    assert Low(instr, oldbase) == Add(base, if Preinc(instr) then 4 else 0);
    StoreFromLeaves(InUserBank(s1, instr, mode), instr, arm7, BaseIsBanked(instr, mode), oldbase, m.mem, base, 0, w);
  }

  /** Writing one register as a mode sees it leaves every other register of every bank alone. */
  lemma WritebackElsewhere(s: State, mode: int, baseid: Reg, value: u32, b: Bank, i: Reg)
    requires s.Valid() && Has(b, i) && (i != baseid || b != BankOf(mode, i))
    ensures Logical(s.(r := s.r[baseid := value]), mode, b, i) == Logical(s, mode, b, i)
  {
  }

  /** The base register after STM. */
  lemma StmBase(m: Machine, instr: Instr, arm7: bool)
    requires m.s.Valid()
    ensures var base := m.s.r[instr.baseid];
            Stm(m, instr, arm7).s.r[instr.baseid]
            == if !instr.writeback then base
               else if instr.up then Ahead(base, Rank(instr.list, 16)) else LoopBase(instr, base)
  {
    hide StoreFrom, UpdateMode, Wrap;
    var mode := ModeOf(m.s.cpsr);
    var oldbase := m.s.r[instr.baseid];
    var base := LoopBase(instr, oldbase);
    var s1 := if !instr.up && instr.writeback then m.s.(r := m.s.r[instr.baseid := base]) else m.s;
    AheadNone(base);
    StoreFromStores(InUserBank(s1, instr, mode), instr, arm7, BaseIsBanked(instr, mode), oldbase, m.mem, base, 0, 0);
    ThereAndBack(s1, instr, mode, instr.baseid);
  }

  lemma ThereAndBack(s: State, instr: Instr, mode: int, i: Reg)
    requires s.Valid()
    ensures BackFromUser(InUserBank(s, instr, mode), instr, mode).r[i] == s.r[i]
  {
    hide UpdateMode, Logical;
    if instr.user {
      var b := BankOf(mode, i);
      SeenByMode(s, mode, i);
      UpdateModeKeeps(s, mode, USR, b, i);
      UpdateModeKeeps(UpdateMode(s, mode, USR), USR, mode, b, i);
      SeenByMode(UpdateMode(UpdateMode(s, mode, USR), USR, mode), mode, i);
    }
  }

  /** Whether LDM writes its base back: a listed base only on an ARM9, unless it is the last of several. */
  predicate WritesBase(instr: Instr, arm7: bool) {
    && instr.writeback
    && (instr.baseid in instr.list ==>
          !arm7 && (instr.list == {instr.baseid} || exists j <- instr.list :: j > instr.baseid))
  }

  /** LDM before it leaves the user bank again, if it went there: what it sees in `r`. */
  lemma LdmInside(m: Machine, instr: Instr, arm7: bool, i: Reg) returns (s2: State)
    requires m.s.Valid()
    ensures var (mode, base) := (ModeOf(m.s.cpsr), m.s.r[instr.baseid]);
            var s0 := InUserBank(m.s, Selecting(instr), mode);
            && s2.Valid() && s2 == s0.(r := s2.r)
            && LdmRegisters(m, instr, arm7).0 == BackFromUser(s2, Selecting(instr), mode)
            && s2.r[i] == (if i == instr.baseid && WritesBase(instr, arm7) then
                             if instr.up then Ahead(base, Rank(instr.list, 16)) else LoopBase(instr, base)
                           else if i in instr.list && i < 15 then
                             ReadWord(m.mem, Ahead(Low(instr, base), Rank(instr.list, i)))
                           else s0.r[i])
    ensures LdmRegisters(m, instr, arm7).1 == Ahead(Low(instr, m.s.r[instr.baseid]), Rank(instr.list, 15))
  {
    hide LoadFrom, UpdateMode, Wrap, ReadWord, Ahead, Add, Rank;
    var base := LoopBase(instr, m.s.r[instr.baseid]);
    var s0 := InUserBank(m.s, Selecting(instr), ModeOf(m.s.cpsr));
    var (s1, end) := LoadFrom(s0, instr, m.mem, base, 0);
    AheadNone(base);
    assert Rank(instr.list, 0) == 0 by { NoRank(instr.list); }
    LoadFromLoads(s0, instr, m.mem, base, 0, i);
    AheadAgain(base, Rank(instr.list, 15));
    LoopAddress(instr, base, 15);
    LastRank(instr.list);
    var wbbase := if !instr.up then base else if 15 in instr.list then Add(end, 4) else end;
    s2 := if WritesBase(instr, arm7) then s1.(r := s1.r[instr.baseid := wbbase]) else s1;
  }

  lemma NoRank(list: set<Reg>)
    ensures Rank(list, 0) == 0
  {
  }

  lemma LastRank(list: set<Reg>)
    ensures Rank(list, 16) == Rank(list, 15) + if 15 in list then 1 else 0
  {
  }

  /**
   * What LDM leaves in every register of every bank before it jumps: the listed ones
   * of the bank it transfers come from memory, the base is written back, into that
   * bank too, and all others stay.
   */
  lemma LdmRegistersLoads(m: Machine, instr: Instr, arm7: bool, b: Bank, i: Reg)
    requires m.s.Valid() && Has(b, i)
    ensures var (mode, base) := (ModeOf(m.s.cpsr), m.s.r[instr.baseid]);
            Logical(LdmRegisters(m, instr, arm7).0, mode, b, i)
            == if b != TransferBank(Selecting(instr), mode, i) then Logical(m.s, mode, b, i)
               else if i == instr.baseid && WritesBase(instr, arm7) then
                 if instr.up then Ahead(base, Rank(instr.list, 16)) else LoopBase(instr, base)
               else if i in instr.list && i < 15 then
                 ReadWord(m.mem, Ahead(Low(instr, base), Rank(instr.list, i)))
               else Logical(m.s, mode, b, i)
    ensures LdmRegisters(m, instr, arm7).1 == Ahead(Low(instr, m.s.r[instr.baseid]), Rank(instr.list, 15))
  {
    hide LdmRegisters, UpdateMode, ReadWord, Ahead, Rank, LoopBase, Low, WritesBase, Logical;
    var mode := ModeOf(m.s.cpsr);
    var s0 := InUserBank(m.s, Selecting(instr), mode);
    var s2 := LdmInside(m, instr, arm7, i);
    var view := if Selecting(instr).user then USR else mode;
    LoadedLogical(s0, s2, view, b, i);
    if Selecting(instr).user {
      UpdateModeKeeps(m.s, mode, USR, b, i);
      UpdateModeKeeps(s2, USR, mode, b, i);
    }
    if b == BankOf(view, i) {
      SeenByMode(s0, view, i);
    }
  }

  /** The same for the whole of an LDM without the program counter. */
  lemma LdmLoads(m: Machine, instr: Instr, arm7: bool, b: Bank, i: Reg)
    requires m.s.Valid() && 15 !in instr.list && Has(b, i)
    ensures var (mode, base) := (ModeOf(m.s.cpsr), m.s.r[instr.baseid]);
            Logical(Ldm(m, instr, arm7).s, mode, b, i)
            == if b != TransferBank(instr, mode, i) then Logical(m.s, mode, b, i)
               else if i == instr.baseid && WritesBase(instr, arm7) then
                 if instr.up then Ahead(base, Rank(instr.list, 16)) else LoopBase(instr, base)
               else if i in instr.list then ReadWord(m.mem, Ahead(Low(instr, base), Rank(instr.list, i)))
               else Logical(m.s, mode, b, i)
  {
    hide LdmRegisters, Logical, ReadWord, Low, Ahead;
    assert Selecting(instr) == instr;
    LdmRegistersLoads(m, instr, arm7, b, i);
  }

  /** Changing only what a mode sees changes only the registers of its banks. */
  lemma LoadedLogical(s: State, t: State, mode: int, b: Bank, i: Reg)
    requires s.Valid() && t.Valid() && t == s.(r := t.r) && Has(b, i)
    ensures Logical(t, mode, b, i) == if b == BankOf(mode, i) then t.r[i] else Logical(s, mode, b, i)
  {
  }

  /**
   * A block load restores what a block store with the same list and base has
   * saved, whatever happened to the registers in between, if both start at the
   * same address: the listed registers of the bank they transfer come back, in
   * the same mode, user registers included.
   */
  lemma LoadRestoresStore(saved: Machine, store: Instr, later: Machine, load: Instr, arm7: bool, i: Reg)
    requires saved.s.Valid() && later.s.Valid() && ModeOf(later.s.cpsr) == ModeOf(saved.s.cpsr)
    requires load.list == store.list && load.baseid == store.baseid && load.user == store.user
    requires 15 !in load.list && load.baseid !in load.list && i in load.list
    requires !(load.user && load.writeback)
    requires later.mem == Stm(saved, store, arm7).mem
    requires Low(load, later.s.r[load.baseid]) == Low(store, saved.s.r[store.baseid])
    ensures var mode := ModeOf(saved.s.cpsr);
            var b := TransferBank(store, mode, i);
            Has(b, i) && Logical(Ldm(later, load, arm7).s, mode, b, i) == Logical(saved.s, mode, b, i)
  {
    hide Ldm, Stm, Low, Logical, WordAt, Ahead;
    var mode := ModeOf(saved.s.cpsr);
    StmStores(saved, store, arm7, i);
    LdmLoads(later, load, arm7, TransferBank(store, mode, i), i);
    WordOfAhead(Low(store, saved.s.r[store.baseid]), Rank(store.list, i));
  }

  /** `STMDB base!, list` and `LDMIA base!, list`: the full descending stack. */
  function PushInstr(baseid: Reg, list: set<Reg>): Instr { Instr(true, false, false, true, baseid, list) }

  function PopInstr(baseid: Reg, list: set<Reg>): Instr { Instr(false, true, false, true, baseid, list) }

  lemma DownAndUp(base: u32, n: nat)
    requires n <= 16
    ensures Ahead(Wrap(base - 4 * n), n) == base
  {
  }

  /** Saving registers on the stack and restoring them brings back every listed register and the stack pointer. */
  lemma StackRoundTrip(saved: Machine, later: Machine, baseid: Reg, list: set<Reg>, arm7: bool, i: Reg)
    requires saved.s.Valid() && later.s.Valid() && ModeOf(later.s.cpsr) == ModeOf(saved.s.cpsr)
    requires 15 !in list && baseid !in list && i in list
    requires var m := Stm(saved, PushInstr(baseid, list), arm7);
             later.mem == m.mem && later.s.r[baseid] == m.s.r[baseid]
    ensures var t := Ldm(later, PopInstr(baseid, list), arm7).s;
            t.r[i] == saved.s.r[i] && t.r[baseid] == saved.s.r[baseid]
  {
    hide Ldm, Stm, Logical, Wrap;
    var (push, pop) := (PushInstr(baseid, list), PopInstr(baseid, list));
    var (mode, base) := (ModeOf(saved.s.cpsr), saved.s.r[baseid]);
    var t := Ldm(later, pop, arm7).s;
    StmBase(saved, push, arm7);
    SameLow(push, pop, base);
    LoadRestoresStore(saved, push, later, pop, arm7, i);
    SeenByMode(saved.s, mode, i);
    SeenByMode(t, mode, i);
    SeenByMode(t, mode, baseid);
    LdmLoads(later, pop, arm7, BankOf(mode, baseid), baseid);
    DownAndUp(base, Rank(list, 16));
  }

  lemma SameLow(push: Instr, pop: Instr, base: u32)
    requires push.pre && !push.up && !pop.pre && pop.up && push.list == pop.list
    ensures Low(pop, LoopBase(push, base)) == Low(push, base)
  {
  }

  /** User registers saved and restored from another mode, without writeback and in the same form: the base stays. */
  lemma UserRoundTrip(saved: Machine, later: Machine, instr: Instr, arm7: bool, i: Reg)
    requires saved.s.Valid() && later.s.Valid() && ModeOf(later.s.cpsr) == ModeOf(saved.s.cpsr)
    requires instr.user && !instr.writeback && 15 !in instr.list && instr.baseid !in instr.list && i in instr.list
    requires var m := Stm(saved, instr, arm7);
             later.mem == m.mem && later.s.r[instr.baseid] == m.s.r[instr.baseid]
    ensures var mode := ModeOf(saved.s.cpsr);
            var t := Ldm(later, instr, arm7).s;
            && Logical(t, mode, User, i) == Logical(saved.s, mode, User, i)
            && t.r[instr.baseid] == saved.s.r[instr.baseid]
  {
    hide Ldm, Stm, Logical, Wrap;
    var mode := ModeOf(saved.s.cpsr);
    var t := Ldm(later, instr, arm7).s;
    StmBase(saved, instr, arm7);
    LoadRestoresStore(saved, instr, later, instr, arm7, i);
    SeenByMode(later.s, mode, instr.baseid);
    SeenByMode(t, mode, instr.baseid);
    LdmLoads(later, instr, arm7, BankOf(mode, instr.baseid), instr.baseid);
  }
}
