/** The windows through which the two CPUs see the shared work RAM, and the memory as they access it. */
module SharedWRAMWindows {
  import opened Basics
  import opened SharedWRAM

  // ---------------------------------------------------------------- windows

  /** A window register as written, and what the emulator derived from it. */
  datatype Window = Window(reg: nat, start: nat, end: nat, mask: nat)

  const RESET_WINDOW := Window(0, 0, 0, 0)

  const BASE := 0x0300_0000

  const LIMIT := 0x0400_0000

  /** The bits of a window register that can be set: end, size and start. */
  function KeptBits(kind: Kind, val: nat): nat {
    if kind.A? then val / 0x10_0000 % 0x200 * 0x10_0000 + val / 0x10 % 0x400 * 0x10
    else val / 0x8_0000 % 0x400 * 0x8_0000 + val / 8 % 0x800 * 8
  }

  function MaskOf(kind: Kind, size: nat): nat
    requires size < 4
  {
    if kind.A? then if size < 2 then 0 else if size == 2 then 1 else 3
    else if size == 0 then 0 else if size == 1 then 1 else if size == 2 then 3 else 7
  }

  function WindowOf(kind: Kind, reg: nat): Window {
    var mask := MaskOf(kind, reg / 0x1000 % 4);
    if kind.A? then
      Window(reg, BASE + reg / 0x10 % 0x100 * 0x1_0000, BASE + reg / 0x10_0000 % 0x200 * 0x1_0000, mask)
    else
      Window(reg, BASE + reg / 8 % 0x200 * 0x8000, BASE + reg / 0x8_0000 % 0x400 * 0x8000, mask)
  }

  predicate Inside(w: Window, addr: nat) { w.start <= addr < w.end }

  /** `MapNWRAMRange`: nothing happens unless the register changes. */
  function MapRange(kind: Kind, w: Window, val: nat): Window {
    if w.reg == KeptBits(kind, val) then w else WindowOf(kind, KeptBits(kind, val))
  }

  /** For every address that can reach it, the window is the one its register describes. */
  predicate WindowInv(kind: Kind, w: Window) {
    && (w.start == WindowOf(kind, w.reg).start || w.end <= w.start)
    && (forall addr: nat :: BASE <= addr < LIMIT ==> (Inside(w, addr) <==> Inside(WindowOf(kind, w.reg), addr)))
    && (w.start < w.end ==> w == WindowOf(kind, w.reg))
    && w.mask < PartCount(kind)
  }

  lemma ResetWindowInv(kind: Kind)
    ensures WindowInv(kind, RESET_WINDOW)
  {
  }

  lemma MapRangeKeeps(kind: Kind, w: Window, val: nat)
    requires WindowInv(kind, w)
    ensures WindowInv(kind, MapRange(kind, w, val)) && MapRange(kind, w, val).reg == KeptBits(kind, val)
  {
    hide KeptBits;
  }

  // ---------------------------------------------------------------- the memory

  /** Bank and window numbers 0, 1 and 2 are banks A, B and C; CPU 0 is the ARM9. */
  datatype Memory = Memory(banks: seq<Bank>, windows: seq<seq<Window>>, access: seq<bool>)

  function KindOf(k: nat): Kind { if k == 0 then A else if k == 1 then B else C }

  ghost predicate Inv(s: Memory) {
    && |s.banks| == 3 && |s.windows| == 2 && |s.windows[0]| == 3 && |s.windows[1]| == 3 && |s.access| == 2
    && (forall k :: 0 <= k < 3 ==> BankInv(s.banks[k]) && s.banks[k].kind == KindOf(k))
    && (forall cpu, k :: 0 <= cpu < 2 && 0 <= k < 3 ==> WindowInv(KindOf(k), s.windows[cpu][k]))
  }

  /** The bank, slot and offset that an access goes to: the first window that contains the address. */
  datatype Target = Target(bank: nat, slot: nat, at: nat)

  function Within(s: Memory, cpu: nat, addr: nat, k: nat): Target
    requires Inv(s) && cpu < 2 && k < 3
    ensures Within(s, cpu, addr, k).bank < 3
    ensures Within(s, cpu, addr, k).slot < PartCount(KindOf(k)) && Within(s, cpu, addr, k).at < PageSize(KindOf(k))
  {
    assert s.windows[cpu][k].mask < PartCount(KindOf(k));
    Target(k, addr / PageSize(KindOf(k)) % (s.windows[cpu][k].mask + 1), addr % PageSize(KindOf(k)))
  }

  function Find(s: Memory, cpu: nat, addr: nat): Option<Target>
    requires Inv(s) && cpu < 2
  {
    if !s.access[cpu] || !(BASE <= addr < LIMIT) then None
    else if Inside(s.windows[cpu][0], addr) then Some(Within(s, cpu, addr, 0))
    else if Inside(s.windows[cpu][1], addr) then Some(Within(s, cpu, addr, 1))
    else if Inside(s.windows[cpu][2], addr) then Some(Within(s, cpu, addr, 2))
    else None
  }

  /** Accesses of 1, 2 or 4 bytes; wider ones drop the low address bits. */
  predicate IsWidth(n: nat) { n == 1 || n == 2 || n == 4 }

  function Aligned(addr: nat, width: nat): nat
    requires IsWidth(width)
  {
    addr - addr % width
  }

  lemma AlignedFits(s: Memory, cpu: nat, addr: nat, width: nat)
    requires Inv(s) && cpu < 2 && IsWidth(width) && Find(s, cpu, Aligned(addr, width)).Some?
    ensures var t := Find(s, cpu, Aligned(addr, width)).value;
            t.bank < 3 && t.slot < PartCount(KindOf(t.bank)) && t.at + width <= PageSize(KindOf(t.bank))
  {
    hide Inv, WindowInv, BankInv;
    var a := Aligned(addr, width);
    assert a % width == 0;
    OffsetAligned(a, width);
  }

  lemma HalfPage(a: nat)
    ensures a % 0x1_0000 == a % 0x8000 || a % 0x1_0000 == a % 0x8000 + 0x8000
  {
    var (q, r) := (a / 0x1_0000, a % 0x1_0000);
    assert a == 2 * q * 0x8000 + r;
  }

  lemma EvenOffset(a: nat)
    requires a % 2 == 0
    ensures a % 0x8000 <= 0x8000 - 2
  {
    var (q, r) := (a / 0x8000, a % 0x8000);
    assert a == 2 * (q * 0x4000) + r;
  }

  lemma WordOffset(a: nat)
    requires a % 4 == 0
    ensures a % 0x8000 <= 0x8000 - 4
  {
    var (q, r) := (a / 0x8000, a % 0x8000);
    assert a == 4 * (q * 0x2000) + r;
  }

  lemma OffsetAligned(a: nat, width: nat)
    requires IsWidth(width) && a % width == 0
    ensures a % 0x1_0000 + width <= 0x1_0000 && a % 0x8000 + width <= 0x8000
  {
    HalfPage(a);
    if width == 2 {
      EvenOffset(a);
    } else if width == 4 {
      WordOffset(a);
    }
  }

  /** What a CPU reads there, None where ordinary memory answers. */
  function Read(s: Memory, cpu: nat, addr: nat, width: nat): Option<seq<byte>>
    requires Inv(s) && cpu < 2 && IsWidth(width)
  {
    var found := Find(s, cpu, Aligned(addr, width));
    if found.None? then None
    else
      AlignedFits(s, cpu, addr, width);
      var t := found.value;
      Some(ReadSlot(s.banks[t.bank], cpu, t.slot, t.at, width))
  }

  function Write(s: Memory, cpu: nat, addr: nat, bytes: seq<byte>): Memory
    requires Inv(s) && cpu < 2 && IsWidth(|bytes|)
  {
    var found := Find(s, cpu, Aligned(addr, |bytes|));
    if found.None? then s
    else
      AlignedFits(s, cpu, addr, |bytes|);
      var t := found.value;
      var b := s.banks[t.bank];
      s.(banks := s.banks[t.bank := Broadcast(b, SettingsOf(b, cpu), cpu, t.slot, t.at, bytes)])
  }

  /**
   * Whichever CPU writes wherever in a mapped window, reading the same address
   * with the same width afterwards gives the bytes back, if any part is mapped
   * to that slot; from a slot with no part both CPUs keep reading zeros.
   */
  lemma WriteThenRead(s: Memory, cpu: nat, addr: nat, bytes: seq<byte>)
    requires Inv(s) && cpu < 2 && IsWidth(|bytes|) && Find(s, cpu, Aligned(addr, |bytes|)).Some?
    ensures Inv(Write(s, cpu, addr, bytes))
    ensures var t := Find(s, cpu, Aligned(addr, |bytes|)).value;
            t.bank < 3 && t.slot < PartCount(KindOf(t.bank))
            && Read(Write(s, cpu, addr, bytes), cpu, addr, |bytes|)
               == Some(if PageAt(s.banks[t.bank], cpu, t.slot).Some? then bytes else seq(|bytes|, _ => 0))
  {
    hide BankInv, WindowInv, ReadSlot, Broadcast, PageAt, Aligned;
    AlignedFits(s, cpu, addr, |bytes|);
    var t := Find(s, cpu, Aligned(addr, |bytes|)).value;
    ReadAfterWrite(s.banks[t.bank], cpu, t.slot, t.at, bytes);
    WriteKeepsKind(s, cpu, addr, bytes);
    AlignedFits(Write(s, cpu, addr, bytes), cpu, addr, |bytes|);
  }

  lemma WriteKeepsKind(s: Memory, cpu: nat, addr: nat, bytes: seq<byte>)
    requires Inv(s) && cpu < 2 && IsWidth(|bytes|)
    ensures var u := Write(s, cpu, addr, bytes);
            Inv(u) && u.windows == s.windows && u.access == s.access
            && forall k :: 0 <= k < 3 ==> u.banks[k].kind == s.banks[k].kind
  {
    hide BankInv, WindowInv;
    if Find(s, cpu, Aligned(addr, |bytes|)).Some? {
      AlignedFits(s, cpu, addr, |bytes|);
      var t := Find(s, cpu, Aligned(addr, |bytes|)).value;
      BroadcastKeeps(s.banks[t.bank], cpu, t.slot, t.at, bytes);
    }
  }

  // ---------------------------------------------------------------- the unit as the emulator updates it

  class SharedWRAMUnit {
    var banks: seq<Bank>
    var windows: seq<seq<Window>>
    var access: seq<bool>

    constructor ()
      ensures Inv(State()) && forall k :: 0 <= k < 3 ==> banks[k] == ResetBank(KindOf(k))
    {
      banks := [ResetBank(A), ResetBank(B), ResetBank(C)];
      var reset := [RESET_WINDOW, RESET_WINDOW, RESET_WINDOW];
      windows, access := [reset, reset], [true, true];
      new;
      ResetInv(A);
      ResetInv(B);
      ResetInv(C);
      ResetWindowInv(A);
      ResetWindowInv(B);
      ResetWindowInv(C);
    }

    function State(): Memory
      reads this
    {
      Memory(banks, windows, access)
    }

    /** Parts from the last to the first, so that the lowest-numbered one stays in the slot. */
    static method BuildTable(kind: Kind, settings: seq<byte>) returns (table: PointerTable)
      requires |settings| == PartCount(kind)
      ensures table == TableOf(kind, settings)
    {
      hide SlotOf, MasterOf;
      table := EmptyTable(kind);
      var part := PartCount(kind);
      while part > 0
        invariant 0 <= part <= PartCount(kind) && Shaped(kind, table) && TableFrom(kind, settings, table, part)
      {
        part := part - 1;
        var v := settings[part];
        ghost var before := table;
        if Enabled(v) {
          var (m, slot) := (MasterOf(kind, v), SlotOf(kind, v));
          FieldsInRange(kind, v);
          table := table[m := table[m][slot := Some(part)]];
        }
        assert TableFrom(kind, settings, table, part) by {
          FieldsInRange(kind, v);
          OnePartEarlier(kind, settings, before, table, part);
        }
      }
      forall m | 0 <= m < MasterCount(kind)
        ensures table[m] == TableOf(kind, settings)[m]
      {
      }
    }

    method MapNWRAM(k: nat, num: nat, val: byte)
      requires Inv(State()) && k < 3 && num < PartCount(KindOf(k))
      modifies this`banks
      ensures Inv(State()) && banks == old(banks)[k := MapPart(old(banks)[k], num, val)]
    {
      hide Settable, WindowInv;
      var b := banks[k];
      MapPartKeeps(b, num, val);
      var v := Settable(b.kind, val);
      if num in b.protect {
        return;
      }
      var oldval := b.mbk9[num];
      if oldval == v {
        return;
      }
      var settings := b.mbk9[num := v];
      var table := BuildTable(b.kind, settings);
      banks := banks[k := b.(mbk9 := settings, mbk7 := settings, table := table)];
    }

    method MapNWRAMRange(cpu: nat, k: nat, val: nat)
      requires Inv(State()) && cpu < 2 && k < 3
      modifies this`windows
      ensures Inv(State())
      ensures windows == old(windows)[cpu := old(windows)[cpu][k := MapRange(KindOf(k), old(windows)[cpu][k], val)]]
    {
      hide BankInv, WindowInv, KeptBits;
      MapRangeKeeps(KindOf(k), windows[cpu][k], val);
      var v := KeptBits(KindOf(k), val);
      var oldval := windows[cpu][k].reg;
      if oldval == v {
        assert windows[cpu] == windows[cpu][k := windows[cpu][k]];
        assert windows == windows[cpu := windows[cpu]];
        return;
      }
      var size := v / 0x1000 % 4;
      var start, end, mask;
      if k == 0 {
        start := BASE + v / 0x10 % 0x100 * 0x1_0000;
        end := BASE + v / 0x10_0000 % 0x200 * 0x1_0000;
        if size == 0 || size == 1 {
          mask := 0;
        } else if size == 2 {
          mask := 1;
        } else {
          mask := 3;
        }
      } else {
        start := BASE + v / 8 % 0x200 * 0x8000;
        end := BASE + v / 0x8_0000 % 0x400 * 0x8000;
        if size == 0 {
          mask := 0;
        } else if size == 1 {
          mask := 1;
        } else if size == 2 {
          mask := 3;
        } else {
          mask := 7;
        }
      }
      windows := windows[cpu := windows[cpu][k := Window(v, start, end, mask)]];
    }

    /** The loop of a write over all pages of a bank. */
    static method WritePages(b: Bank, cpu: nat, slot: nat, at: nat, bytes: seq<byte>) returns (r: Bank)
      requires BankInv(b) && cpu < 2 && at + |bytes| <= PageSize(b.kind)
      ensures r == Broadcast(b, SettingsOf(b, cpu), cpu, slot, at, bytes)
    {
      hide Settable, TableFrom, Stored, Wanted;
      ghost var target := Broadcast(b, SettingsOf(b, cpu), cpu, slot, at, bytes);
      var pages := b.pages;
      var destPartSetting := Wanted(slot, cpu);
      for page := 0 to |b.pages|
        invariant |pages| == |b.pages|
        invariant forall p :: 0 <= p < |pages| ==> pages[p] == if p < page then target.pages[p] else b.pages[p]
      {
        if SettingsOf(b, cpu)[page] == destPartSetting {
          pages := pages[page := Stored(pages[page], at, bytes)];
        }
      }
      r := b.(pages := pages);
    }

    method WriteBytes(cpu: nat, addr: nat, bytes: seq<byte>)
      requires Inv(State()) && cpu < 2 && IsWidth(|bytes|)
      modifies this`banks
      ensures State() == Write(old(State()), cpu, addr, bytes) && Inv(State())
    {
      hide BankInv, WindowInv, Aligned, Broadcast;
      WriteKeepsKind(State(), cpu, addr, bytes);
      var found := Find(State(), cpu, Aligned(addr, |bytes|));
      if found.Some? {
        AlignedFits(State(), cpu, addr, |bytes|);
        var t := found.value;
        var b := WritePages(banks[t.bank], cpu, t.slot, t.at, bytes);
        banks := banks[t.bank := b];
      }
    }
  }

  lemma FieldsInRange(kind: Kind, v: byte)
    ensures MasterOf(kind, v) < MasterCount(kind) && SlotOf(kind, v) < PartCount(kind)
  {
  }

  lemma OnePartEarlier(kind: Kind, settings: seq<byte>, before: PointerTable, table: PointerTable, part: nat)
    requires part < |settings| && Shaped(kind, before) && TableFrom(kind, settings, before, part + 1)
    requires MasterOf(kind, settings[part]) < MasterCount(kind) && SlotOf(kind, settings[part]) < PartCount(kind)
    requires var (m, slot) := (MasterOf(kind, settings[part]), SlotOf(kind, settings[part]));
             table == if Enabled(settings[part]) then before[m := before[m][slot := Some(part)]] else before
    ensures Shaped(kind, table) && TableFrom(kind, settings, table, part)
  {
    hide SlotOf, MasterOf;
    forall m, slot | 0 <= m < MasterCount(kind) && 0 <= slot < PartCount(kind)
      ensures table[m][slot] == Lowest(kind, settings, m, slot, part)
    {
      assert before[m][slot] == Lowest(kind, settings, m, slot, part + 1);
    }
  }
}
