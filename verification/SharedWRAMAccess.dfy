/**
 * Which byte of the shared work RAM an address reaches, by the fields of the
 * window registers and the bytes of the mapping registers alone.
 */
module SharedWRAMAccess {
  import opened Basics
  import opened SharedWRAM
  import opened SharedWRAMWindows

  // ---------------------------------------------------------------- the fields of a window register

  /** Bank 0 is bank A, with pages of 64 KiB; banks B and C have pages of 32 KiB. */
  function Page(k: nat): nat { if k == 0 then 65536 else 32768 }

  /** Bits 4 to 11 for bank A, bits 3 to 11 for the others, in pages. */
  function First(k: nat, reg: nat): nat {
    0x0300_0000 + if k == 0 then reg / 16 % 256 * 65536 else reg / 8 % 512 * 32768
  }

  /** Bits 20 to 28 for bank A, bits 19 to 28 for the others. */
  function Behind(k: nat, reg: nat): nat {
    0x0300_0000 + if k == 0 then reg / 0x10_0000 % 512 * 65536 else reg / 0x8_0000 % 1024 * 32768
  }

  /** Bits 12 and 13: the number of slots that the window repeats. */
  function Slots(k: nat, reg: nat): nat {
    var size := reg / 4096 % 4;
    if size == 0 then 1
    else if size == 1 then if k == 0 then 1 else 2
    else if size == 2 then if k == 0 then 2 else 4
    else if k == 0 then 4 else 8
  }

  predicate Covers(k: nat, reg: nat, addr: nat) { First(k, reg) <= addr < Behind(k, reg) }

  /** Window k answers: the memory is enabled, the address in range, and no earlier window covers it. */
  ghost predicate Answers(s: Memory, cpu: nat, addr: nat, k: nat)
    requires Inv(s) && cpu < 2 && k < 3
  {
    && s.access[cpu] && 0x0300_0000 <= addr < 0x0400_0000
    && Covers(k, s.windows[cpu][k].reg, addr) && forall j :: 0 <= j < k ==> !Covers(j, s.windows[cpu][j].reg, addr)
  }

  /** The slot of a covered address: its page number modulo the slots of the window. */
  function SlotAt(k: nat, reg: nat, addr: nat): nat {
    addr / Page(k) % Slots(k, reg)
  }

  /** The address q pages and r bytes from the start of the range lies at byte r of slot q, around the slots. */
  lemma PagesFromStart(k: nat, reg: nat, q: nat, r: nat)
    requires r < Page(k)
    ensures SlotAt(k, reg, 0x0300_0000 + q * Page(k) + r) == q % Slots(k, reg)
    ensures (0x0300_0000 + q * Page(k) + r) % Page(k) == r
  {
    hide Slots;
    var base := if k == 0 then 768 else 1536;
    assert 0x0300_0000 == base * Page(k);
    Distributes(base, q, Page(k));
    DivisionUnique(0x0300_0000 + q * Page(k) + r, Page(k), base + q, r);
    SlotsDivide(k, reg, q, base / 8);
  }

  lemma Distributes(a: nat, b: nat, c: nat)
    ensures (a + b) * c == a * c + b * c
  {
  }

  lemma SlotsDivide(k: nat, reg: nat, q: nat, c: nat)
    ensures (8 * c + q) % Slots(k, reg) == q % Slots(k, reg)
  {
    var n := Slots(k, reg);
    assert n == 1 || n == 2 || n == 4 || n == 8;
    if n == 2 {
      DivisionUnique(8 * c + q, 2, 4 * c + q / 2, q % 2);
    } else if n == 4 {
      DivisionUnique(8 * c + q, 4, 2 * c + q / 4, q % 4);
    } else if n == 8 {
      DivisionUnique(8 * c + q, 8, c + q / 8, q % 8);
    }
  }

  lemma WindowAt(s: Memory, cpu: nat, addr: nat, k: nat)
    requires Inv(s) && cpu < 2 && k < 3 && 0x0300_0000 <= addr < 0x0400_0000
    ensures Inside(s.windows[cpu][k], addr) <==> Covers(k, s.windows[cpu][k].reg, addr)
    ensures Covers(k, s.windows[cpu][k].reg, addr) ==> s.windows[cpu][k].mask + 1 == Slots(k, s.windows[cpu][k].reg)
  {
    hide BankInv;
    var w := s.windows[cpu][k];
    assert WindowInv(KindOf(k), w);
    assert Inside(WindowOf(KindOf(k), w.reg), addr) <==> Covers(k, w.reg, addr);
  }

  lemma FoundAt(s: Memory, cpu: nat, addr: nat, k: nat)
    requires Inv(s) && cpu < 2 && k < 3 && Answers(s, cpu, addr, k)
    ensures Find(s, cpu, addr) == Some(Target(k, SlotAt(k, s.windows[cpu][k].reg, addr), addr % Page(k)))
  {
    hide BankInv, WindowInv, Covers, Slots;
    forall j | 0 <= j <= k
      ensures Inside(s.windows[cpu][j], addr) <==> Covers(j, s.windows[cpu][j].reg, addr)
    {
      WindowAt(s, cpu, addr, j);
    }
    WindowAt(s, cpu, addr, k);
  }

  lemma NotFound(s: Memory, cpu: nat, addr: nat)
    requires Inv(s) && cpu < 2 && forall k :: 0 <= k < 3 ==> !Answers(s, cpu, addr, k)
    ensures Find(s, cpu, addr) == None
  {
    hide BankInv, WindowInv, Covers;
    if 0x0300_0000 <= addr < 0x0400_0000 && s.access[cpu] {
      WindowAt(s, cpu, addr, 0);
      WindowAt(s, cpu, addr, 1);
      WindowAt(s, cpu, addr, 2);
      assert !Answers(s, cpu, addr, 0) && !Answers(s, cpu, addr, 1) && !Answers(s, cpu, addr, 2);
    }
  }

  // ---------------------------------------------------------------- reading

  /** The byte of a mapping register that puts a part into a slot of a CPU: enabled, the slot, the CPU. */
  function Setting(slot: nat, cpu: nat): nat { 128 + 4 * slot + cpu }

  /** A slot shows the lowest part mapped to it, or zeros. */
  lemma SlotShowsLowest(b: Bank, cpu: nat, slot: nat, at: nat, width: nat, p: nat)
    requires BankInv(b) && cpu < 2 && slot < PartCount(b.kind) && at + width <= PageSize(b.kind)
    ensures p < |b.mbk9| && b.mbk9[p] == Setting(slot, cpu)
            && (forall q :: 0 <= q < p ==> b.mbk9[q] != Setting(slot, cpu)) ==>
              ReadSlot(b, cpu, slot, at, width) == b.pages[p][at..at + width]
    ensures (forall q :: 0 <= q < |b.mbk9| ==> b.mbk9[q] != Setting(slot, cpu)) ==>
              ReadSlot(b, cpu, slot, at, width) == seq(width, _ => 0)
  {
    hide Settable, MappedTo;
    forall q | 0 <= q < |b.mbk9|
      ensures b.mbk9[q] == Setting(slot, cpu) <==> MappedTo(b.kind, b.mbk9[q], cpu, slot)
    {
      WantedIsMapped(b.kind, b.mbk9[q], cpu, slot);
    }
  }

  lemma Fits(s: Memory, cpu: nat, addr: nat, width: nat, k: nat)
    requires Inv(s) && cpu < 2 && k < 3 && width in {1, 2, 4} && addr % width == 0 && Answers(s, cpu, addr, k)
    ensures SlotAt(k, s.windows[cpu][k].reg, addr) < PartCount(s.banks[k].kind)
    ensures Page(k) == PageSize(s.banks[k].kind)
    ensures |s.banks[k].mbk9| == |s.banks[k].pages| == PartCount(s.banks[k].kind)
    ensures addr % Page(k) + width <= Page(k)
    ensures forall p :: 0 <= p < |s.banks[k].pages| ==> |s.banks[k].pages[p]| == Page(k)
  {
    hide WindowInv, Covers;
    OffsetAligned(addr, width);
  }

  /**
   * A read of an aligned address that window k answers shows, from the offset in
   * the page on, the lowest part whose setting names the slot and the CPU, or
   * zeros if there is none.
   */
  lemma ReadsLowestPart(s: Memory, cpu: nat, addr: nat, width: nat, k: nat, p: nat)
    requires Inv(s) && cpu < 2 && k < 3 && width in {1, 2, 4} && addr % width == 0 && Answers(s, cpu, addr, k)
    ensures var (b, slot, at) := (s.banks[k], SlotAt(k, s.windows[cpu][k].reg, addr), addr % Page(k));
            && |b.mbk9| == |b.pages| == (if k == 0 then 4 else 8)
            && (p < |b.mbk9| && b.mbk9[p] == Setting(slot, cpu)
                && (forall q :: 0 <= q < p ==> b.mbk9[q] != Setting(slot, cpu)) ==>
                  |b.pages[p]| == Page(k) && at + width <= Page(k)
                  && Read(s, cpu, addr, width) == Some(b.pages[p][at..at + width]))
            && ((forall q :: 0 <= q < |b.mbk9| ==> b.mbk9[q] != Setting(slot, cpu)) ==>
                  Read(s, cpu, addr, width) == Some(seq(width, _ => 0)))
  {
    hide WindowInv, Covers, ReadSlot, Slots;
    FoundAt(s, cpu, addr, k);
    Fits(s, cpu, addr, width, k);
    SlotShowsLowest(s.banks[k], cpu, SlotAt(k, s.windows[cpu][k].reg, addr), addr % Page(k), width, p);
    assert BankInv(s.banks[k]) && s.banks[k].kind == KindOf(k);
  }

  /** An access that no window answers is for ordinary memory. */
  lemma OtherAccesses(s: Memory, cpu: nat, addr: nat, bytes: seq<byte>)
    requires Inv(s) && cpu < 2 && |bytes| in {1, 2, 4} && addr % |bytes| == 0
    requires forall k :: 0 <= k < 3 ==> !Answers(s, cpu, addr, k)
    ensures Read(s, cpu, addr, |bytes|) == None && Write(s, cpu, addr, bytes) == s
  {
    hide Inv, ReadSlot, Broadcast, Answers, Find;
    NotFound(s, cpu, addr);
  }

  /** A wide access first drops its low address bits. */
  lemma DropsLowBits(s: Memory, cpu: nat, addr: nat, bytes: seq<byte>)
    requires Inv(s) && cpu < 2 && |bytes| in {1, 2, 4}
    ensures Read(s, cpu, addr, |bytes|) == Read(s, cpu, addr - addr % |bytes|, |bytes|)
    ensures Write(s, cpu, addr, bytes) == Write(s, cpu, addr - addr % |bytes|, bytes)
  {
    hide Find, Inv, ReadSlot, Broadcast;
    assert (addr - addr % |bytes|) % |bytes| == 0;
  }

  // ---------------------------------------------------------------- writing

  /** The bytes stand from `at` on in every part with the setting, and no other byte of the bank has changed. */
  ghost predicate Wrote(before: Bank, after: Bank, setting: nat, at: nat, bytes: seq<byte>, page: nat)
    requires |before.mbk9| == |before.pages|
  {
    && after == before.(pages := after.pages) && |after.pages| == |before.pages|
    && (forall p :: 0 <= p < |before.pages| ==> |after.pages[p]| == |before.pages[p]| == page)
    && (forall p, i :: 0 <= p < |before.pages| && 0 <= i < page ==>
          after.pages[p][i] == if before.mbk9[p] == setting && at <= i < at + |bytes| then bytes[i - at]
                               else before.pages[p][i])
  }

  /**
   * A write to an aligned address that window k answers stores the bytes from the
   * offset in the page on in every part whose setting names the slot and the CPU,
   * and changes no other byte of any bank.
   */
  lemma WritesAllParts(s: Memory, cpu: nat, addr: nat, bytes: seq<byte>, k: nat)
    requires Inv(s) && cpu < 2 && k < 3 && |bytes| in {1, 2, 4} && addr % |bytes| == 0 && Answers(s, cpu, addr, k)
    ensures var (slot, at) := (SlotAt(k, s.windows[cpu][k].reg, addr), addr % Page(k));
            var t := Write(s, cpu, addr, bytes);
            && |s.banks[k].mbk9| == |s.banks[k].pages| == (if k == 0 then 4 else 8)
            && |t.banks| == 3 && t.windows == s.windows && t.access == s.access
            && (forall j :: 0 <= j < 3 && j != k ==> t.banks[j] == s.banks[j])
            && Wrote(s.banks[k], t.banks[k], Setting(slot, cpu), at, bytes, Page(k))
  {
    hide WindowInv, Covers, Slots, Wrote, Broadcast, BankInv;
    FoundAt(s, cpu, addr, k);
    Fits(s, cpu, addr, |bytes|, k);
    var (b, slot, at) := (s.banks[k], SlotAt(k, s.windows[cpu][k].reg, addr), addr % Page(k));
    assert BankInv(b) && b.kind == KindOf(k);
    BroadcastBytes(b, cpu, slot, at, bytes);
  }

  lemma BroadcastBytes(b: Bank, cpu: nat, slot: nat, at: nat, bytes: seq<byte>)
    requires BankInv(b) && at + |bytes| <= PageSize(b.kind)
    ensures Wrote(b, Broadcast(b, SettingsOf(b, cpu), cpu, slot, at, bytes), Setting(slot, cpu), at, bytes,
                  PageSize(b.kind))
  {
    hide Settable, TableFrom;
  }

  // ---------------------------------------------------------------- the registers

  lemma KeptA(val: nat)
    requires val < 0x1_0000_0000
    ensures var reg := KeptBits(A, val);
            && reg % 16 == 0 && reg < 0x2000_0000
            && reg / 0x10_0000 == val / 0x10_0000 % 0x200 && reg / 16 % 0x1_0000 == val / 16 % 0x400
  {
    var (e, l) := (val / 0x10_0000 % 0x200, val / 0x10 % 0x400);
    var reg := e * 0x10_0000 + l * 0x10;
    DivisionUnique(reg, 16, e * 0x1_0000 + l, 0);
    DivisionUnique(reg, 0x10_0000, e, l * 16);
    DivisionUnique(e * 0x1_0000 + l, 0x1_0000, e, l);
  }

  lemma KeptB(val: nat)
    requires val < 0x1_0000_0000
    ensures var reg := KeptBits(B, val);
            && KeptBits(C, val) == reg && reg % 8 == 0 && reg < 0x2000_0000
            && reg / 0x8_0000 == val / 0x8_0000 % 0x400 && reg / 8 % 0x1_0000 == val / 8 % 0x800
  {
    var (e, l) := (val / 0x8_0000 % 0x400, val / 8 % 0x800);
    var reg := e * 0x8_0000 + l * 8;
    DivisionUnique(reg, 8, e * 0x1_0000 + l, 0);
    DivisionUnique(reg, 0x8_0000, e, l * 8);
    DivisionUnique(e * 0x1_0000 + l, 0x1_0000, e, l);
  }

  /** Bits 12 and 13 within the lower field. */
  lemma SizeField(x: nat, unit: nat, f: nat)
    requires (unit == 16 && f == 0x100) || (unit == 8 && f == 0x200)
    ensures x / 4096 % 4 == x / unit % (4 * f) / f && x / unit % f == x / unit % (4 * f) % f
  {
    var y := x / unit;
    assert x / 4096 == y / f;
    var (q, r) := (y / (4 * f), y % (4 * f));
    assert y == q * (4 * f) + r;
    DivisionUnique(y, f, 4 * q + r / f, r % f);
  }

  lemma FieldsKeptA(reg: nat, val: nat)
    requires reg / 0x10_0000 == val / 0x10_0000 % 0x200 && reg / 16 % 0x400 == val / 16 % 0x400
    ensures First(0, reg) == First(0, val) && Behind(0, reg) == Behind(0, val)
    ensures reg / 4096 % 4 == val / 4096 % 4
  {
    SizeField(val, 16, 0x100);
    SizeField(reg, 16, 0x100);
    var e := val / 0x10_0000 % 0x200;
    assert e % 512 == e;
  }

  lemma FieldsKeptB(k: nat, reg: nat, val: nat)
    requires k > 0 && reg / 0x8_0000 == val / 0x8_0000 % 0x400 && reg / 8 % 0x800 == val / 8 % 0x800
    ensures First(k, reg) == First(k, val) && Behind(k, reg) == Behind(k, val)
    ensures reg / 4096 % 4 == val / 4096 % 4
  {
    SizeField(val, 8, 0x200);
    SizeField(reg, 8, 0x200);
    var e := val / 0x8_0000 % 0x400;
    assert e % 1024 == e;
  }

  lemma SameSize(k: nat, reg: nat, val: nat)
    requires reg / 4096 % 4 == val / 4096 % 4
    ensures Slots(k, reg) == Slots(k, val)
  {
  }

  lemma RegisterIs(kind: Kind, w: Window, val: nat)
    ensures MapRange(kind, w, val).reg == KeptBits(kind, val)
  {
  }

  /** A window register keeps the fields of what is written to it. */
  lemma RegisterKeepsFields(k: nat, w: Window, val: nat)
    requires val < 0x1_0000_0000 && k < 3
    ensures var reg := MapRange(KindOf(k), w, val).reg;
            First(k, reg) == First(k, val) && Behind(k, reg) == Behind(k, val) && Slots(k, reg) == Slots(k, val)
  {
    hide KeptBits, Slots, MapRange, First, Behind;
    var reg := MapRange(KindOf(k), w, val).reg;
    RegisterIs(KindOf(k), w, val);
    if k == 0 {
      KeptA(val);
      Narrower(reg / 16, 0x400, 64);
      FieldsKeptA(reg, val);
    } else {
      KeptB(val);
      Narrower(reg / 8, 0x800, 32);
      FieldsKeptB(k, reg, val);
    }
    SameSize(k, reg, val);
  }

  lemma Narrower(y: nat, m: nat, c: nat)
    requires m > 0 && c > 0 && y % (m * c) < m
    ensures y % m == y % (m * c)
  {
    var (q, r) := (y / (m * c), y % (m * c));
    assert q * (m * c) == (q * c) * m;
    DivisionUnique(y, m, q * c, r);
  }

  /** A mapping register keeps the enable bit, the slot and the master, and in bank A two other bits less. */
  lemma SettingKeepsFields(kind: Kind, val: byte)
    ensures var v := Settable(kind, val);
            && v / 128 == val / 128 && v / 32 % 4 == 0
            && (kind.A? ==> v / 4 % 4 == val / 4 % 4 && v % 4 == val % 2 && v / 16 % 2 == 0)
            && (!kind.A? ==> v % 32 == val % 32)
  {
    FieldsA(val / 128, val / 4 % 4, val % 2);
    FieldsB(val / 128, val % 32);
  }

  /** The number that a part's setting gives as its master: in banks B and C both 2 and 3 are the DSP. */
  function Master(k: nat, v: byte): nat { if k == 0 then v % 2 else if v % 4 == 3 then 2 else v % 4 }

  /** An entry of the table is a part exactly if that is the first one set to the slot and the master. */
  lemma TableShowsLowest(b: Bank, k: nat, master: nat, slot: nat, p: nat)
    requires BankInv(b) && b.kind == KindOf(k) && p < |b.mbk9|
    requires master < (if k == 0 then 2 else 3) && slot < (if k == 0 then 4 else 8)
    ensures |b.table| > master && |b.table[master]| > slot
    ensures b.table[master][slot] == Some(p)
            <==> && b.mbk9[p] >= 128 && b.mbk9[p] / 4 % (if k == 0 then 4 else 8) == slot
                 && Master(k, b.mbk9[p]) == master
                 && forall q :: 0 <= q < p ==>
                      !(b.mbk9[q] >= 128 && b.mbk9[q] / 4 % (if k == 0 then 4 else 8) == slot
                        && Master(k, b.mbk9[q]) == master)
  {
    hide Settable;
    var found := Lowest(b.kind, b.mbk9, master, slot, 0);
    assert b.table[master][slot] == found;
    forall q | 0 <= q < |b.mbk9|
      ensures MappedTo(b.kind, b.mbk9[q], master, slot)
              <==> b.mbk9[q] >= 128 && b.mbk9[q] / 4 % (if k == 0 then 4 else 8) == slot
                   && Master(k, b.mbk9[q]) == master
    {
    }
  }
}
