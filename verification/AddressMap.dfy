/** Where the code of both processors sits, by intervals of addresses. */
module AddressMap {
  import opened Basics
  import opened JitIndex
  import opened CodeWindows

  /** An offset in a region, by the region's number: the bits from 27 on. */
  function Place(region: nat, offset: nat): nat { region * 0x800_0000 + offset }

  /** Where a bank's window shows an address, zero in an unmapped slot. */
  function InBank(view: BankView, region: nat, page: nat, a: Address): nat
    requires page > 0 && 1 <= view.slots <= |view.table|
  {
    match view.table[a / page % view.slots]
    case None => 0
    case Some(p) => Place(region, p + a % page)
  }

  /** The banks of a DSi, A before B before C; None where no window covers the address. */
  function InBanks(m: Machine, banks: seq<BankView>, a: Address): Option<nat>
    requires BanksFit(banks)
  {
    if !m.dsi then None
    else if banks[0].start <= a < banks[0].end then Some(InBank(banks[0], 15, 0x1_0000, a))
    else if banks[1].start <= a < banks[1].end then Some(InBank(banks[1], 16, 0x8000, a))
    else if banks[2].start <= a < banks[2].end then Some(InBank(banks[2], 17, 0x8000, a))
    else None
  }

  lemma BankPlace(m: Machine, num: Cpu, bank: nat, r: Region, a: Address)
    requires Valid(m) && bank < 3
    ensures var view := Banks(m, num)[bank];
            BankFits(view, bank) && LocaliseBank(m, num, bank, r, a) == InBank(view, Number(r), PageBytes(bank), a)
  {
    assert BankFits(Banks(m, num)[bank], bank);
  }

  /**
   * The ARM9: its instruction TCM below the size set for it, nothing in the data
   * TCM; on a DSi the top 64 KiB, or 32 KiB, are its BIOS unless that is off; main
   * RAM from 0x02000000, and on a DSi from 0x0C000000, with mirrors; shared RAM from
   * 0x03000000; video RAM from 0x06000000; the BIOS at 0xFFFF0000.
   */
  lemma Arm9Code(m: Machine, a: Address)
    requires Valid(m)
    ensures Locate(m, 0, a)
            == if a < m.itcmSize then Place(1, a % 0x8000)
               else if m.inDtcm(a) then 0
               else if m.dsi && !m.bios9Off && a >= 0xFFFF_0000 then
                 if m.bios9Half && a >= 0xFFFF_8000 then 0 else Place(13, a % 0x1_0000)
               else if 0x0200_0000 <= a < 0x0300_0000 then Place(4, a % m.mainRAMSize)
               else if 0x0300_0000 <= a < 0x0400_0000 then
                 var banked := InBanks(m, m.banks9, a);
                 if banked.Some? then banked.value
                 else if m.shared9.None? then 0
                 else Place(5, m.shared9.value.offset + a % m.shared9.value.size)
               else if 0x0600_0000 <= a < 0x0700_0000 then Place(7, a % 0x10_0000)
               else if m.dsi && 0x0C00_0000 <= a < 0x0D00_0000 then Place(4, a % m.mainRAMSize)
               else if 0xFFFF_0000 <= a < 0xFFFF_1000 then Place(3, a % 0x1000)
               else 0
  {
    hide LocaliseBank, BankFits, InBank;
    BankPlace(m, 0, 0, NewSharedA, a);
    BankPlace(m, 0, 1, NewSharedB, a);
    BankPlace(m, 0, 2, NewSharedC, a);
    assert Banks(m, 0) == m.banks9;
  }

  /**
   * The ARM7: the BIOS at zero, on a DSi of 64 or 32 KiB unless that is off; main
   * RAM from 0x02000000, and on a DSi from 0x0C000000, with mirrors; from 0x03000000
   * shared RAM, or where there is none its own, from 0x03800000 always its own; video
   * RAM from 0x06000000.
   */
  lemma Arm7Code(m: Machine, a: Address)
    requires Valid(m)
    ensures Locate(m, 1, a)
            == if m.dsi && !m.bios7Off && a < 0x1_0000 then
                 if m.bios7Half && a >= 0x8000 then 0 else Place(14, a % 0x1_0000)
               else if a < 0x4000 then Place(8, a)
               else if 0x0200_0000 <= a < 0x0300_0000 then Place(4, a % m.mainRAMSize)
               else if 0x0300_0000 <= a < 0x0380_0000 then
                 var banked := InBanks(m, m.banks7, a);
                 if banked.Some? then banked.value
                 else if m.shared7.None? then Place(9, a % 0x1_0000)
                 else Place(5, m.shared7.value.offset + a % m.shared7.value.size)
               else if 0x0380_0000 <= a < 0x0400_0000 then Place(9, a % 0x1_0000)
               else if 0x0600_0000 <= a < 0x0700_0000 then Place(12, a % 0x4_0000)
               else if m.dsi && 0x0C00_0000 <= a < 0x0D00_0000 then Place(4, a % m.mainRAMSize)
               else 0
  {
    hide LocaliseBank, BankFits, InBank;
    BankPlace(m, 1, 0, NewSharedA, a);
    BankPlace(m, 1, 1, NewSharedB, a);
    BankPlace(m, 1, 2, NewSharedC, a);
    assert Banks(m, 1) == m.banks7;
  }

  /** The dispatcher gets a window for an address exactly if code sits there. */
  lemma WindowWhereCode(m: Machine, num: Cpu, a: Address)
    requires Valid(m)
    ensures SetUp(m, num, a).Some? <==> Locate(m, num, a) != 0
  {
    hide BankFits, Classify9, Classify7;
    SharedWhenClassifiedIf(m, num, a);
    ProcessorOf(m, num, a);
  }

  /** Each processor's own regions. */
  lemma ProcessorOf(m: Machine, num: Cpu, a: Address)
    requires Valid(m)
    ensures var r := Classify(m, num, a);
            && (r.ITCM? || r.BIOS9? || r.VRAM? || r.BIOS9DSi? ==> num == 0)
            && (r.BIOS7? || r.WRAM7? || r.VWRAM? || r.BIOS7DSi? ==> num == 1)
  {
    hide BanksFit, SharedFits;
  }
}
