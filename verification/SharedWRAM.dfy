/**
 * The DSi's shared work RAM: three banks of pages ("parts") that registers map
 * into slots of windows, each CPU seeing the lowest-numbered part in a slot while
 * its writes go to all of them.  A mapping register word is kept as its bytes.
 */
module SharedWRAM {
  import opened Basics

  // ---------------------------------------------------------------- one bank

  /** Bank A has 4 parts of 64 KiB, banks B and C have 8 of 32 KiB. */
  datatype Kind = A | B | C

  function PartCount(kind: Kind): nat { if kind.A? then 4 else 8 }

  function PageSize(kind: Kind): nat { if kind.A? then 0x1_0000 else 0x8000 }

  /** ARM9, ARM7 and, for banks B and C, the DSP. */
  function MasterCount(kind: Kind): nat { if kind.A? then 2 else 3 }

  /** The bits of a setting that can be set: enable, slot and master. */
  function Settable(kind: Kind, val: byte): byte {
    if kind.A? then val / 128 * 128 + val / 4 % 4 * 4 + val % 2 else val / 128 * 128 + val % 32
  }

  predicate Enabled(v: byte) { v >= 128 }

  function SlotOf(kind: Kind, v: byte): nat { v / 4 % PartCount(kind) }

  function MasterOf(kind: Kind, v: byte): nat {
    if kind.A? then v % 2 else if v % 4 >= 2 then 2 else v % 4
  }

  predicate MappedTo(kind: Kind, v: byte, master: nat, slot: nat) {
    Enabled(v) && MasterOf(kind, v) == master && SlotOf(kind, v) == slot
  }

  /** The lowest-numbered part from `from` on that the settings map to a slot of a master. */
  function Lowest(kind: Kind, settings: seq<byte>, master: nat, slot: nat, from: nat): (p: Option<nat>)
    requires from <= |settings|
    ensures p.Some? ==> from <= p.value < |settings| && MappedTo(kind, settings[p.value], master, slot)
    ensures p.Some? ==> forall q :: from <= q < p.value ==> !MappedTo(kind, settings[q], master, slot)
    ensures p.None? ==> forall q :: from <= q < |settings| ==> !MappedTo(kind, settings[q], master, slot)
    decreases |settings| - from
  {
    if from == |settings| then None
    else if MappedTo(kind, settings[from], master, slot) then Some(from)
    else Lowest(kind, settings, master, slot, from + 1)
  }

  type PointerTable = seq<seq<Option<nat>>>

  /** Settings as each CPU's registers hold them, the pointer table, write protection, and the pages. */
  datatype Bank = Bank(
    kind: Kind, mbk9: seq<byte>, mbk7: seq<byte>, table: PointerTable, protect: set<nat>, pages: seq<seq<byte>>)

  predicate Shaped(kind: Kind, table: PointerTable) {
    |table| == MasterCount(kind) && forall m :: 0 <= m < |table| ==> |table[m]| == PartCount(kind)
  }

  /** Every entry of the table is the lowest mapped part from `from` on. */
  predicate TableFrom(kind: Kind, settings: seq<byte>, table: PointerTable, from: nat)
    requires from <= |settings| && Shaped(kind, table)
  {
    forall m, slot :: 0 <= m < MasterCount(kind) && 0 <= slot < PartCount(kind) ==>
      table[m][slot] == Lowest(kind, settings, m, slot, from)
  }

  /** Both register copies agree and can be set so, and the table is derived from them alone. */
  predicate BankInv(b: Bank) {
    && |b.mbk9| == PartCount(b.kind) && b.mbk7 == b.mbk9
    && (forall p :: 0 <= p < |b.mbk9| ==> Settable(b.kind, b.mbk9[p]) == b.mbk9[p])
    && Shaped(b.kind, b.table) && TableFrom(b.kind, b.mbk9, b.table, 0)
    && |b.pages| == PartCount(b.kind) && (forall p :: 0 <= p < |b.pages| ==> |b.pages[p]| == PageSize(b.kind))
  }

  function EmptyTable(kind: Kind): PointerTable {
    seq(MasterCount(kind), _ => seq(PartCount(kind), _ => None))
  }

  function TableOf(kind: Kind, settings: seq<byte>): PointerTable {
    seq(MasterCount(kind),
      m requires 0 <= m => seq(PartCount(kind), slot requires 0 <= slot => Lowest(kind, settings, m, slot, 0)))
  }

  /** A bank after a reset: nothing mapped, every byte zero. */
  function ResetBank(kind: Kind): Bank {
    var zeros := seq(PartCount(kind), _ => 0);
    Bank(kind, zeros, zeros, EmptyTable(kind), {}, seq(PartCount(kind), _ => seq(PageSize(kind), _ => 0)))
  }

  lemma ResetInv(kind: Kind)
    ensures BankInv(ResetBank(kind))
  {
    forall m, slot | 0 <= m < MasterCount(kind) && 0 <= slot < PartCount(kind)
      ensures Lowest(kind, ResetBank(kind).mbk9, m, slot, 0) == None
    {
    }
  }

  /** `MapNWRAM_A`, `_B` and `_C`: a protected or unchanged setting is left alone. */
  function MapPart(b: Bank, num: nat, val: byte): Bank
    requires num < |b.mbk9| == PartCount(b.kind)
  {
    var v := Settable(b.kind, val);
    if num in b.protect || b.mbk9[num] == v then b
    else
      var settings := b.mbk9[num := v];
      b.(mbk9 := settings, mbk7 := settings, table := TableOf(b.kind, settings))
  }

  lemma FieldsA(e: int, s: int, m: int)
    requires 0 <= e < 2 && 0 <= s < 4 && 0 <= m < 2
    ensures var v := e * 128 + s * 4 + m; 0 <= v < 256 && v / 128 == e && v / 4 % 4 == s && v % 2 == m && v % 4 == m
  {
    var v := e * 128 + s * 4 + m;
    assert v / 4 == 32 * e + s;
    assert v == 4 * (32 * e + s) + m;
  }

  lemma FieldsB(e: int, r: int)
    requires 0 <= e < 2 && 0 <= r < 32
    ensures var v := e * 128 + r; 0 <= v < 256 && v / 128 == e && v % 32 == r && v / 4 % 8 == r / 4 && v % 4 == r % 4
  {
    var v := e * 128 + r;
    assert v / 4 == 32 * e + r / 4;
  }

  lemma SettableTwice(kind: Kind, val: byte)
    ensures Settable(kind, Settable(kind, val)) == Settable(kind, val)
  {
    FieldsA(val / 128, val / 4 % 4, val % 2);
    FieldsB(val / 128, val % 32);
  }

  /** In every reachable state the tables are a function of the mapping registers alone. */
  lemma MapPartKeeps(b: Bank, num: nat, val: byte)
    requires BankInv(b) && num < PartCount(b.kind)
    ensures BankInv(MapPart(b, num, val)) && MapPart(b, num, val).table == TableOf(b.kind, MapPart(b, num, val).mbk9)
  {
    hide Settable, Lowest;
    SettableTwice(b.kind, val);
    TableIsFunction(b);
  }

  lemma TableIsFunction(b: Bank)
    requires BankInv(b)
    ensures b.table == TableOf(b.kind, b.mbk9)
  {
    hide Settable, Lowest;
    var t := TableOf(b.kind, b.mbk9);
    forall m | 0 <= m < MasterCount(b.kind)
      ensures b.table[m] == t[m]
    {
    }
  }

  // ---------------------------------------------------------------- order independence

  /** A list of writes of settings, last one last. */
  function MapAll(b: Bank, writes: seq<(nat, byte)>): Bank
    requires |b.mbk9| == PartCount(b.kind) && forall w <- writes :: w.0 < PartCount(b.kind)
    ensures |MapAll(b, writes).mbk9| == PartCount(b.kind) && MapAll(b, writes).kind == b.kind
  {
    if writes == [] then b
    else
      var last := writes[|writes| - 1];
      MapPart(MapAll(b, writes[..|writes| - 1]), last.0, last.1)
  }

  /** The value last written to part p, if any. */
  function LastWritten(writes: seq<(nat, byte)>, p: nat): Option<byte> {
    if writes == [] then None
    else if writes[|writes| - 1].0 == p then Some(writes[|writes| - 1].1)
    else LastWritten(writes[..|writes| - 1], p)
  }

  /** After any writes each register holds what was last written to it, unless it is protected. */
  lemma {:induction false} MapAllSettings(b: Bank, writes: seq<(nat, byte)>, p: nat)
    requires BankInv(b) && p < PartCount(b.kind) && forall w <- writes :: w.0 < PartCount(b.kind)
    ensures var t := MapAll(b, writes);
            && BankInv(t) && t.kind == b.kind && t.protect == b.protect && t.pages == b.pages
            && t.mbk9[p] == if p in b.protect || LastWritten(writes, p).None? then b.mbk9[p]
                            else Settable(b.kind, LastWritten(writes, p).value)
  {
    assert |b.mbk9| == PartCount(b.kind);
    hide Settable, BankInv, TableOf;
    if writes != [] {
      var last := writes[|writes| - 1];
      assert last in writes;
      MapAllSettings(b, writes[..|writes| - 1], p);
      MapPartKeeps(MapAll(b, writes[..|writes| - 1]), last.0, last.1);
    }
  }

  /**
   * Two lists of writes that leave the same last value for every unprotected part
   * end in the same bank, mapping included, whatever their order.
   */
  lemma OrderIndependent(b: Bank, first: seq<(nat, byte)>, second: seq<(nat, byte)>)
    requires BankInv(b) && (forall w <- first :: w.0 < PartCount(b.kind))
             && (forall w <- second :: w.0 < PartCount(b.kind))
    requires forall p :: 0 <= p < PartCount(b.kind) && p !in b.protect ==>
               LastWritten(first, p) == LastWritten(second, p)
    ensures MapAll(b, first) == MapAll(b, second)
  {
    hide Settable, TableOf, LastWritten, MapAll;
    var (s, t) := (MapAll(b, first), MapAll(b, second));
    forall p | 0 <= p < PartCount(b.kind)
      ensures s.mbk9[p] == t.mbk9[p]
    {
      MapAllSettings(b, first, p);
      MapAllSettings(b, second, p);
    }
    MapAllSettings(b, first, 0);
    MapAllSettings(b, second, 0);
    assert s.mbk9 == t.mbk9;
    TableIsFunction(s);
    TableIsFunction(t);
  }

  // ---------------------------------------------------------------- broadcast

  /** The setting that a CPU's write looks for: enabled, its slot, and itself as master. */
  function Wanted(slot: nat, cpu: nat): nat { 128 + 4 * slot + cpu }

  /** The comparison that a write makes is the mapping that the table is built from. */
  lemma WantedIsMapped(kind: Kind, v: byte, cpu: nat, slot: nat)
    requires Settable(kind, v) == v && cpu < 2 && slot < PartCount(kind)
    ensures v == Wanted(slot, cpu) <==> MappedTo(kind, v, cpu, slot)
  {
    if kind.A? {
      WantedInA(v / 128, v / 4 % 4, v % 2, cpu, slot);
    } else {
      WantedInB(v / 128, v % 32, cpu, slot);
    }
  }

  lemma WantedInA(e: nat, s: nat, m: nat, cpu: nat, slot: nat)
    requires e < 2 && s < 4 && m < 2 && cpu < 2 && slot < 4
    ensures var v := e * 128 + s * 4 + m;
            0 <= v < 256 && v % 2 == m && v / 4 % 4 == s && (v >= 128 <==> e == 1)
            && (v == Wanted(slot, cpu) <==> e == 1 && s == slot && m == cpu)
  {
    FieldsA(e, s, m);
  }

  lemma WantedInB(e: nat, r: nat, cpu: nat, slot: nat)
    requires e < 2 && r < 32 && cpu < 2 && slot < 8
    ensures var v := e * 128 + r;
            0 <= v < 256 && v % 4 == r % 4 && v / 4 % 8 == r / 4 && (v >= 128 <==> e == 1)
            && (v == Wanted(slot, cpu) <==> e == 1 && r / 4 == slot && r % 4 == cpu)
  {
    FieldsB(e, r);
  }

  function Stored(page: seq<byte>, at: nat, bytes: seq<byte>): seq<byte>
    requires at + |bytes| <= |page|
  {
    page[..at] + bytes + page[at + |bytes|..]
  }

  /** A write reaches every part mapped to the slot, not just the lowest. */
  function Broadcast(b: Bank, settings: seq<byte>, cpu: nat, slot: nat, at: nat, bytes: seq<byte>): Bank
    requires BankInv(b) && |settings| == |b.mbk9| && at + |bytes| <= PageSize(b.kind)
  {
    b.(pages := seq(|b.pages|, p requires 0 <= p < |b.pages| =>
      if settings[p] == Wanted(slot, cpu) then Stored(b.pages[p], at, bytes) else b.pages[p]))
  }

  function SettingsOf(b: Bank, cpu: nat): seq<byte> { if cpu == 0 then b.mbk9 else b.mbk7 }

  lemma StoredThere(page: seq<byte>, at: nat, bytes: seq<byte>)
    requires at + |bytes| <= |page|
    ensures |Stored(page, at, bytes)| == |page| && Stored(page, at, bytes)[at..at + |bytes|] == bytes
  {
  }

  lemma BroadcastKeeps(b: Bank, cpu: nat, slot: nat, at: nat, bytes: seq<byte>)
    requires BankInv(b) && at + |bytes| <= PageSize(b.kind)
    ensures BankInv(Broadcast(b, SettingsOf(b, cpu), cpu, slot, at, bytes))
  {
    hide Settable, Lowest;
    forall p | 0 <= p < |b.pages|
      ensures |Stored(b.pages[p], at, bytes)| == |b.pages[p]|
    {
      StoredThere(b.pages[p], at, bytes);
    }
  }

  /** The page that a CPU reads in a slot. */
  function PageAt(b: Bank, cpu: nat, slot: nat): Option<nat>
    requires BankInv(b) && cpu < 2 && slot < PartCount(b.kind)
  {
    b.table[cpu][slot]
  }

  function ReadSlot(b: Bank, cpu: nat, slot: nat, at: nat, width: nat): seq<byte>
    requires BankInv(b) && cpu < 2 && slot < PartCount(b.kind) && at + width <= PageSize(b.kind)
  {
    match PageAt(b, cpu, slot)
    case None => seq(width, _ => 0)
    case Some(p) => b.pages[p][at..at + width]
  }

  /**
   * Reading after a write returns what was written if some part is mapped there,
   * and zeros from an unmapped slot, where a write changes nothing at all.
   */
  lemma ReadAfterWrite(b: Bank, cpu: nat, slot: nat, at: nat, bytes: seq<byte>)
    requires BankInv(b) && cpu < 2 && slot < PartCount(b.kind) && at + |bytes| <= PageSize(b.kind)
    ensures var t := Broadcast(b, SettingsOf(b, cpu), cpu, slot, at, bytes);
            && BankInv(t)
            && ReadSlot(t, cpu, slot, at, |bytes|)
               == (if PageAt(b, cpu, slot).Some? then bytes else seq(|bytes|, _ => 0))
            && (PageAt(b, cpu, slot).None? ==> t == b)
  {
    hide Settable;
    BroadcastKeeps(b, cpu, slot, at, bytes);
    var t := Broadcast(b, SettingsOf(b, cpu), cpu, slot, at, bytes);
    forall p | 0 <= p < |b.mbk9|
      ensures b.mbk9[p] == Wanted(slot, cpu) <==> MappedTo(b.kind, b.mbk9[p], cpu, slot)
    {
      WantedIsMapped(b.kind, b.mbk9[p], cpu, slot);
    }
    match PageAt(b, cpu, slot)
    case Some(p) => StoredThere(b.pages[p], at, bytes);
    case None => assert t.pages == b.pages;
  }

  /** A write disturbs no byte outside the range it covers, and no part mapped elsewhere. */
  lemma WriteDisturbsNothingElse(b: Bank, cpu: nat, slot: nat, at: nat, bytes: seq<byte>, p: nat, i: nat)
    requires BankInv(b) && cpu < 2 && slot < PartCount(b.kind) && at + |bytes| <= PageSize(b.kind)
    requires p < PartCount(b.kind) && i < PageSize(b.kind)
    requires !MappedTo(b.kind, b.mbk9[p], cpu, slot) || !(at <= i < at + |bytes|)
    ensures BankInv(Broadcast(b, SettingsOf(b, cpu), cpu, slot, at, bytes))
    ensures Broadcast(b, SettingsOf(b, cpu), cpu, slot, at, bytes).pages[p][i] == b.pages[p][i]
  {
    BroadcastKeeps(b, cpu, slot, at, bytes);
    hide Settable, Lowest, MappedTo;
    WantedIsMapped(b.kind, b.mbk9[p], cpu, slot);
  }
}
