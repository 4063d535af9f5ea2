/**
 * Where code sits: how an address is classified, localised to an offset in its
 * region, and how the dispatcher's cached window turns it into a place in the
 * fast lookup table.  Masking with a power of two minus one is a remainder.
 */
module CodeWindows {
  import opened Basics
  import opened JitIndex

  type Address = u32

  datatype Region =
    | Other | ITCM | DTCM | BIOS9 | MainRAM | SharedWRAM | IO9 | VRAM | BIOS7 | WRAM7 | IO7 | Wifi | VWRAM
    | BIOS9DSi | BIOS7DSi | NewSharedA | NewSharedB | NewSharedC

  function Number(r: Region): nat {
    match r
    case Other => 0 case ITCM => 1 case DTCM => 2 case BIOS9 => 3 case MainRAM => 4 case SharedWRAM => 5
    case IO9 => 6 case VRAM => 7 case BIOS7 => 8 case WRAM7 => 9 case IO7 => 10 case Wifi => 11 case VWRAM => 12
    case BIOS9DSi => 13 case BIOS7DSi => 14 case NewSharedA => 15 case NewSharedB => 16 case NewSharedC => 17
  }

  /** The lookup table has no part for data-only regions. */
  predicate HoldsCode(r: Region) { !(r.Other? || r.DTCM? || r.IO9? || r.IO7? || r.Wifi?) }

  /** A stretch of a region's memory: where it starts in the region, and its size. */
  datatype Part = Part(offset: nat, size: nat)

  /** A bank of the DSi's shared work RAM as one processor sees it. */
  datatype BankView = BankView(start: nat, end: nat, slots: nat, table: seq<Option<nat>>)

  /** Everything the classification and localisation of addresses depends on. */
  datatype Machine = Machine(
    dsi: bool, itcmSize: nat, inDtcm: Address -> bool, mainRAMSize: nat,
    shared9: Option<Part>, shared7: Option<Part>, banks9: seq<BankView>, banks7: seq<BankView>,
    bios9Half: bool, bios9Off: bool, bios7Half: bool, bios7Off: bool)

  const ITCM_SIZE := 0x8000
  const REGION_SIZE := 0x800_0000

  predicate SharedFits(p: Option<Part>) {
    p.Some? ==> p.value.size in {0x4000, 0x8000} && p.value.offset + p.value.size <= 0x8000
  }

  function PageBytes(bank: nat): nat { if bank == 0 then 0x1_0000 else 0x8000 }

  predicate BankFits(view: BankView, bank: nat) {
    && |view.table| == (if bank == 0 then 4 else 8)
    && view.slots in {1, 2, 4, 8} && view.slots <= |view.table|
    && forall k :: 0 <= k < |view.table| && view.table[k].Some? ==> view.table[k].value + PageBytes(bank) <= 0x4_0000
  }

  predicate BanksFit(banks: seq<BankView>) {
    |banks| == 3 && BankFits(banks[0], 0) && BankFits(banks[1], 1) && BankFits(banks[2], 2)
  }

  predicate Valid(m: Machine) {
    && m.mainRAMSize in {0x40_0000, 0x100_0000}
    && SharedFits(m.shared9) && SharedFits(m.shared7) && BanksFit(m.banks9) && BanksFit(m.banks7)
  }

  function Shared(m: Machine, num: Cpu): Option<Part> { if num == 0 then m.shared9 else m.shared7 }

  function Banks(m: Machine, num: Cpu): seq<BankView> { if num == 0 then m.banks9 else m.banks7 }

  // ---------------------------------------------------------------- classification

  /** The bank of the DSi's shared work RAM whose window holds the address, the first one winning. */
  function BankRegion(m: Machine, num: Cpu, a: Address): (r: Option<Region>)
    requires Valid(m)
    ensures r.Some? ==> r.value.NewSharedA? || r.value.NewSharedB? || r.value.NewSharedC?
  {
    var b := Banks(m, num);
    if !m.dsi then None
    else if b[0].start <= a < b[0].end then Some(NewSharedA)
    else if b[1].start <= a < b[1].end then Some(NewSharedB)
    else if b[2].start <= a < b[2].end then Some(NewSharedC)
    else None
  }

  function Classify9(m: Machine, a: Address): Region
    requires Valid(m)
  {
    if a < m.itcmSize then ITCM
    else if m.inDtcm(a) then DTCM
    else if m.dsi && a >= 0xFFFF_0000 && !m.bios9Off then
      (if a >= 0xFFFF_8000 && m.bios9Half then Other else BIOS9DSi)
    else if a / 0x1000 == 0xF_FFF0 then BIOS9
    else if a / 0x100_0000 == 2 then MainRAM
    else if a / 0x100_0000 == 3 then
      (var bank := BankRegion(m, 0, a);
       if bank.Some? then bank.value else if m.shared9.Some? then SharedWRAM else Other)
    else if a / 0x100_0000 == 4 then IO9
    else if a / 0x100_0000 == 6 then VRAM
    else if a / 0x100_0000 == 12 && m.dsi then MainRAM
    else Other
  }

  function Classify7(m: Machine, a: Address): Region
    requires Valid(m)
  {
    if m.dsi && a < 0x1_0000 && !m.bios7Off then
      (if a >= 0x8000 && m.bios7Half then Other else BIOS7DSi)
    else if a < 0x4000 then BIOS7
    else if a / 0x80_0000 in {4, 5} then MainRAM
    else if a / 0x80_0000 == 6 then
      (var bank := BankRegion(m, 1, a);
       if bank.Some? then bank.value else if m.shared7.Some? then SharedWRAM else WRAM7)
    else if a / 0x80_0000 == 7 then WRAM7
    else if a / 0x80_0000 == 8 then IO7
    else if a / 0x80_0000 == 9 then Wifi
    else if a / 0x80_0000 in {12, 13} then VWRAM
    else if a / 0x80_0000 in {24, 25} && m.dsi then MainRAM
    else Other
  }

  function Classify(m: Machine, num: Cpu, a: Address): Region
    requires Valid(m)
  {
    if num == 0 then Classify9(m, a) else Classify7(m, a)
  }

  // ---------------------------------------------------------------- localisation

  function Local(r: Region, offset: nat): nat { Number(r) * REGION_SIZE + offset }

  /** The page of a bank an address falls into. */
  function PageAt(m: Machine, num: Cpu, bank: nat, a: Address): Option<nat>
    requires Valid(m) && bank < 3
  {
    var view := Banks(m, num)[bank];
    view.table[a / PageBytes(bank) % view.slots]
  }

  function LocaliseBank(m: Machine, num: Cpu, bank: nat, r: Region, a: Address): nat
    requires Valid(m) && bank < 3
  {
    var page := PageAt(m, num, bank, a);
    if page.Some? then Local(r, page.value + a % PageBytes(bank)) else Local(Other, 0)
  }

  function LocaliseAddress(m: Machine, r: Region, num: Cpu, a: Address): nat
    requires Valid(m) && (r.SharedWRAM? ==> Shared(m, num).Some?)
  {
    match r
    case ITCM => Local(r, a % ITCM_SIZE)
    case MainRAM => Local(r, a % m.mainRAMSize)
    case BIOS9 => Local(r, a % 0x1000)
    case BIOS7 => Local(r, a % 0x4000)
    case SharedWRAM => var p := Shared(m, num).value; Local(r, a % p.size + p.offset)
    case WRAM7 => Local(r, a % 0x1_0000)
    case VRAM => Local(r, a % 0x10_0000)
    case VWRAM => Local(r, a % 0x4_0000)
    case NewSharedA => LocaliseBank(m, num, 0, r, a)
    case NewSharedB => LocaliseBank(m, num, 1, r, a)
    case NewSharedC => LocaliseBank(m, num, 2, r, a)
    case BIOS9DSi => Local(r, a % 0x1_0000)
    case BIOS7DSi => Local(r, a % 0x1_0000)
    case _ => Local(Other, 0)
  }

  lemma SharedWhenClassified(m: Machine, num: Cpu, a: Address)
    requires Valid(m) && Classify(m, num, a).SharedWRAM?
    ensures Shared(m, num).Some?
  {
  }

  /** `LocaliseCodeAddress`: zero when the address cannot hold code. */
  function Locate(m: Machine, num: Cpu, a: Address): nat
    requires Valid(m)
  {
    var r := Classify(m, num, a);
    if !HoldsCode(r) then 0
    else
      SharedWhenClassifiedIf(m, num, a);
      LocaliseAddress(m, r, num, a)
  }

  lemma SharedWhenClassifiedIf(m: Machine, num: Cpu, a: Address)
    requires Valid(m)
    ensures Classify(m, num, a).SharedWRAM? ==> Shared(m, num).Some?
  {
    if Classify(m, num, a).SharedWRAM? {
      SharedWhenClassified(m, num, a);
    }
  }

  // ---------------------------------------------------------------- windows

  /** A stretch of addresses that maps onto consecutive places of a region. */
  datatype Window = Window(region: Region, offset: nat, start: nat, size: nat)

  function Down(a: Address, size: nat): nat
    requires size > 0
  {
    a - a % size
  }

  function Mirrored(r: Region, offset: nat, a: Address, size: nat): (w: Option<Window>)
    requires size > 0
    ensures w.Some? && Inside(w.value, a)
  {
    Some(Window(r, offset, Down(a, size), size))
  }

  function BankWindow(m: Machine, num: Cpu, bank: nat, r: Region, a: Address): Option<Window>
    requires Valid(m) && bank < 3
  {
    var page := PageAt(m, num, bank, a);
    if page.Some? then Mirrored(r, page.value, a, PageBytes(bank)) else None
  }

  function GetMirrorLocation(m: Machine, r: Region, num: Cpu, a: Address): Option<Window>
    requires Valid(m)
  {
    match r
    case ITCM => if num == 0 then Mirrored(r, 0, a, ITCM_SIZE) else None
    case DTCM => if num == 0 then Mirrored(r, 0, a, 0x4000) else None
    case MainRAM => Mirrored(r, 0, a, m.mainRAMSize)
    case BIOS9 => if num == 0 then Mirrored(r, 0, a, 0x1000) else None
    case BIOS7 => if num == 1 then Some(Window(r, 0, 0, 0x4000)) else None
    case SharedWRAM =>
      var p := Shared(m, num);
      if p.Some? then Mirrored(r, p.value.offset, a, p.value.size) else None
    case WRAM7 => if num == 1 then Mirrored(r, 0, a, 0x1_0000) else None
    case VRAM => if num == 0 then Mirrored(r, 0, a, 0x10_0000) else None
    case VWRAM => if num == 1 then Mirrored(r, 0, a, 0x4_0000) else None
    case NewSharedA => BankWindow(m, num, 0, r, a)
    case NewSharedB => BankWindow(m, num, 1, r, a)
    case NewSharedC => BankWindow(m, num, 2, r, a)
    case BIOS9DSi =>
      if num == 0 then Some(Window(r, 0, Down(a, 0x1_0000), if m.bios9Half then 0x8000 else 0x1_0000)) else None
    case BIOS7DSi =>
      if num == 1 then Some(Window(r, 0, Down(a, 0x1_0000), if m.bios7Half then 0x8000 else 0x1_0000)) else None
    case _ => None
  }

  /** The window `SetupExecutableRegion` finds for an address. */
  function SetUp(m: Machine, num: Cpu, a: Address): Option<Window>
    requires Valid(m)
  {
    var r := Classify(m, num, a);
    if HoldsCode(r) then GetMirrorLocation(m, r, num, a) else None
  }

  predicate Inside(w: Window, a: Address) { w.start <= a < w.start + w.size }

  /** The dispatcher's own test, in 32 bits: a window that ends at the top of memory seems empty. */
  predicate SeemsInside(w: Window, a: Address) { w.start <= a < (w.start + w.size) % 0x1_0000_0000 }

  lemma SameQuotient(a: Address, b: Address, size: nat)
    requires size > 0 && Down(a, size) <= b < Down(a, size) + size
    ensures b / size == a / size && b % size == b - Down(a, size)
  {
    var q := a / size;
    assert Down(a, size) == q * size;
    DivisionUnique(b, size, q, b - q * size);
  }

  /** Whether an address lies below a multiple of the size is decided by its quotient. */
  lemma BelowMultiple(a: Address, size: nat, k: nat)
    requires size > 0
    ensures a < k * size <==> a / size < k
  {
    Scaled(a / size - k, size);
    assert (a / size - k) * size == a / size * size - k * size;
  }

  // ---------------------------------------------------------------- windows agree with localisation

  lemma BankExact(m: Machine, num: Cpu, bank: nat, r: Region, a: Address, b: Address)
    requires Valid(m) && bank < 3 && HoldsCode(r) && BankWindow(m, num, bank, r, a).Some?
    requires Inside(BankWindow(m, num, bank, r, a).value, b)
    ensures var w := BankWindow(m, num, bank, r, a).value;
            && LocaliseBank(m, num, bank, r, b) == Local(r, w.offset + (b - w.start))
            && w.offset + w.size <= 0x100_0000
  {
    SameQuotient(a, b, PageBytes(bank));
  }

  lemma MirrorExact(m: Machine, r: Region, num: Cpu, a: Address, b: Address)
    requires Valid(m) && HoldsCode(r) && GetMirrorLocation(m, r, num, a).Some?
    requires Inside(GetMirrorLocation(m, r, num, a).value, b)
    ensures var w := GetMirrorLocation(m, r, num, a).value;
            && w.region == r && (r.SharedWRAM? ==> Shared(m, num).Some?)
            && LocaliseAddress(m, r, num, b) == Local(r, w.offset + (b - w.start))
            && w.offset + w.size <= 0x100_0000
  {
    hide PageAt, BanksFit, LocaliseBank, Local;
    match r
    case ITCM => SameQuotient(a, b, ITCM_SIZE);
    case MainRAM => SameQuotient(a, b, m.mainRAMSize);
    case BIOS9 => SameQuotient(a, b, 0x1000);
    case BIOS7 => DivisionUnique(b, 0x4000, 0, b);
    case SharedWRAM => SameQuotient(a, b, Shared(m, num).value.size);
    case VRAM => SameQuotient(a, b, 0x10_0000);
    case VWRAM => SameQuotient(a, b, 0x4_0000);
    case NewSharedA => BankExact(m, num, 0, r, a, b);
    case NewSharedB => BankExact(m, num, 1, r, a, b);
    case NewSharedC => BankExact(m, num, 2, r, a, b);
    case WRAM7 => SameQuotient(a, b, 0x1_0000);
    case BIOS9DSi => SameQuotient(a, b, 0x1_0000);
    case BIOS7DSi => SameQuotient(a, b, 0x1_0000);
    case _ =>
  }

  /**
   * Every address in the window set up for some address sits, in the region of that
   * address, exactly where the window says, within the region's memory.
   */
  lemma WindowIsExact(m: Machine, num: Cpu, a: Address, b: Address)
    requires Valid(m) && SetUp(m, num, a).Some? && Inside(SetUp(m, num, a).value, b)
    ensures var w := SetUp(m, num, a).value;
            && w.region == Classify(m, num, a) && HoldsCode(w.region) && (w.region.SharedWRAM? ==> Shared(m, num).Some?)
            && LocaliseAddress(m, w.region, num, b) == Local(w.region, w.offset + (b - w.start))
            && w.offset + w.size <= 0x100_0000
  {
    hide Classify, Inside, Valid, GetMirrorLocation, LocaliseAddress;
    MirrorExact(m, Classify(m, num, a), num, a, b);
  }

  lemma BiosClassified(m: Machine, num: Cpu, a: Address)
    requires Valid(m)
    ensures var r := Classify(m, num, a);
            && (r.BIOS7? ==> a < 0x4000)
            && (r.BIOS9DSi? ==> 0xFFFF_0000 <= a && (m.bios9Half ==> a < 0xFFFF_8000))
            && (r.BIOS7DSi? ==> a < 0x1_0000 && (m.bios7Half ==> a < 0x8000))
  {
    hide BanksFit, SharedFits;
  }

  /** The dispatcher may index with an address right after setting up its window. */
  lemma WindowHolds(m: Machine, num: Cpu, a: Address)
    requires Valid(m) && SetUp(m, num, a).Some?
    ensures Inside(SetUp(m, num, a).value, a)
  {
    hide BanksFit, PageAt, Classify, Mirrored;
    BiosClassified(m, num, a);
  }

  predicate LiesIn(r: Region, local: nat) {
    Number(r) * REGION_SIZE <= local < (Number(r) + 1) * REGION_SIZE
  }

  lemma BankLocated(m: Machine, num: Cpu, bank: nat, r: Region, a: Address)
    requires Valid(m) && bank < 3
    ensures LocaliseBank(m, num, bank, r, a) == 0 || LiesIn(r, LocaliseBank(m, num, bank, r, a))
  {
    var view := Banks(m, num)[bank];
    assert BankFits(view, bank);
  }

  lemma LocalisedRegion(m: Machine, r: Region, num: Cpu, a: Address)
    requires Valid(m) && (r.SharedWRAM? ==> Shared(m, num).Some?)
    ensures LocaliseAddress(m, r, num, a) == 0 || LiesIn(r, LocaliseAddress(m, r, num, a))
  {
    hide BanksFit, LocaliseBank;
    match r
    case NewSharedA => BankLocated(m, num, 0, r, a);
    case NewSharedB => BankLocated(m, num, 1, r, a);
    case NewSharedC => BankLocated(m, num, 2, r, a);
    case SharedWRAM => assert a % Shared(m, num).value.size < Shared(m, num).value.size;
    case _ =>
  }

  lemma LocateRegion(m: Machine, num: Cpu, a: Address)
    requires Valid(m)
    ensures var r := Classify(m, num, a);
            Locate(m, num, a) == 0 || (HoldsCode(r) && LiesIn(r, Locate(m, num, a)))
  {
    hide Classify, LiesIn, LocaliseAddress, Valid;
    SharedWhenClassifiedIf(m, num, a);
    if HoldsCode(Classify(m, num, a)) {
      LocalisedRegion(m, Classify(m, num, a), num, a);
    }
  }

  // ---------------------------------------------------------------- dispatch through a window

  /** Where code sits, as the block index takes it. */
  function Located(m: Machine): (Cpu, nat) -> nat
    requires Valid(m)
  {
    (num: Cpu, a: nat) => if a < 0x1_0000_0000 then Locate(m, num, a) else 0
  }

  /** `LookUpBlock` with a place computed from a window. */
  function Dispatch(s: Index, num: Cpu, w: Window, a: Address): Option<Id>
    requires Inside(w, a)
  {
    LookUp(s, num, Local(w.region, w.offset + (a - w.start)), a)
  }

  lemma NumbersDiffer(r: Region, q: Region)
    requires Number(r) == Number(q)
    ensures r == q
  {
  }

  /** An entry that answers for an address lies where that address is located. */
  lemma FoundWhereLocated(s: Index, m: Machine, num: Cpu, local: nat, a: Address)
    requires Valid(m) && Coherent(s, Located(m)) && LookUp(s, num, local, a).Some?
    ensures local == Locate(m, num, a)
  {
    hide HeapInv, ListInv, MaskInv, Locate, Valid, MapsLive, LiveMapped;
    assert s.heap[s.fast[local].id].local == Located(m)(num, a);
  }

  /**
   * A window cached for one address serves every other address it covers: the
   * dispatcher finds through it what the index holds for the address if the
   * address is still classified to the window's region, and nothing otherwise.
   */
  lemma DispatchAgrees(s: Index, m: Machine, num: Cpu, from: Address, a: Address)
    requires Valid(m) && Coherent(s, Located(m)) && SetUp(m, num, from).Some? && Inside(SetUp(m, num, from).value, a)
    ensures var w := SetUp(m, num, from).value;
            Dispatch(s, num, w, a)
            == if Classify(m, num, a) == w.region then LookUp(s, num, Locate(m, num, a), a) else None
  {
    hide Coherent, Valid, Classify, GetMirrorLocation, SetUp, LookUp;
    var w := SetUp(m, num, from).value;
    var local := Local(w.region, w.offset + (a - w.start));
    WindowIsExact(m, num, from, a);
    LocateRegion(m, num, a);
    if LookUp(s, num, local, a).Some? {
      FoundWhereLocated(s, m, num, local, a);
      NumberOfLocal(w.region, Classify(m, num, a), local);
    }
  }

  lemma NumberOfLocal(r: Region, q: Region, local: nat)
    requires HoldsCode(r) && LiesIn(r, local)
    ensures local != 0
    ensures LiesIn(q, local) ==> r == q
  {
    if LiesIn(q, local) {
      NumbersDiffer(r, q);
    }
  }

  // ---------------------------------------------------------------- where a window is not enough

  const ITCM_SIZES: set<nat> := {
    0, 0x200, 0x400, 0x800, 0x1000, 0x2000, 0x4000, 0x8000, 0x1_0000, 0x2_0000, 0x4_0000, 0x8_0000, 0x10_0000,
    0x20_0000, 0x40_0000, 0x80_0000, 0x100_0000, 0x200_0000, 0x400_0000, 0x800_0000, 0x1000_0000, 0x2000_0000,
    0x4000_0000, 0x8000_0000 }

  predicate BankAligned(view: BankView, page: nat)
    requires page > 0
  {
    view.start % page == 0 && view.end % page == 0
  }

  /** The sizes and bounds the control registers can express. */
  predicate Aligned(m: Machine)
    requires Valid(m)
  {
    && m.itcmSize in ITCM_SIZES
    && forall num: Cpu, b :: 0 <= b < 3 ==> BankAligned(Banks(m, num)[b], PageBytes(b))
  }

  lemma SameSide(a: Address, b: Address, size: nat, bound: nat)
    requires size > 0 && bound % size == 0 && Down(a, size) <= b < Down(a, size) + size
    ensures a < bound <==> b < bound
  {
    SameQuotient(a, b, size);
    BelowMultiple(a, size, bound / size);
    BelowMultiple(b, size, bound / size);
  }

  /** A window also stays within any larger aligned block. */
  lemma Coarser(a: Address, b: Address, size: nat, big: nat)
    requires size > 0 && big > 0 && big % size == 0 && Down(a, size) <= b < Down(a, size) + size
    ensures b / big == a / big
  {
    MultipleOfMultiple(a / big, big, size);
    MultipleOfMultiple(a / big + 1, big, size);
    SameSide(a, b, size, a / big * big);
    SameSide(a, b, size, (a / big + 1) * big);
    DivisionUnique(b, big, a / big, b - a / big * big);
  }

  lemma MultipleOfMultiple(k: nat, big: nat, size: nat)
    requires size > 0 && big % size == 0
    ensures k * big % size == 0
  {
    assert k * big == (k * (big / size)) * size;
    DivisionUnique(k * big, size, k * (big / size), 0);
  }

  lemma SizesNest(small: nat, size: nat)
    requires small in ITCM_SIZES && size in {0x1000, 0x4000, 0x8000, 0x1_0000, 0x10_0000, 0x40_0000, 0x100_0000}
    ensures small < size || small % size == 0
  {
    if size == 0x1000 {
    } else if size == 0x4000 {
    } else if size == 0x8000 {
    } else if size == 0x1_0000 {
    } else if size == 0x10_0000 {
    } else if size == 0x40_0000 {
    }
  }

  lemma MultipleOfFiner(x: nat, page: nat, size: nat)
    requires page > 0 && size > 0 && page % size == 0 && x % page == 0
    ensures x % size == 0
  {
    MultipleOfMultiple(x / page, page, size);
  }

  /** Windows of up to a bank's page do not cross that bank's bounds. */
  lemma SameBankSide(view: BankView, page: nat, a: Address, b: Address, size: nat)
    requires page > 0 && BankAligned(view, page)
    requires size > 0 && page % size == 0 && Down(a, size) <= b < Down(a, size) + size
    ensures view.start <= a < view.end <==> view.start <= b < view.end
  {
    MultipleOfFiner(view.start, page, size);
    MultipleOfFiner(view.end, page, size);
    SameSide(a, b, size, view.start);
    SameSide(a, b, size, view.end);
  }

  /** The first banks, whose pages are multiples of the window, classify both addresses alike. */
  lemma SameBanks(m: Machine, num: Cpu, a: Address, b: Address, size: nat)
    requires Valid(m) && Aligned(m) && size in {0x4000, 0x8000}
    requires Down(a, size) <= b < Down(a, size) + size
    ensures BankRegion(m, num, b) == BankRegion(m, num, a)
  {
    hide Down;
    var views := Banks(m, num);
    assert BankAligned(views[0], PageBytes(0)) && BankAligned(views[1], PageBytes(1))
           && BankAligned(views[2], PageBytes(2));
    SameBankSide(views[0], PageBytes(0), a, b, size);
    SameBankSide(views[1], PageBytes(1), a, b, size);
    SameBankSide(views[2], PageBytes(2), a, b, size);
  }

  /** A 64 KiB window does not cross the bounds of bank A. */
  lemma SameBankA(m: Machine, num: Cpu, a: Address, b: Address)
    requires Valid(m) && Aligned(m) && Down(a, 0x1_0000) <= b < Down(a, 0x1_0000) + 0x1_0000
    ensures BankRegion(m, num, b) == Some(NewSharedA) <==> BankRegion(m, num, a) == Some(NewSharedA)
  {
    hide Down;
    assert BankAligned(Banks(m, num)[0], PageBytes(0));
    SameBankSide(Banks(m, num)[0], PageBytes(0), a, b, 0x1_0000);
  }

  lemma ItcmNotSplit(m: Machine, a: Address, b: Address)
    requires Valid(m) && Aligned(m) && a < m.itcmSize && Down(a, ITCM_SIZE) <= b < Down(a, ITCM_SIZE) + ITCM_SIZE
    ensures Classify(m, 0, b).ITCM? || !HoldsCode(Classify(m, 0, b))
  {
    SizesNest(m.itcmSize, ITCM_SIZE);
    if m.itcmSize >= ITCM_SIZE {
      SameSide(a, b, ITCM_SIZE, m.itcmSize);
    }
  }

  /** A window above the TCM and above the first 32 MiB stays above the TCM, in one 16 MiB block. */
  lemma Above(m: Machine, a: Address, b: Address, size: nat)
    requires Valid(m) && Aligned(m) && a >= m.itcmSize && a >= 0x200_0000
    requires size in {0x1000, 0x4000, 0x8000, 0x1_0000, 0x10_0000, 0x40_0000, 0x100_0000}
    requires Down(a, size) <= b < Down(a, size) + size
    ensures b >= m.itcmSize && b / 0x100_0000 == a / 0x100_0000
  {
    hide Down, BanksFit, SharedFits, BankAligned;
    SizesNest(m.itcmSize, size);
    Coarser(a, b, size, 0x100_0000);
    SameSide(a, b, size, if m.itcmSize < size then 0x200_0000 else m.itcmSize);
  }

  predicate Banked(r: Region) { r.SharedWRAM? || r.NewSharedA? || r.NewSharedB? || r.NewSharedC? }

  predicate Arm9Block(m: Machine, r: Region, a: Address) {
    match a / 0x100_0000
    case 2 => r.MainRAM?
    case 12 => r.MainRAM? && m.dsi
    case 3 => Banked(r)
    case 6 => r.VRAM?
    case _ => false
  }

  /** Where the code regions of the ARM9 above its TCM are. */
  lemma Arm9Blocks(m: Machine, a: Address)
    requires Valid(m) && a >= m.itcmSize && HoldsCode(Classify9(m, a))
    ensures var r := Classify9(m, a); r.BIOS9DSi? || r.BIOS9? || Arm9Block(m, r, a)
    ensures Classify9(m, a).NewSharedA? ==> BankRegion(m, 0, a) == Some(NewSharedA)
  {
    hide Valid, BankAligned;
  }

  lemma Arm9Same(m: Machine, a: Address, b: Address)
    requires Valid(m) && a >= m.itcmSize && b >= m.itcmSize && a / 0x100_0000 == b / 0x100_0000
    requires Arm9Block(m, Classify9(m, a), a)
    requires Banked(Classify9(m, a)) ==>
               BankRegion(m, 0, a) == BankRegion(m, 0, b)
    ensures Classify9(m, b) == Classify9(m, a) || Classify9(m, b).DTCM?
  {
    hide Valid, BankRegion;
  }

  /** The window sizes of the regions above the TCM. */
  lemma WindowShape(m: Machine, num: Cpu, a: Address)
    requires Valid(m) && SetUp(m, num, a).Some?
    ensures var w := SetUp(m, num, a).value;
            && ((w.region.MainRAM? || w.region.BIOS9? || w.region.VRAM? || w.region.WRAM7? || w.region.VWRAM?
                 || Banked(w.region)) ==>
                  w.size > 0 && w.start == Down(a, w.size))
            && (w.region.MainRAM? ==> w.size in {0x40_0000, 0x100_0000})
            && (w.region.BIOS9? ==> w.size == 0x1000) && (w.region.VRAM? ==> w.size == 0x10_0000)
            && (w.region.WRAM7? ==> w.size == 0x1_0000) && (w.region.VWRAM? ==> w.size == 0x4_0000)
            && (w.region.SharedWRAM? ==> w.size in {0x4000, 0x8000})
            && (w.region.NewSharedA? ==> w.size == 0x1_0000)
            && (w.region.NewSharedB? || w.region.NewSharedC? ==> w.size == 0x8000)
  {
    hide Classify, BanksFit, Down;
  }

  /** Above the TCM, the ARM9's windows do not cross the boundaries of its regions. */
  lemma Arm9NotSplit(m: Machine, a: Address, b: Address)
    requires Valid(m) && Aligned(m) && a >= m.itcmSize && SetUp(m, 0, a).Some? && Inside(SetUp(m, 0, a).value, b)
    ensures Classify9(m, b) == Classify9(m, a) || !HoldsCode(Classify9(m, b))
  {
    hide Classify9, GetMirrorLocation, BankRegion, Valid, Aligned, Down;
    var w := SetUp(m, 0, a).value;
    WindowIsExact(m, 0, a, b);
    Arm9Blocks(m, a);
    WindowShape(m, 0, a);
    if Arm9Block(m, Classify9(m, a), a) {
      Above(m, a, b, w.size);
      if w.region.NewSharedA? {
        SameBankA(m, 0, a, b);
      } else if Banked(w.region) {
        SameBanks(m, 0, a, b, w.size);
      }
      Arm9Same(m, a, b);
    } else {
      Arm9Bios(m, a, b);
    }
  }

  lemma Arm9Bios(m: Machine, a: Address, b: Address)
    requires Valid(m) && Aligned(m) && a >= m.itcmSize && SetUp(m, 0, a).Some? && Inside(SetUp(m, 0, a).value, b)
    requires Classify9(m, a).BIOS9? || Classify9(m, a).BIOS9DSi?
    ensures Classify9(m, b) == Classify9(m, a) || Classify9(m, b).DTCM?
  {
    hide BanksFit, SharedFits, BankAligned, BankRegion;
    assert a >= 0xFFFF_0000 && b >= 0xFFFF_0000;
  }

  predicate Arm7Block(m: Machine, r: Region, a: Address) {
    match a / 0x80_0000
    case 4 => r.MainRAM?
    case 5 => r.MainRAM?
    case 6 => Banked(r) || r.WRAM7?
    case 7 => r.WRAM7?
    case 12 => r.VWRAM?
    case 13 => r.VWRAM?
    case 24 => r.MainRAM? && m.dsi
    case 25 => r.MainRAM? && m.dsi
    case _ => false
  }

  lemma Arm7Blocks(m: Machine, a: Address)
    requires Valid(m) && HoldsCode(Classify7(m, a))
    ensures var r := Classify7(m, a); r.BIOS7DSi? || r.BIOS7? || (Arm7Block(m, r, a) && a >= 0x200_0000)
    ensures Classify7(m, a).NewSharedA? ==> BankRegion(m, 1, a) == Some(NewSharedA)
  {
    hide Valid, BankRegion, BankAligned;
  }

  lemma Arm7Same(m: Machine, a: Address, b: Address)
    requires Valid(m) && Arm7Block(m, Classify7(m, a), a) && a >= 0x200_0000
    requires b / 0x80_0000 == a / 0x80_0000 || (Classify7(m, a).MainRAM? && b / 0x100_0000 == a / 0x100_0000)
    requires Banked(Classify7(m, a)) ==> BankRegion(m, 1, a) == BankRegion(m, 1, b)
    requires Classify7(m, a).WRAM7? ==>
               (BankRegion(m, 1, b) == Some(NewSharedA) <==> BankRegion(m, 1, a) == Some(NewSharedA))
    ensures var r := Classify7(m, b);
            r == Classify7(m, a) || (m.dsi && Classify7(m, a).WRAM7? && (r.NewSharedB? || r.NewSharedC?))
  {
    hide Valid, BankAligned;
  }

  lemma Arm7Bios(m: Machine, a: Address, b: Address)
    requires Valid(m) && SetUp(m, 1, a).Some? && Inside(SetUp(m, 1, a).value, b)
    requires Classify7(m, a).BIOS7? || Classify7(m, a).BIOS7DSi?
    ensures Classify7(m, b) == Classify7(m, a)
  {
    hide BanksFit, SharedFits, BankAligned, BankRegion;
  }

  /** The ARM7's windows cross into another code region only from its own RAM into bank B or C. */
  lemma Arm7NotSplit(m: Machine, a: Address, b: Address)
    requires Valid(m) && Aligned(m) && SetUp(m, 1, a).Some? && Inside(SetUp(m, 1, a).value, b)
    ensures var r := Classify7(m, b);
            r == Classify7(m, a) || (m.dsi && Classify7(m, a).WRAM7? && (r.NewSharedB? || r.NewSharedC?))
  {
    hide Classify7, GetMirrorLocation, BankRegion, Valid, Aligned, Down;
    var w := SetUp(m, 1, a).value;
    WindowIsExact(m, 1, a, b);
    Arm7Blocks(m, a);
    WindowShape(m, 1, a);
    if Arm7Block(m, Classify7(m, a), a) {
      Coarser(a, b, w.size, if w.region.MainRAM? then 0x100_0000 else 0x80_0000);
      if w.region.NewSharedA? || w.region.WRAM7? {
        SameBankA(m, 1, a, b);
      } else if Banked(w.region) {
        SameBanks(m, 1, a, b, w.size);
      }
      Arm7Same(m, a, b);
    } else {
      Arm7Bios(m, a, b);
    }
  }

  /**
   * The one way a cached window covers code of another region: on a DSi, from the
   * ARM7's own RAM into shared RAM bank B or C mapped within the same 64 KiB.
   */
  lemma WindowCrossing(m: Machine, num: Cpu, from: Address, a: Address)
    requires Valid(m) && Aligned(m) && SetUp(m, num, from).Some? && Inside(SetUp(m, num, from).value, a)
    requires HoldsCode(Classify(m, num, a))
    ensures var (w, r) := (SetUp(m, num, from).value, Classify(m, num, a));
            r == w.region || (num == 1 && m.dsi && w.region.WRAM7? && (r.NewSharedB? || r.NewSharedC?))
  {
    hide Classify9, Classify7, GetMirrorLocation, Valid, Aligned;
    WindowIsExact(m, num, from, a);
    if num == 1 {
      Arm7NotSplit(m, from, a);
    } else if from >= m.itcmSize {
      Arm9NotSplit(m, from, a);
    } else {
      ItcmWindow(m, from, a);
    }
  }

  lemma ItcmWindow(m: Machine, from: Address, a: Address)
    requires Valid(m) && Aligned(m) && from < m.itcmSize
    requires SetUp(m, 0, from).Some? && Inside(SetUp(m, 0, from).value, a)
    ensures Classify9(m, from).ITCM? && (Classify9(m, a).ITCM? || !HoldsCode(Classify9(m, a)))
  {
    hide Valid, Aligned;
    ItcmNotSplit(m, from, a);
  }
}
