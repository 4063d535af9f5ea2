/** The execution loop's way to the next block: a cached window into the fast lookup table. */
module Dispatcher {
  import opened Basics
  import opened JitIndex
  import opened JitTheorems
  import opened CodeWindows

  /** `Start`, `Size` and the place `FastBlockLookup` points at, kept between blocks. */
  class FastBlockLookup {
    const num: Cpu
    var region: Region
    var offset: nat
    var start: nat
    var size: nat

    constructor (num: Cpu)
      ensures this.num == num && size == 0
    {
      this.num := num;
      region, offset, start, size := Other, 0, 0, 0;
    }

    function Current(): Window
      reads this
    {
      Window(region, offset, start, size)
    }

    /** The window is empty or was set up for some address of this machine. */
    ghost predicate Cached(m: Machine)
      requires Valid(m)
      reads this
    {
      size == 0 || exists from: Address :: SetUp(m, num, from) == Some(Current())
    }

    method SetupExecutableRegion(m: Machine, a: Address) returns (ok: bool)
      requires Valid(m)
      modifies this
      ensures ok == SetUp(m, num, a).Some?
      ensures Current() == if ok then SetUp(m, num, a).value else old(Current())
    {
      var w := SetUp(m, num, a);
      ok := w.Some?;
      if ok {
        region, offset, start, size := w.value.region, w.value.offset, w.value.start, w.value.size;
      }
    }

    /**
     * One turn up to running or compiling: whatever window is cached, the block found
     * is the one the index holds for the address, unless the address is classified to
     * another region than the window's; then none is.
     */
    method Next(m: Machine, s: Index, a: Address) returns (executable: bool, found: Option<Id>)
      requires Valid(m) && Coherent(s, Located(m)) && Cached(m)
      modifies this
      ensures Cached(m)
      ensures executable <==> SeemsInside(old(Current()), a) || SetUp(m, num, a).Some?
      ensures SeemsInside(old(Current()), a) || !executable ==> Current() == old(Current())
      ensures executable ==>
                Inside(Current(), a)
                && found == if Classify(m, num, a) == region then LookUp(s, num, Locate(m, num, a), a) else None
      ensures !executable ==> found == None
    {
      hide Valid, Coherent, Classify, SetUp, Locate, Local, LookUp;
      executable, found := true, None;
      if a < start || a >= (start + size) % 0x1_0000_0000 {
        executable := SetupExecutableRegion(m, a);
        if !executable {
          return;
        }
        assert SetUp(m, num, a) == Some(Current());
        WindowHolds(m, num, a);
      }
      SeemingIsInside(Current(), a);
      ghost var from: Address :| SetUp(m, num, from) == Some(Current());
      DispatchAgrees(s, m, num, from, a);
      found := LookUpBlock(s, a - start, a);
    }

    method LookUpBlock(s: Index, place: nat, a: Address) returns (found: Option<Id>)
      ensures found == LookUp(s, num, Local(region, offset + place), a)
    {
      found := None;
      var local := Local(region, offset + place);
      if local in s.fast && s.fast[local].addr == a && s.fast[local].num == num {
        found := Some(s.fast[local].id);
      }
    }

    /** Changing the size of the TCM forgets the window. */
    method Forget()
      modifies this`size
      ensures size == 0
    {
      size := 0;
    }
  }

  lemma SeemingIsInside(w: Window, a: Address)
    ensures SeemsInside(w, a) ==> Inside(w, a) && w.size > 0
  {
  }

  /**
   * After compiling at an address, the dispatcher finds the block through its cached
   * window exactly when the address is classified to the window's region.
   */
  lemma CompiledIsFound(s: Index, m: Machine, num: Cpu, from: Address, a: Address, scan: Scan)
    requires Valid(m) && Coherent(s, Located(m)) && SetUp(m, num, from).Some? && Inside(SetUp(m, num, from).value, a)
    requires WellFormed(BlockOf(num, a, Locate(m, num, a), scan)) && !ForeignRestore(s, num, a, scan)
    ensures var t := Compile(s, num, a, Locate(m, num, a), scan);
            Dispatch(t, num, SetUp(m, num, from).value, a).Some?
            <==> Classify(m, num, a) == SetUp(m, num, from).value.region
  {
    hide Valid, Coherent, Classify, SetUp, Locate, WellFormed, ForeignRestore, Compile, LookUp, Dispatch, Inside;
    assert Located(m)(num, a) == Locate(m, num, a);
    CompileKeeps(s, num, a, Locate(m, num, a), scan, Located(m));
    DispatchAgrees(Compile(s, num, a, Locate(m, num, a), scan), m, num, from, a);
  }

  /**
   * Where the regions differ, a second visit changes nothing: the block is found in
   * the map, relinked to where its entry already is, and still not seen.
   */
  lemma CrossingMakesNoProgress(s: Index, m: Machine, num: Cpu, from: Address, a: Address, scan: Scan, again: Scan)
    requires Valid(m) && Coherent(s, Located(m)) && SetUp(m, num, from).Some? && Inside(SetUp(m, num, from).value, a)
    requires WellFormed(BlockOf(num, a, Locate(m, num, a), scan)) && !ForeignRestore(s, num, a, scan)
    requires Classify(m, num, a) != SetUp(m, num, from).value.region
    ensures var t := Compile(s, num, a, Locate(m, num, a), scan);
            Compile(t, num, a, Locate(m, num, a), again) == t && Dispatch(t, num, SetUp(m, num, from).value, a) == None
  {
    CompiledIsFound(s, m, num, from, a, scan);
    hide Valid, Coherent, Classify, SetUp, Locate, WellFormed, Inside, ForeignRestore;
    CompileTwice(s, num, a, Locate(m, num, a), scan, again);
  }

  lemma CompileTwice(s: Index, num: Cpu, a: nat, local: nat, scan: Scan, again: Scan)
    ensures var t := Compile(s, num, a, local, scan);
            a in Registered(t, num) && Compile(t, num, a, local, again) == t
  {
    hide MayRestore, Listed, InstrHash;
  }

  const NO_BANK_A := BankView(0x300_0000, 0x300_0000, 1, [None, None, None, None])
  const NO_BANK := BankView(0x300_0000, 0x300_0000, 1, [None, None, None, None, None, None, None, None])
  const SOME_BANK := BankView(0x300_8000, 0x301_0000, 1, [Some(0), None, None, None, None, None, None, None])

  /** Shared RAM bank B mapped for the ARM7 from 0x03008000, next to a mirror of the ARM7's own RAM. */
  function CrossingMachine(): Machine {
    Machine(true, 0, (a: Address) => false, 0x100_0000, None, None,
            [NO_BANK_A, NO_BANK, NO_BANK], [NO_BANK_A, SOME_BANK, NO_BANK], false, true, false, true)
  }

  lemma CrossingValid()
    ensures BankFits(NO_BANK_A, 0) && BankFits(NO_BANK, 1) && BankFits(NO_BANK, 2) && BankFits(SOME_BANK, 1)
    ensures Valid(CrossingMachine())
  {
  }

  lemma CrossingAligned()
    requires Valid(CrossingMachine())
    ensures Aligned(CrossingMachine())
  {
    hide BankFits;
    assert BankAligned(NO_BANK_A, 0x1_0000) && BankAligned(NO_BANK, 0x8000) && BankAligned(SOME_BANK, 0x8000);
  }

  lemma CrossingClassified()
    requires Valid(CrossingMachine())
    ensures Classify(CrossingMachine(), 1, 0x300_0000) == WRAM7
    ensures Classify(CrossingMachine(), 1, 0x300_8000) == NewSharedB
  {
    hide BankFits;
  }

  /** The crossing exists: one window, set up in the ARM7's own RAM, covers code in bank B. */
  lemma CrossingHappens()
    ensures var m := CrossingMachine();
            && Valid(m) && Aligned(m)
            && SetUp(m, 1, 0x300_0000) == Some(Window(WRAM7, 0, 0x300_0000, 0x1_0000))
            && Classify(m, 1, 0x300_8000) == NewSharedB && HoldsCode(NewSharedB)
            && SetUp(m, 1, 0x300_8000).Some?
  {
    hide BankFits, Aligned, Classify;
    CrossingValid();
    CrossingAligned();
    CrossingClassified();
  }

  const WORD_SCAN := Scan([(0x8000_0000, 7)], [], [0x40_0000], [{0}])

  lemma CrossingLocated()
    requires Valid(CrossingMachine())
    ensures Locate(CrossingMachine(), 1, 0x300_8000) == 0x8000_0000
  {
    hide BankFits, Classify;
    CrossingClassified();
    assert CrossingMachine().banks7[1] == SOME_BANK;
  }

  lemma WordWellFormed()
    ensures WellFormed(BlockOf(1, 0x300_8000, 0x8000_0000, WORD_SCAN))
    ensures !ForeignRestore(EMPTY, 1, 0x300_8000, WORD_SCAN)
  {
    var b := BlockOf(1, 0x300_8000, 0x8000_0000, WORD_SCAN);
    assert b.ranges[0] == 0x40_0000 && 0 in b.masks[0] && RangeOf(0x8000_0000) == 0x40_0000;
    assert Covers(b, 0x40_0000, 0);
  }

  /**
   * A block of one word compiled there is live and indexed for its address; the
   * dispatcher misses it through that window, and compiling again changes nothing.
   */
  lemma CrossingMisses(again: Scan)
    ensures var m := CrossingMachine();
            && Valid(m) && SetUp(m, 1, 0x300_0000).Some? && Inside(SetUp(m, 1, 0x300_0000).value, 0x300_8000)
            && var t := Compile(EMPTY, 1, 0x300_8000, Locate(m, 1, 0x300_8000), WORD_SCAN);
            && LookUp(t, 1, Locate(m, 1, 0x300_8000), 0x300_8000).Some?
            && Dispatch(t, 1, SetUp(m, 1, 0x300_0000).value, 0x300_8000) == None
            && Compile(t, 1, 0x300_8000, Locate(m, 1, 0x300_8000), again) == t
  {
    hide Classify, SetUp, Locate, WellFormed, ForeignRestore, Compile, LookUp, Dispatch, Coherent, Valid;
    var m := CrossingMachine();
    CrossingHappens();
    CrossingLocated();
    WordWellFormed();
    EmptyCoherent(Located(m));
    CrossingMakesNoProgress(EMPTY, m, 1, 0x300_0000, 0x300_8000, WORD_SCAN, again);
    CompileKeeps(EMPTY, 1, 0x300_8000, Locate(m, 1, 0x300_8000), WORD_SCAN, Located(m));
  }
}
