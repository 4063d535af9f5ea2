/** Concrete runs of the block index: what can come back that should not. */
module JitExamples {
  import opened Basics
  import opened JitIndex
  import opened JitTheorems

  /** Two paths through the same start address that read the same values. */
  const FIRST_SCAN := Scan([(0, 7), (4, 5)], [], [0], [{0}])

  const SECOND_SCAN := Scan([(0, 7), (8, 5)], [], [0], [{0}])

  function FirstMemory(): Memory { (a: nat) => if a == 0 then 7 else if a == 4 || a == 8 then 5 else 0 }

  function SecondMemory(): Memory { (a: nat) => if a == 0 then 7 else if a == 8 then 5 else 0 }

  function Identity(): (Cpu, nat) -> nat { (n: Cpu, a: nat) => a }

  function FirstBlock(num: Cpu): Block { BlockOf(num, 0, 0, FIRST_SCAN) }

  // ---------------------------------------------------------------- compiled once, then invalidated

  lemma EmptyHasNothing()
    ensures !MayRestore(EMPTY, 0, FIRST_SCAN)
  {
  }

  lemma CoversHere(b: Block, j: nat, g: Granule)
    requires j < |b.ranges| && j < |b.masks| && g in b.masks[j]
    ensures Covers(b, b.ranges[j], g)
  {
  }

  lemma ScansWellFormed(num: Cpu)
    ensures WellFormed(FirstBlock(num)) && WellFormed(BlockOf(num, 0, 0, SECOND_SCAN))
  {
    CoversHere(FirstBlock(num), 0, 0);
    CoversHere(BlockOf(num, 0, 0, SECOND_SCAN), 0, 0);
    hide Covers;
  }

  lemma FirstCompiled(num: Cpu)
    ensures var (s, b) := (Compile(EMPTY, num, 0, 0, FIRST_SCAN), FirstBlock(num));
            && s.heap == map[0 := b] && s.candidates == map[] && Registered(s, num) == map[0 := 0]
            && Registered(s, 1 - num) == map[]
            && RangeAt(s, 0) == AddressRange([0], MaskOf(b, 0)) && 0 in MaskOf(b, 0)
  {
    var (s, b) := (Compile(EMPTY, num, 0, 0, FIRST_SCAN), FirstBlock(num));
    CoversHere(b, 0, 0);
    hide Covers, Values;
    assert s.heap == map[0 := b];
    assert b.ranges[0] == 0;
    assert RangeAt(s, 0) == ListedAt(EMPTY, b, 0, 0);
  }

  /** Invalidating the range of the only block retires it. */
  lemma OnlyBlockRetired(s: Index, b: Block, addr: nat)
    requires s.heap == map[0 := b] && s.candidates == map[]
    requires Registered(s, b.num) == map[0 := 0] && Registered(s, 1 - b.num) == map[]
    requires RangeAt(s, RangeOf(addr)).blocks == [0] && RangeOf(addr) in b.ranges
    requires b.start == 0 && b.literals == []
    ensures var t := InvalidateByAddr(s, addr);
            t.heap == map[0 := b] && t.candidates == map[InstrHash(b) := 0] && t.jit9 == map[] && t.jit7 == map[]
  {
    hide Unlisted, Removed, InstrHash, RangeOf;
    var r := RangeOf(addr);
    var u := s.(ranges := s.ranges[r := RangeAt(s, r).(code := {})]);
    assert RangeAt(u, r).blocks == [0];
    var v := Evict(u, 0, addr);
    EvictRange(u, 0, addr, r);
    assert RangeAt(v, r).blocks == [] by { RemovedMembers([0], 0); }
    assert DropAll(v, addr) == v;
    assert DropAll(u, addr) == v;
    assert !HasLiteral(b, addr);
  }

  lemma FirstHash(num: Cpu)
    ensures InstrHash(FirstBlock(num)) == [7, 5]
  {
  }

  lemma CheckOfFour(s: Index)
    requires 0 in RangeAt(s, 0).code
    ensures CheckAndInvalidate(s, 4) == InvalidateByAddr(s, 4) && RangeOf(4) == 0
  {
    hide RangeAt, InvalidateByAddr;
  }

  /** The first block, compiled for a processor, as the only candidate, nothing mapped. */
  predicate OnlyCandidate(s: Index, num: Cpu) {
    s.heap == map[0 := FirstBlock(num)] && s.candidates == map[[7, 5] := 0] && s.jit9 == map[] && s.jit7 == map[]
  }

  function FirstRetired(num: Cpu): Index { CheckAndInvalidate(Compile(EMPTY, num, 0, 0, FIRST_SCAN), 4) }

  lemma FirstBlockRetired(num: Cpu)
    ensures OnlyCandidate(FirstRetired(num), num)
  {
    FirstHash(num);
    FirstCompiled(num);
    hide Compile, MaskOf, InvalidateByAddr, CheckAndInvalidate, InstrHash, RangeAt, RangeOf, Registered;
    var b := FirstBlock(num);
    var s := Compile(EMPTY, num, 0, 0, FIRST_SCAN);
    CheckOfFour(s);
    assert 0 in b.ranges && b.literals == [] && b.num == num;
    OnlyBlockRetired(s, b, 4);
  }

  /** Compiling and then writing within the block is a proper run that ends so. */
  function CompiledAndWritten(num: Cpu, after: Memory): seq<Operation> {
    [CompileAt(num, 0, FIRST_SCAN), WriteAt(4, after)]
  }

  lemma CompiledAndWrittenProper(num: Cpu, after: Memory)
    requires WritesOnly(FirstMemory(), after, 4)
    ensures Proper(CompiledAndWritten(num, after), FirstMemory(), Identity())
    ensures Performed(CompiledAndWritten(num, after), FirstMemory(), Identity()) == System(FirstRetired(num), after)
  {
    hide Compile, CheckAndInvalidate, MayRestore;
    ScansWellFormed(num);
    EmptyHasNothing();
    hide WellFormed, WritesOnly;
    var (a, b) := (CompileAt(num, 0, FIRST_SCAN), WriteAt(4, after));
    var s1 := System(Compile(EMPTY, num, 0, 0, FIRST_SCAN), FirstMemory());
    assert ProperStep(System(EMPTY, FirstMemory()), a, Identity());
    OneMore([], a, FirstMemory(), Identity());
    OneMore([a], b, FirstMemory(), Identity());
    assert [] + [a] == [a] && [a] + [b] == CompiledAndWritten(num, after);
  }

  lemma OneMore(ops: seq<Operation>, op: Operation, mem: Memory, locate: (Cpu, nat) -> nat)
    ensures Performed(ops + [op], mem, locate) == Perform(Performed(ops, mem, locate), op, locate)
    ensures Proper(ops, mem, locate) && ProperStep(Performed(ops, mem, locate), op, locate) ==>
              Proper(ops + [op], mem, locate)
  {
    hide Perform, ProperStep;
    assert (ops + [op])[..|ops + [op]| - 1] == ops && (ops + [op])[|ops + [op]| - 1] == op;
  }

  // ---------------------------------------------------------------- the same values along another path

  lemma SecondRestores(s: Index)
    requires OnlyCandidate(s, 0)
    ensures !ForeignRestore(s, 0, 0, SECOND_SCAN)
    ensures var t := Compile(s, 0, 0, 0, SECOND_SCAN); LookUp(t, 0, 0, 0) == Some(0) && t.heap == s.heap
  {
    assert Values(SECOND_SCAN.code) == [7, 5];
    assert Values(FirstBlock(0).literals) == Values(SECOND_SCAN.literals) == [];
    hide Listed, Values;
  }

  function OtherPathRun(): seq<Operation> {
    CompiledAndWritten(0, SecondMemory()) + [CompileAt(0, 0, SECOND_SCAN)]
  }

  lemma OtherPathEnds()
    ensures Proper(OtherPathRun(), FirstMemory(), Identity())
    ensures Performed(OtherPathRun(), FirstMemory(), Identity())
            == System(Compile(FirstRetired(0), 0, 0, 0, SECOND_SCAN), SecondMemory())
  {
    hide WellFormed, Compile, CheckAndInvalidate, Proper, Performed, FirstRetired, ForeignRestore, CompiledAndWritten;
    FirstBlockRetired(0);
    ScansWellFormed(0);
    SecondRestores(FirstRetired(0));
    CompiledAndWrittenProper(0, SecondMemory());
    OneMore(CompiledAndWritten(0, SecondMemory()), CompileAt(0, 0, SECOND_SCAN), FirstMemory(), Identity());
  }

  /**
   * The candidate check compares values, not the addresses they came from, so a
   * block compiled along another path of branches can come back although one of
   * its instructions has been overwritten: here the word at 4.
   */
  lemma RestoredAlongOtherPath()
    ensures var s := Performed(OtherPathRun(), FirstMemory(), Identity());
            var found := LookUp(s.index, 0, 0, 0);
            && Proper(OtherPathRun(), FirstMemory(), Identity())
            && found.Some? && found.value in s.index.heap
            && (4, 5) in s.index.heap[found.value].code && s.mem(4) != 5
  {
    hide Compile, CheckAndInvalidate, LookUp, Proper, Performed, FirstRetired, ForeignRestore, OtherPathRun;
    OtherPathEnds();
    FirstBlockRetired(0);
    SecondRestores(FirstRetired(0));
    assert FirstBlock(0).code[1] == (4, 5);
  }

  // ---------------------------------------------------------------- restored for the other processor

  lemma OtherProcessorRestores(s: Index)
    requires OnlyCandidate(s, 1)
    ensures ForeignRestore(s, 0, 0, FIRST_SCAN) && s.candidates[Values(FIRST_SCAN.code)] == 0
  {
    assert Values(FIRST_SCAN.code) == [7, 5];
    assert Values(FirstBlock(1).literals) == Values(FIRST_SCAN.literals);
    hide Values;
  }

  /** Compiled on the ARM7, retired, restored on the ARM9, invalidated, and compiled on the ARM9 again. */
  function ForeignRun(): seq<Operation> {
    CompiledAndWritten(1, FirstMemory())
    + [CompileAt(0, 0, FIRST_SCAN)] + [WriteAt(4, FirstMemory())] + [CompileAt(0, 0, FIRST_SCAN)]
  }

  /** The mask test lets the invalidation of a block just compiled through. */
  lemma JustCompiledIsChecked(s: Index)
    requires OnlyCandidate(s, 1) && HeapInv(s)
    ensures var t := Compile(s, 0, 0, 0, FIRST_SCAN); CheckAndInvalidate(t, 4) == InvalidateByAddr(t, 4)
  {
    OtherProcessorRestores(s);
    ScansWellFormed(0);
    CoversHere(FirstBlock(1), 0, 0);
    hide Compile, WellFormed, Covers, InvalidateByAddr, CheckAndInvalidate;
    CompileAdds(s, 0, 0, 0, FIRST_SCAN);
    var t := Compile(s, 0, 0, 0, FIRST_SCAN);
    assert FirstBlock(1).ranges[0] == 0;
    CheckOfFour(t);
  }

  lemma ForeignRunEnds()
    ensures var invalidated := InvalidateByAddr(Compile(FirstRetired(1), 0, 0, 0, FIRST_SCAN), 4);
            var again := Compile(invalidated, 0, 0, 0, FIRST_SCAN);
            Performed(ForeignRun(), FirstMemory(), Identity()) == System(again, FirstMemory())
  {
    hide Compile, CheckAndInvalidate, InvalidateByAddr, Performed, FirstRetired, CompiledAndWritten, Proper, HeapInv;
    var (ops, mem, locate) := (CompiledAndWritten(1, FirstMemory()), FirstMemory(), Identity());
    var s := FirstRetired(1);
    FirstBlockRetired(1);
    CompiledAndWrittenProper(1, mem);
    RunsStayCoherent(ops, mem, locate);
    CoherentHeap(s, locate);
    JustCompiledIsChecked(s);
    hide OnlyCandidate, Coherent;
    var (compile, write) := (CompileAt(0, 0, FIRST_SCAN), WriteAt(4, mem));
    OneMore(ops, compile, mem, locate);
    OneMore(ops + [compile], write, mem, locate);
    OneMore(ops + [compile] + [write], compile, mem, locate);
  }

  /**
   * A coherent index is reached from nothing in which a block of the other
   * processor is restored; from there a write and another compilation make a
   * lookup return a block that is no longer live.
   */
  lemma ForeignRestoreHappens()
    ensures var (ops, mem, locate) := (CompiledAndWritten(1, FirstMemory()), FirstMemory(), Identity());
            var s := Performed(ops, mem, locate);
            && Proper(ops, mem, locate) && Coherent(s.index, locate)
            && ScanOf(s, 0, 0, FIRST_SCAN, locate) && ForeignRestore(s.index, 0, 0, FIRST_SCAN)
    ensures var t := Performed(ForeignRun(), FirstMemory(), Identity()).index;
            LookUp(t, 0, 0, 0) == Some(0) && !Live(t, 0)
  {
    hide Compile, InvalidateByAddr, CheckAndInvalidate, LookUp, Proper, Performed, FirstRetired, Coherent,
      ForeignRestore;
    hide CompiledAndWritten, ForeignRun, WellFormed, Live, OnlyCandidate, HeapInv;
    var (mem, locate) := (FirstMemory(), Identity());
    var s := FirstRetired(1);
    FirstBlockRetired(1);
    CompiledAndWrittenProper(1, mem);
    RunsStayCoherent(CompiledAndWritten(1, mem), mem, locate);
    ScansWellFormed(0);
    OtherProcessorRestores(s);
    StaleAfterForeignRestore(s, 0, 0, 0, FIRST_SCAN, 4, FIRST_SCAN, locate);
    ForeignRunEnds();
  }
}
