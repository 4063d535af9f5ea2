/** What the JIT's block index promises, and exactly when it does not. */
module JitTheorems {
  import opened Basics
  import opened JitIndex

  // ---------------------------------------------------------------- compiling and finding blocks

  /** Only the fast lookup table differs. */
  predicate FastOnly(s: Index, t: Index) { t.(fast := s.fast) == s }

  lemma FastOnlyLists(s: Index, t: Index)
    requires FastOnly(s, t) && ListInv(s)
    ensures ListInv(t)
  {
    SameLive(s, t);
    assert forall q :: RangeAt(t, q) == RangeAt(s, q);
    hide Live, RangeAt, Unique;
  }

  lemma FastOnlyMasks(s: Index, t: Index)
    requires FastOnly(s, t) && MaskInv(s, None)
    ensures MaskInv(t, None)
  {
    SameLive(s, t);
    assert forall q :: RangeAt(t, q) == RangeAt(s, q);
    hide Live, RangeAt, Covers;
  }

  lemma FastOnlyMaps(s: Index, t: Index)
    requires FastOnly(s, t) && MapsLive(s) && LiveMapped(s)
    ensures MapsLive(t) && LiveMapped(t)
  {
    SameLive(s, t);
    assert forall n :: Registered(t, n) == Registered(s, n);
    hide Live, Registered;
  }

  lemma RelinkEntry(s: Index, num: Cpu, start: nat, local: nat, id: Id)
    requires FastInv(s) && Live(s, id)
    requires s.heap[id].local == local && s.heap[id].num == num && s.heap[id].start == start
    requires forall l <- s.fast :: Live(s, s.fast[l].id) ==> s.heap[s.fast[l].id].num == s.fast[l].num
    ensures var t := s.(fast := s.fast[local := Entry(start, num, id)]);
            FastInv(t) && forall l <- t.fast :: Live(t, t.fast[l].id) ==> t.heap[t.fast[l].id].num == t.fast[l].num
  {
    SameLive(s, s.(fast := s.fast[local := Entry(start, num, id)]));
    hide Live;
  }

  lemma RelinkKeeps(s: Index, num: Cpu, start: nat, local: nat, scan: Scan, locate: (Cpu, nat) -> nat)
    requires Coherent(s, locate) && local == locate(num, start) && start in Registered(s, num)
    ensures Coherent(Compile(s, num, start, local, scan), locate)
  {
    var t := Compile(s, num, start, local, scan);
    FastOnlyLists(s, t);
    FastOnlyMasks(s, t);
    FastOnlyMaps(s, t);
    SameHeap(s, t);
    hide HeapInv, ListInv, MaskInv, FastInv, Live, LiveMapped;
    RelinkEntry(s, num, start, local, Registered(s, num)[start]);
  }

  lemma AddedKeeps(s: Index, num: Cpu, start: nat, local: nat, scan: Scan, locate: (Cpu, nat) -> nat)
    requires Coherent(s, locate) && local == locate(num, start) && WellFormed(BlockOf(num, start, local, scan))
    requires start !in Registered(s, num) && !ForeignRestore(s, num, start, scan)
    ensures Coherent(Compile(s, num, start, local, scan), locate)
    ensures var t := Compile(s, num, start, local, scan);
            LookUp(t, num, local, start).Some?
            && var id := LookUp(t, num, local, start).value;
            Live(t, id) && Values(t.heap[id].code) == Values(scan.code)
            && Values(t.heap[id].literals) == Values(scan.literals)
  {
    hide HeapInv, ListInv, MaskInv, FastInv, MapInv, AddedToLists, Compile, Live, Registered, WellFormed, Values;
    var t := Compile(s, num, start, local, scan);
    var id := Obtain(s, num, start, local, scan).1;
    CompileAdds(s, num, start, local, scan);
    var b := t.heap[id];
    CandidateSits(s, num, start, local, scan, locate);
    AddedLists(s, t, id, num, start, local);
    AddedMasks(s, t, id, num, start, local);
    AddedFast(s, t, id, num, start, local);
    AddedMaps(s, t, id, num, start, local);
    CompileHeap(s, num, start, local, scan, locate);
  }

  /** A candidate for the same processor and start address sits where the block would. */
  lemma CandidateSits(s: Index, num: Cpu, start: nat, local: nat, scan: Scan, locate: (Cpu, nat) -> nat)
    requires HeapInv(s) && LocateInv(s, locate) && local == locate(num, start)
    requires MayRestore(s, start, scan) ==> s.heap[s.candidates[Values(scan.code)]].num == num
    ensures MayRestore(s, start, scan) ==>
              var b := s.heap[s.candidates[Values(scan.code)]];
              b.local == local && b.num == num && b.start == start && Values(b.code) == Values(scan.code)
  {
    hide WellFormed, Values;
    if MayRestore(s, start, scan) {
      assert InstrHash(s.heap[s.candidates[Values(scan.code)]]) == Values(scan.code);
    }
  }

  lemma CompileHeap(s: Index, num: Cpu, start: nat, local: nat, scan: Scan, locate: (Cpu, nat) -> nat)
    requires LocateInv(s, locate) && local == locate(num, start) && start !in Registered(s, num)
    ensures LocateInv(Compile(s, num, start, local, scan), locate)
  {
    hide Values, MaskOf, Covers, MayRestore;
  }

  lemma ForeignBreaks(s: Index, num: Cpu, start: nat, local: nat, scan: Scan, locate: (Cpu, nat) -> nat)
    requires Coherent(s, locate) && WellFormed(BlockOf(num, start, local, scan)) && ForeignRestore(s, num, start, scan)
    ensures !MapsLive(Compile(s, num, start, local, scan))
  {
    hide ListInv, MaskInv, FastInv, MapInv, AddedToLists, Compile, HeapInv, Live, WellFormed, Values, Registered;
    var t := Compile(s, num, start, local, scan);
    var id := Obtain(s, num, start, local, scan).1;
    CompileAdds(s, num, start, local, scan);
    assert start in Registered(t, num) && Registered(t, num)[start] == id;
  }

  /**
   * Compiling keeps the index coherent, and makes the requested code what will be
   * found, if and only if it does not restore a block of the other processor.
   */
  lemma CompileKeeps(s: Index, num: Cpu, start: nat, local: nat, scan: Scan, locate: (Cpu, nat) -> nat)
    requires Coherent(s, locate) && local == locate(num, start) && WellFormed(BlockOf(num, start, local, scan))
    ensures Coherent(Compile(s, num, start, local, scan), locate) <==> !ForeignRestore(s, num, start, scan)
    ensures !ForeignRestore(s, num, start, scan) ==>
              var t := Compile(s, num, start, local, scan);
              LookUp(t, num, local, start).Some?
              && var id := LookUp(t, num, local, start).value;
              Live(t, id) && t.heap[id].num == num && t.heap[id].start == start
              && (start !in Registered(s, num) ==>
                    Values(t.heap[id].code) == Values(scan.code)
                      && Values(t.heap[id].literals) == Values(scan.literals))
  {
    hide ListInv, MaskInv, Compile, HeapInv, Live, WellFormed, Values, MapsLive, LiveMapped, LocateInv, MayRestore;
    if start in Registered(s, num) {
      RelinkKeeps(s, num, start, local, scan, locate);
      RelinkFound(s, num, start, local, scan);
    } else if ForeignRestore(s, num, start, scan) {
      ForeignBreaks(s, num, start, local, scan, locate);
    } else {
      AddedKeeps(s, num, start, local, scan, locate);
    }
  }

  lemma RelinkFound(s: Index, num: Cpu, start: nat, local: nat, scan: Scan)
    requires start in Registered(s, num)
    ensures LookUp(Compile(s, num, start, local, scan), num, local, start) == Some(Registered(s, num)[start])
  {
  }

  // ---------------------------------------------------------------- whole runs

  /** What is in memory at each local address. */
  type Memory = nat -> nat

  datatype System = System(index: Index, mem: Memory)

  predicate Holds(accesses: seq<(nat, nat)>, mem: Memory) { forall x <- accesses :: mem(x.0) == x.1 }

  /** A write changes memory within one granule only. */
  ghost predicate WritesOnly(before: Memory, after: Memory, addr: nat) {
    forall a: nat :: RangeOf(a) != RangeOf(addr) || GranuleOf(a) != GranuleOf(addr) ==> after(a) == before(a)
  }

  datatype Operation =
    | CompileAt(num: Cpu, start: nat, scan: Scan)
    | WriteAt(addr: nat, after: Memory)

  function Perform(s: System, op: Operation, locate: (Cpu, nat) -> nat): System {
    match op
    case CompileAt(num, start, scan) => s.(index := Compile(s.index, num, start, locate(num, start), scan))
    case WriteAt(addr, after) => System(CheckAndInvalidate(s.index, addr), after)
  }

  function Performed(ops: seq<Operation>, mem: Memory, locate: (Cpu, nat) -> nat): System {
    if ops == [] then System(EMPTY, mem) else Perform(Performed(ops[..|ops| - 1], mem, locate), ops[|ops| - 1], locate)
  }

  /** A scan is of the memory as it is, and covers all it read. */
  ghost predicate ScanOf(s: System, num: Cpu, start: nat, scan: Scan, locate: (Cpu, nat) -> nat) {
    && WellFormed(BlockOf(num, start, locate(num, start), scan))
    && Holds(scan.code, s.mem) && Holds(scan.literals, s.mem)
  }

  ghost predicate ProperStep(s: System, op: Operation, locate: (Cpu, nat) -> nat) {
    match op
    case CompileAt(num, start, scan) =>
      ScanOf(s, num, start, scan, locate) && !ForeignRestore(s.index, num, start, scan)
    case WriteAt(addr, after) => WritesOnly(s.mem, after, addr)
  }

  ghost predicate Proper(ops: seq<Operation>, mem: Memory, locate: (Cpu, nat) -> nat) {
    ops == []
    || (Proper(ops[..|ops| - 1], mem, locate)
        && ProperStep(Performed(ops[..|ops| - 1], mem, locate), ops[|ops| - 1], locate))
  }

  /** In every run without a foreign restore the index is coherent after every operation. */
  lemma {:induction false} RunsStayCoherent(ops: seq<Operation>, mem: Memory, locate: (Cpu, nat) -> nat)
    requires Proper(ops, mem, locate)
    ensures Coherent(Performed(ops, mem, locate).index, locate)
  {
    hide Coherent, Compile, CheckAndInvalidate, WellFormed, ForeignRestore, Holds, WritesOnly;
    if ops == [] {
      EmptyCoherent(locate);
    } else {
      var front := ops[..|ops| - 1];
      RunsStayCoherent(front, mem, locate);
      match ops[|ops| - 1]
      case CompileAt(num, start, scan) =>
        CompileKeeps(Performed(front, mem, locate).index, num, start, locate(num, start), scan, locate);
      case WriteAt(addr, after) => WriteReported(Performed(front, mem, locate).index, addr, locate);
    }
  }

  // ---------------------------------------------------------------- no stale code

  /** Every live block was compiled from what memory holds. */
  ghost predicate Fresh(s: Index, mem: Memory) {
    forall id: nat :: Live(s, id) ==> Held(s.heap[id], mem)
  }

  lemma WriteKeepsFresh(s: Index, mem: Memory, addr: nat, after: Memory, locate: (Cpu, nat) -> nat)
    requires Coherent(s, locate) && Fresh(s, mem) && WritesOnly(mem, after, addr)
    ensures Fresh(CheckAndInvalidate(s, addr), after)
  {
    hide ListInv, MaskInv, FastInv, MapInv, LocateInv, CheckAndInvalidate, Live, RangeOf, GranuleOf, Covers, LookUp;
    var t := CheckAndInvalidate(s, addr);
    WriteReported(s, addr, locate);
    forall id: nat | Live(t, id)
      ensures Holds(t.heap[id].code, after) && Holds(t.heap[id].literals, after)
    {
      LiveBefore(s, addr, locate, id);
      var b := t.heap[id];
      assert WellFormed(b);
      NotCovered(t, addr, id, locate);
      UntouchedReads(b, b.code, mem, after, addr);
      UntouchedReads(b, b.literals, mem, after, addr);
    }
  }

  lemma LiveBefore(s: Index, addr: nat, locate: (Cpu, nat) -> nat, id: Id)
    requires Coherent(s, locate) && Live(CheckAndInvalidate(s, addr), id)
    ensures Live(s, id) && CheckAndInvalidate(s, addr).heap[id] == s.heap[id]
  {
    hide HeapInv, ListInv, MaskInv, FastInv, MapInv, LocateInv, Live, InvalidateByAddr, RangeAt;
    if GranuleOf(addr) in RangeAt(s, RangeOf(addr)).code {
      InvalidateKeeps(s, addr, locate);
    }
  }

  lemma NotCovered(t: Index, addr: nat, id: Id, locate: (Cpu, nat) -> nat)
    requires Coherent(t, locate) && Live(t, id) && Unreachable(t, (b: Block) => CoversAddress(b, addr))
    ensures !CoversAddress(t.heap[id], addr)
  {
    hide HeapInv, ListInv, MaskInv, FastInv, LocateInv, Live, Registered, CoversAddress;
    assert MappedAt(t, id);
  }

  lemma UntouchedReads(b: Block, accesses: seq<(nat, nat)>, mem: Memory, after: Memory, addr: nat)
    requires forall x <- accesses :: CoversAddress(b, x.0)
    requires !CoversAddress(b, addr) && WritesOnly(mem, after, addr) && Holds(accesses, mem)
    ensures Holds(accesses, after)
  {
    hide RangeOf, GranuleOf;
  }

  lemma CandidateHash(s: Index, h: seq<nat>)
    requires HeapInv(s) && h in s.candidates
    ensures s.candidates[h] in s.heap && Values(s.heap[s.candidates[h]].code) == h
  {
  }

  /** Everything a block was compiled from is what memory holds. */
  predicate Held(b: Block, mem: Memory) { Holds(b.code, mem) && Holds(b.literals, mem) }

  /** The retired block that a compilation brings back, if it does. */
  function Restored(s: Index, num: Cpu, start: nat, scan: Scan): Option<Block> {
    if start !in Registered(s, num) && MayRestore(s, start, scan) then Some(s.heap[s.candidates[Values(scan.code)]])
    else None
  }

  predicate RestoresHeld(s: Index, num: Cpu, start: nat, scan: Scan, mem: Memory) {
    Restored(s, num, start, scan).Some? ==> Held(Restored(s, num, start, scan).value, mem)
  }

  /** Compiling keeps every live block fresh if and only if what it restores, if anything, is still in memory. */
  lemma CompileKeepsFresh(s: Index, mem: Memory, num: Cpu, start: nat, scan: Scan, locate: (Cpu, nat) -> nat)
    requires Coherent(s, locate) && Fresh(s, mem) && ScanOf(System(s, mem), num, start, scan, locate)
    ensures Fresh(Compile(s, num, start, locate(num, start), scan), mem) <==> RestoresHeld(s, num, start, scan, mem)
  {
    hide ListInv, MaskInv, FastInv, MapInv, LocateInv, AddedToLists, Holds, Live, WellFormed, Obtain, Register, Values;
    var local := locate(num, start);
    var t := Compile(s, num, start, local, scan);
    if start in Registered(s, num) {
      SameLive(s, t);
    } else {
      hide Compile, Registered;
      CompileAdds(s, num, start, local, scan);
      var id := Obtain(s, num, start, local, scan).1;
      assert Live(t, id);
    }
  }

  /** A block compiled from the very accesses of the scan, in order, is still in memory. */
  lemma SamePlacesHold(s: Index, num: Cpu, start: nat, scan: Scan, mem: Memory)
    requires HeapInv(s) && Holds(scan.code, mem) && Holds(scan.literals, mem)
    requires Restored(s, num, start, scan).Some?
    requires var prev := Restored(s, num, start, scan).value;
             Addresses(prev.code) == Addresses(scan.code) && Addresses(prev.literals) == Addresses(scan.literals)
    ensures RestoresHeld(s, num, start, scan, mem)
  {
    hide Registered;
    var prev := Restored(s, num, start, scan).value;
    CandidateHash(s, Values(scan.code));
    SameAccesses(prev.code, scan.code);
    SameAccesses(prev.literals, scan.literals);
  }

  /** Equal values at equal addresses are the same accesses. */
  lemma SameAccesses(a: seq<(nat, nat)>, b: seq<(nat, nat)>)
    requires Values(a) == Values(b) && Addresses(a) == Addresses(b)
    ensures a == b
  {
    assert |Values(a)| == |a| && |Values(b)| == |b|;
    forall i | 0 <= i < |a|
      ensures a[i] == b[i]
    {
      assert Values(a)[i] == a[i].1 && Values(b)[i] == b[i].1 && Addresses(a)[i] == a[i].0 && Addresses(b)[i] == b[i].0;
    }
  }

  predicate Reads(b: Block, x: (nat, nat)) { x in b.code || x in b.literals }

  /** The access is one of the scan, or of a block that is live anyway. */
  ghost predicate Known(s: Index, scan: Scan, x: (nat, nat)) {
    x in scan.code || x in scan.literals || exists id: nat :: Live(s, id) && Reads(s.heap[id], x)
  }

  /**
   * The same without looking at memory: a restoring compilation keeps everything
   * fresh in every memory that it could run in if and only if each access of the
   * restored block is one of the scan's own or one of a live block's.
   */
  lemma RestoreIsSafe(s: Index, mem: Memory, num: Cpu, start: nat, scan: Scan, locate: (Cpu, nat) -> nat)
    requires Coherent(s, locate) && Fresh(s, mem) && ScanOf(System(s, mem), num, start, scan, locate)
    requires Restored(s, num, start, scan).Some?
    ensures (forall m: Memory :: Fresh(s, m) && ScanOf(System(s, m), num, start, scan, locate) ==>
               Fresh(Compile(s, num, start, locate(num, start), scan), m))
            <==> (forall x: (nat, nat) | Reads(Restored(s, num, start, scan).value, x) :: Known(s, scan, x))
  {
    hide Coherent, Restored, Compile, Live, WellFormed;
    var prev := Restored(s, num, start, scan).value;
    forall m: Memory | Fresh(s, m) && ScanOf(System(s, m), num, start, scan, locate)
      ensures Fresh(Compile(s, num, start, locate(num, start), scan), m) <==> Held(prev, m)
      ensures (forall x: (nat, nat) | Reads(prev, x) :: Known(s, scan, x)) ==> Held(prev, m)
    {
      CompileKeepsFresh(s, m, num, start, scan, locate);
      if forall x: (nat, nat) | Reads(prev, x) :: Known(s, scan, x) {
        KnownHolds(s, m, num, start, scan, locate, prev);
      }
    }
    forall x: (nat, nat) | Reads(prev, x) && !Known(s, scan, x)
      ensures exists m: Memory :: Fresh(s, m) && ScanOf(System(s, m), num, start, scan, locate) && !Held(prev, m)
    {
      var m := if mem(x.0) == x.1 then (a: nat) => if a == x.0 then x.1 + 1 else mem(a) else mem;
      UnknownIsFree(s, mem, num, start, scan, locate, x, m);
    }
  }

  lemma KnownHolds(
    s: Index, mem: Memory, num: Cpu, start: nat, scan: Scan, locate: (Cpu, nat) -> nat, b: Block)
    requires Fresh(s, mem) && ScanOf(System(s, mem), num, start, scan, locate)
    requires forall x: (nat, nat) | Reads(b, x) :: Known(s, scan, x)
    ensures Held(b, mem)
  {
    hide Live, WellFormed;
    forall x: (nat, nat) | Reads(b, x)
      ensures mem(x.0) == x.1
    {
      assert Known(s, scan, x);
    }
  }

  /** An access that nothing else makes may turn out otherwise: memory may differ there. */
  lemma UnknownIsFree(
    s: Index, mem: Memory, num: Cpu, start: nat, scan: Scan, locate: (Cpu, nat) -> nat, x: (nat, nat), m: Memory)
    requires Fresh(s, mem) && ScanOf(System(s, mem), num, start, scan, locate) && !Known(s, scan, x)
    requires m == mem || (mem(x.0) == x.1 && forall a: nat :: a != x.0 ==> m(a) == mem(a))
    ensures Fresh(s, m) && ScanOf(System(s, m), num, start, scan, locate)
  {
    hide Live, WellFormed;
  }

  // ---------------------------------------------------------------- no stale code over runs

  /** Whatever the dispatcher looks up was compiled from what memory holds now. */
  ghost predicate FindsHeldCode(s: System, locate: (Cpu, nat) -> nat) {
    forall num: Cpu, a: nat :: LookUp(s.index, num, locate(num, a), a).Some? ==>
      var id := LookUp(s.index, num, locate(num, a), a).value; id in s.index.heap && Held(s.index.heap[id], s.mem)
  }

  predicate StepRestoresHeld(s: System, op: Operation) {
    op.CompileAt? ==> RestoresHeld(s.index, op.num, op.start, op.scan, s.mem)
  }

  /** The system after the first k operations. */
  function After(ops: seq<Operation>, mem: Memory, locate: (Cpu, nat) -> nat, k: nat): System
    requires k <= |ops|
  {
    Performed(ops[..k], mem, locate)
  }

  lemma AfterStep(ops: seq<Operation>, mem: Memory, locate: (Cpu, nat) -> nat, k: nat)
    requires k < |ops|
    ensures After(ops, mem, locate, k + 1) == Perform(After(ops, mem, locate, k), ops[k], locate)
  {
    assert ops[..k + 1][..k] == ops[..k];
  }

  lemma {:induction false} ProperPrefix(ops: seq<Operation>, mem: Memory, locate: (Cpu, nat) -> nat, k: nat)
    requires Proper(ops, mem, locate) && k <= |ops|
    ensures Proper(ops[..k], mem, locate)
    ensures k < |ops| ==> ProperStep(After(ops, mem, locate, k), ops[k], locate)
    decreases |ops|
  {
    hide ProperStep, Performed;
    var front := ops[..|ops| - if ops == [] then 0 else 1];
    if k == |ops| {
      assert ops[..k] == ops;
    } else if k < |ops| - 1 {
      ProperPrefix(front, mem, locate, k);
      assert front[..k] == ops[..k];
    }
  }

  /** While every restore so far was of held code, all live blocks are fresh. */
  lemma {:induction false} FreshSoFar(ops: seq<Operation>, mem: Memory, locate: (Cpu, nat) -> nat, k: nat)
    requires Proper(ops, mem, locate) && k <= |ops|
    requires forall i :: 0 <= i < k ==> StepRestoresHeld(After(ops, mem, locate, i), ops[i])
    ensures Coherent(After(ops, mem, locate, k).index, locate)
    ensures Fresh(After(ops, mem, locate, k).index, After(ops, mem, locate, k).mem)
  {
    hide Coherent, Compile, CheckAndInvalidate, WellFormed, ForeignRestore, Holds, RestoresHeld, Live, After;
    ProperPrefix(ops, mem, locate, k);
    RunsStayCoherent(ops[..k], mem, locate);
    StartsFresh(ops, mem, locate);
    if k > 0 {
      FreshSoFar(ops, mem, locate, k - 1);
      ProperPrefix(ops, mem, locate, k - 1);
      AfterStep(ops, mem, locate, k - 1);
      var s := After(ops, mem, locate, k - 1);
      match ops[k - 1]
      case CompileAt(n, a, scan) => CompileKeepsFresh(s.index, s.mem, n, a, scan, locate);
      case WriteAt(addr, after) => WriteKeepsFresh(s.index, s.mem, addr, after, locate);
    }
    assert After(ops, mem, locate, k) == Performed(ops[..k], mem, locate) by { AfterIs(ops, mem, locate, k); }
  }

  lemma AfterIs(ops: seq<Operation>, mem: Memory, locate: (Cpu, nat) -> nat, k: nat)
    requires k <= |ops|
    ensures After(ops, mem, locate, k) == Performed(ops[..k], mem, locate)
  {
  }

  lemma StartsFresh(ops: seq<Operation>, mem: Memory, locate: (Cpu, nat) -> nat)
    ensures Fresh(After(ops, mem, locate, 0).index, After(ops, mem, locate, 0).mem)
  {
  }

  /** Right after a compilation, the dispatcher finds the block that it restored. */
  lemma RestoredIsFound(s: System, num: Cpu, start: nat, scan: Scan, locate: (Cpu, nat) -> nat)
    requires Coherent(s.index, locate) && ProperStep(s, CompileAt(num, start, scan), locate)
    requires FindsHeldCode(Perform(s, CompileAt(num, start, scan), locate), locate)
    ensures RestoresHeld(s.index, num, start, scan, s.mem)
  {
    hide Coherent, WellFormed, ForeignRestore, Holds, Live, AddedToLists, MayRestore, Obtain;
    var local := locate(num, start);
    if Restored(s.index, num, start, scan).Some? {
      CompileAdds(s.index, num, start, local, scan) by { assert HeapInv(s.index) by { CoherentHeap(s.index, locate); } }
      var t := Compile(s.index, num, start, local, scan);
      var id := Obtain(s.index, num, start, local, scan).1;
      assert LookUp(t, num, locate(num, start), start) == Some(id);
    }
  }

  lemma CoherentHeap(s: Index, locate: (Cpu, nat) -> nat)
    requires Coherent(s, locate)
    ensures HeapInv(s)
  {
  }

  /**
   * Over whole runs: at no moment does a lookup return code or literals that
   * memory does not hold, if and only if every block that was ever restored was
   * still in memory when it was.
   */
  lemma NoStaleCode(ops: seq<Operation>, mem: Memory, locate: (Cpu, nat) -> nat)
    requires Proper(ops, mem, locate)
    ensures (forall k :: 0 <= k <= |ops| ==> FindsHeldCode(After(ops, mem, locate, k), locate))
            <==> (forall k :: 0 <= k < |ops| ==> StepRestoresHeld(After(ops, mem, locate, k), ops[k]))
  {
    hide Coherent, Compile, WellFormed, ForeignRestore, Holds, RestoresHeld, Live, After, FindsHeldCode, Perform,
      LookUp;
    if forall k :: 0 <= k < |ops| ==> StepRestoresHeld(After(ops, mem, locate, k), ops[k]) {
      forall k | 0 <= k <= |ops|
        ensures FindsHeldCode(After(ops, mem, locate, k), locate)
      {
        FreshSoFar(ops, mem, locate, k);
        FreshFindsHeld(After(ops, mem, locate, k), locate);
      }
    }
    if forall k :: 0 <= k <= |ops| ==> FindsHeldCode(After(ops, mem, locate, k), locate) {
      forall k | 0 <= k < |ops|
        ensures StepRestoresHeld(After(ops, mem, locate, k), ops[k])
      {
        AfterStep(ops, mem, locate, k);
        ProperPrefix(ops, mem, locate, k);
        RunsStayCoherent(ops[..k], mem, locate);
        AfterIs(ops, mem, locate, k);
        if ops[k].CompileAt? {
          RestoredIsFound(After(ops, mem, locate, k), ops[k].num, ops[k].start, ops[k].scan, locate);
        }
      }
    }
  }

  lemma FreshFindsHeld(s: System, locate: (Cpu, nat) -> nat)
    requires Coherent(s.index, locate) && Fresh(s.index, s.mem)
    ensures FindsHeldCode(s, locate)
  {
    hide Coherent, Live, Holds, LookUp;
    forall num: Cpu, a: nat
      ensures LookUp(s.index, num, locate(num, a), a).Some? ==>
                Live(s.index, LookUp(s.index, num, locate(num, a), a).value)
    {
      FoundIsLive(s.index, locate, num, a);
    }
  }

  lemma FoundIsLive(s: Index, locate: (Cpu, nat) -> nat, num: Cpu, start: nat)
    requires Coherent(s, locate)
    ensures LookUp(s, num, locate(num, start), start).Some? ==> Live(s, LookUp(s, num, locate(num, start), start).value)
  {
  }

  lemma EmptyCoherent(locate: (Cpu, nat) -> nat)
    ensures Coherent(EMPTY, locate)
  {
  }

  // ---------------------------------------------------------------- after a foreign restore

  /** No live block belongs to processor num and start address start. */
  predicate NoneOf(s: Index, num: Cpu, start: nat) {
    forall x <- s.heap :: Live(s, x) ==> s.heap[x].num != num || s.heap[x].start != start
  }

  lemma {:induction false} DropAllMisses(s: Index, addr: nat, num: Cpu, start: nat)
    requires Loop(s, RangeOf(addr)) && NoneOf(s, num, start) && start in Registered(s, num)
    ensures start in Registered(DropAll(s, addr), num)
            && Registered(DropAll(s, addr), num)[start] == Registered(s, num)[start]
    decreases |RangeAt(s, RangeOf(addr)).blocks|
  {
    hide HeapInv, MaskInv, FastInv, RangeAt, Evict, Registered, Live;
    var blocks := RangeAt(s, RangeOf(addr)).blocks;
    if blocks != [] {
      EvictKeeps(s, blocks[0], addr);
      EvictLive(s, blocks[0], addr);
      EvictRegistered(s, blocks[0], addr, num);
      DropAllMisses(Evict(s, blocks[0], addr), addr, num, start);
    }
  }

  /**
   * What goes wrong otherwise: once a restored block of the other processor has
   * been invalidated, it is still mapped, and the next compilation at its start
   * address hands it out although it is no longer live.
   */
  lemma StaleAfterForeignRestore(
    s: Index, num: Cpu, start: nat, local: nat, scan: Scan, addr: nat, later: Scan, locate: (Cpu, nat) -> nat)
    requires Coherent(s, locate) && local == locate(num, start) == locate(1 - num, start)
    requires WellFormed(BlockOf(num, start, local, scan)) && ForeignRestore(s, num, start, scan)
    requires RangeOf(addr) in scan.ranges
    ensures var id := s.candidates[Values(scan.code)];
            var invalidated := InvalidateByAddr(Compile(s, num, start, local, scan), addr);
            var again := Compile(invalidated, num, start, local, later);
            !Live(invalidated, id) && !Live(again, id) && LookUp(again, num, local, start) == Some(id)
  {
    hide LiveListed, ListedLive, MaskInv, FastInv, AddedToLists, HeapInv, Compile, Live, Registered, WellFormed,
      Values, RangeAt;
    hide Unique;
    var u := Compile(s, num, start, local, scan);
    var id := Obtain(s, num, start, local, scan).1;
    CompileAdds(s, num, start, local, scan);
    RestoredId(s, num, start, local, scan);
    AddedLists(s, u, id, num, start, local);
    AddedMasks(s, u, id, num, start, local);
    AddedFast(s, u, id, num, start, local);
    var r := RangeOf(addr);
    var v := u.(ranges := u.ranges[r := RangeAt(u, r).(code := {})]);
    ClearedKeeps(u, r);
    assert NoneOf(v, num, start);
    SameMaps(u, v, num);
    DropAllMisses(v, addr, num, start);
    DropAllKeeps(v, addr);
    RelinkFound(DropAll(v, addr), num, start, local, later);
    RelinkLive(DropAll(v, addr), num, start, local, later);
  }

  lemma RelinkLive(s: Index, num: Cpu, start: nat, local: nat, scan: Scan)
    requires start in Registered(s, num)
    ensures forall x :: Live(Compile(s, num, start, local, scan), x) == Live(s, x)
  {
  }

  lemma SameMaps(u: Index, v: Index, num: Cpu)
    requires u.jit9 == v.jit9 && u.jit7 == v.jit7
    ensures Registered(u, num) == Registered(v, num)
  {
  }

  lemma RestoredId(s: Index, num: Cpu, start: nat, local: nat, scan: Scan)
    requires MayRestore(s, start, scan)
    ensures Obtain(s, num, start, local, scan).1 == s.candidates[Values(scan.code)]
  {
  }
}
