/**
 * The JIT block cache as the object that the emulator updates in place, proved
 * against the index functions of `JitIndex`.
 */
module JitCache {
  import opened Basics
  import opened JitIndex

  // ---------------------------------------------------------------- collecting ranges

  /** What the compiler touches: an instruction it fetched, or a literal it loaded. */
  datatype Touch = Fetch(addr: nat) | Literal(addr: nat)

  ghost predicate Collected(ranges: seq<nat>, masks: seq<set<Granule>>, touched: seq<Touch>) {
    && |ranges| == |masks| <= |touched| && Unique(ranges)
    && (forall q: nat, g: Granule :: Covered(ranges, masks, q, g) <==> Touched(touched, q, g))
    && (forall m <- masks :: m != {})
  }

  predicate Touched(touched: seq<Touch>, q: nat, g: Granule) {
    exists i :: 0 <= i < |touched| && RangeOf(touched[i].addr) == q && GranuleOf(touched[i].addr) == g
  }

  lemma TouchedMore(touched: seq<Touch>, t: Touch, q: nat, g: Granule)
    ensures Touched(touched + [t], q, g) <==> Touched(touched, q, g) || (RangeOf(t.addr) == q && GranuleOf(t.addr) == g)
  {
    hide RangeOf, GranuleOf;
    var more := touched + [t];
    if Touched(touched, q, g) {
      var i :| 0 <= i < |touched| && RangeOf(touched[i].addr) == q && GranuleOf(touched[i].addr) == g;
      assert more[i] == touched[i];
    }
    assert more[|touched|] == t;
  }

  /** Granule g goes into the mask of the range at position k, which is there or is appended now. */
  lemma MaskAdded(ranges: seq<nat>, masks: seq<set<Granule>>, k: nat, x: Granule, q: nat, g: Granule)
    requires |ranges| == |masks| && k < |ranges|
    ensures Covered(ranges, masks[k := masks[k] + {x}], q, g)
            <==> Covered(ranges, masks, q, g) || (ranges[k] == q && x == g)
  {
    var more := masks[k := masks[k] + {x}];
    if Covered(ranges, masks, q, g) {
      var j :| 0 <= j < |ranges| && ranges[j] == q && g in masks[j];
      assert g in more[j];
    }
    assert x in more[k];
  }

  lemma EmptyAppended(ranges: seq<nat>, masks: seq<set<Granule>>, r: nat, q: nat, g: Granule)
    requires |ranges| == |masks|
    ensures Covered(ranges + [r], masks + [{}], q, g) <==> Covered(ranges, masks, q, g)
  {
    if Covered(ranges, masks, q, g) {
      var j :| 0 <= j < |ranges| && ranges[j] == q && g in masks[j];
      assert (ranges + [r])[j] == q && g in (masks + [{}])[j];
    }
  }

  function Swapped<T>(s: seq<T>, j: nat, k: nat): seq<T>
    requires j < |s| && k < |s|
  {
    s[j := s[k]][k := s[j]]
  }

  lemma SwappedCovers(ranges: seq<nat>, masks: seq<set<Granule>>, j: nat, k: nat, q: nat, g: Granule)
    requires |ranges| == |masks| && j < |ranges| && k < |ranges|
    ensures Covered(Swapped(ranges, j, k), Swapped(masks, j, k), q, g) <==> Covered(ranges, masks, q, g)
  {
    var (a, b) := (Swapped(ranges, j, k), Swapped(masks, j, k));
    if Covered(ranges, masks, q, g) {
      var i :| 0 <= i < |ranges| && ranges[i] == q && g in masks[i];
      var h := if i == j then k else if i == k then j else i;
      assert a[h] == q && g in b[h];
    }
    if Covered(a, b, q, g) {
      var i :| 0 <= i < |a| && a[i] == q && g in b[i];
      var h := if i == j then k else if i == k then j else i;
      assert ranges[h] == q && g in masks[h];
    }
  }

  /**
   * The position of a touched address's range, appended if it is new.  A fetch
   * looks at the last range first and swaps a returning range to the end, so
   * that it is the last one next time; a literal leaves the order alone.
   */
  method PositionOf(ranges: seq<nat>, masks: seq<set<Granule>>, t: Touch, ghost touched: seq<Touch>)
    returns (newRanges: seq<nat>, newMasks: seq<set<Granule>>, k: nat)
    requires Collected(ranges, masks, touched)
    ensures |newRanges| == |newMasks| <= |touched| + 1 && Unique(newRanges)
    ensures k < |newRanges| && newRanges[k] == RangeOf(t.addr)
    ensures forall q: nat, g: Granule :: Covered(newRanges, newMasks, q, g) <==> Covered(ranges, masks, q, g)
    ensures forall j :: 0 <= j < |newMasks| && j != k ==> newMasks[j] != {}
    ensures t.Fetch? ==> k == |newRanges| - 1
  {
    hide RangeOf, GranuleOf, Covered, Touched;
    newRanges, newMasks := ranges, masks;
    assert forall i :: 0 <= i < |masks| ==> masks[i] in masks;
    var r := RangeOf(t.addr);
    if t.Fetch? && |ranges| > 0 && ranges[|ranges| - 1] == r {
      return newRanges, newMasks, |ranges| - 1;
    }
    for j := 0 to |ranges|
      invariant forall i :: 0 <= i < j ==> ranges[i] != r
    {
      if ranges[j] == r {
        if t.Literal? {
          return newRanges, newMasks, j;
        }
        k := |ranges| - 1;
        newRanges, newMasks := Swapped(ranges, j, k), Swapped(masks, j, k);
        forall q: nat, g: Granule
          ensures Covered(newRanges, newMasks, q, g) <==> Covered(ranges, masks, q, g)
        {
          SwappedCovers(ranges, masks, j, k, q, g);
        }
        return;
      }
    }
    newRanges, newMasks, k := ranges + [r], masks + [{}], |ranges|;
    forall q: nat, g: Granule
      ensures Covered(newRanges, newMasks, q, g) <==> Covered(ranges, masks, q, g)
    {
      EmptyAppended(ranges, masks, r, q, g);
    }
  }

  /** The ranges and masks of a block: distinct ranges, and exactly the touched granules. */
  method CollectRanges(touched: seq<Touch>) returns (ranges: seq<nat>, masks: seq<set<Granule>>)
    ensures Collected(ranges, masks, touched)
  {
    ranges, masks := [], [];
    for i := 0 to |touched|
      invariant Collected(ranges, masks, touched[..i])
    {
      var t := touched[i];
      ghost var before := touched[..i];
      assert touched[..i + 1] == before + [t];
      var r, m, k := PositionOf(ranges, masks, t, before);
      assert Recollected(ranges, masks, before, r, m, k, t) by {
        RecollectedHolds(ranges, masks, before, r, m, k, t);
      }
      ranges, masks := r, m[k := m[k] + {GranuleOf(t.addr)}];
    }
    assert touched[..|touched|] == touched;
  }

  ghost predicate Recollected(
    ranges: seq<nat>, masks: seq<set<Granule>>, before: seq<Touch>, r: seq<nat>, m: seq<set<Granule>>, k: nat, t: Touch)
  {
    k < |m| && Collected(r, m[k := m[k] + {GranuleOf(t.addr)}], before + [t])
  }

  lemma RecollectedHolds(
    ranges: seq<nat>, masks: seq<set<Granule>>, before: seq<Touch>, r: seq<nat>, m: seq<set<Granule>>, k: nat, t: Touch)
    requires Collected(ranges, masks, before)
    requires |r| == |m| <= |before| + 1 && Unique(r) && k < |r| && r[k] == RangeOf(t.addr)
    requires forall q: nat, g: Granule :: Covered(r, m, q, g) <==> Covered(ranges, masks, q, g)
    requires forall j :: 0 <= j < |m| && j != k ==> m[j] != {}
    ensures Recollected(ranges, masks, before, r, m, k, t)
  {
    hide RangeOf, GranuleOf, Covered, Touched, Unique;
    var x := GranuleOf(t.addr);
    var n := m[k := m[k] + {x}];
    forall q: nat, g: Granule
      ensures Covered(r, n, q, g) <==> Touched(before + [t], q, g)
    {
      MaskAdded(r, m, k, x, q, g);
      TouchedMore(before, t, q, g);
    }
    forall s | s in n
      ensures s != {}
    {
      var j :| 0 <= j < |n| && n[j] == s;
      assert x in n[k];
    }
  }

  /** A block with collected ranges is what the index expects, if its accesses were touched. */
  lemma CollectedIsWellFormed(num: Cpu, start: nat, local: nat, scan: Scan, touched: seq<Touch>)
    requires Collected(scan.ranges, scan.masks, touched)
    requires |touched| > 0 && touched[0].addr == local
    requires forall x <- scan.code + scan.literals :: exists t <- touched :: t.addr == x.0
    ensures WellFormed(BlockOf(num, start, local, scan))
  {
    hide RangeOf, GranuleOf, Unique;
    var b := BlockOf(num, start, local, scan);
    forall i | 0 <= i < |touched|
      ensures CoversAddress(b, touched[i].addr)
    {
      var (q, g) := (RangeOf(touched[i].addr), GranuleOf(touched[i].addr));
      assert Touched(touched, q, g);
      assert Covered(scan.ranges, scan.masks, q, g);
    }
    hide CoversAddress;
    forall x | x in b.code + b.literals
      ensures CoversAddress(b, x.0)
    {
      assert x in scan.code + scan.literals;
      var t :| t in touched && t.addr == x.0;
      var i :| 0 <= i < |touched| && touched[i] == t;
    }
    assert forall x <- b.code :: x in b.code + b.literals;
    assert forall x <- b.literals :: x in b.code + b.literals;
  }

  // ---------------------------------------------------------------- the cache

  class JitCache {
    var heap: map<Id, Block>
    var next: nat
    var jit9: map<nat, Id>
    var jit7: map<nat, Id>
    var ranges: map<nat, AddressRange>
    var fast: map<nat, Entry>
    var candidates: map<seq<nat>, Id>
    var invalidLiterals: seq<nat>

    constructor ()
      ensures State() == EMPTY
    {
      heap, next, jit9, jit7, ranges := map[], 0, map[], map[], map[];
      fast, candidates, invalidLiterals := map[], map[], [];
    }

    function State(): Index
      reads this
    {
      Index(heap, next, jit9, jit7, ranges, fast, candidates, invalidLiterals)
    }

    method RetireJitBlock(id: Id)
      requires id in heap
      modifies this`heap, this`candidates
      ensures State() == Retire(old(State()), id)
    {
      var h := InstrHash(heap[id]);
      if h in candidates {
        heap := heap - {candidates[h]};
      }
      candidates := candidates[h := id];
    }

    /** `TinyVector::RemoveByValue` on one range's list. */
    static method RemoveByValue(list: seq<Id>, id: Id) returns (r: seq<Id>, removed: bool)
      ensures r == Removed(list, id) && removed == (id in list)
    {
      for i := 0 to |list|
        invariant id !in list[..i] && Find(list, id) == i + Find(list[i..], id)
      {
        if list[i] == id {
          return RemovedAt(list, i), true;
        }
        assert list[..i + 1] == list[..i] + [list[i]];
      }
      assert list[..|list|] == list;
      return list, false;
    }

    /** Take a block out of the list of every range it is in; only the written range keeps its mask. */
    method Unlist(id: Id, addr: nat)
      requires id in heap && Unique(heap[id].ranges)
      requires forall q <- heap[id].ranges :: q in ranges && id in ranges[q].blocks
      modifies this`ranges
      ensures ranges == Unlisted(old(State()), id, addr)
    {
      hide Removed, RangeOf;
      var b := heap[id];
      ghost var before, target := ranges, Unlisted(State(), id, addr);
      for j := 0 to |b.ranges|
        invariant ranges.Keys == before.Keys
        invariant forall q <- before :: ranges[q] == if q in b.ranges[..j] then target[q] else before[q]
      {
        var q := b.ranges[j];
        assert b.ranges[..j + 1] == b.ranges[..j] + [q];
        assert q !in b.ranges[..j];
        var list, removed := RemoveByValue(ranges[q].blocks, id);
        assert removed;
        ranges := ranges[q := AddressRange(list, if q != RangeOf(addr) && list == [] then {} else ranges[q].code)];
      }
      assert b.ranges[..|b.ranges|] == b.ranges;
    }

    /** The body of the loop of `InvalidateByAddr`. */
    method EvictBlock(id: Id, addr: nat)
      requires id in heap && Unique(heap[id].ranges)
      requires forall q <- heap[id].ranges :: q in ranges && id in ranges[q].blocks
      modifies this
      ensures State() == Evict(old(State()), id, addr)
    {
      hide Unlisted, Retire;
      Unlist(id, addr);
      var b := heap[id];
      var literalInvalidation := false;
      for j := 0 to |b.literals|
        invariant literalInvalidation <==> exists x <- b.literals[..j] :: x.0 == addr
      {
        assert b.literals[..j + 1] == b.literals[..j] + [b.literals[j]];
        if b.literals[j].0 == addr {
          literalInvalidation := true;
        }
      }
      assert b.literals[..|b.literals|] == b.literals;
      fast := fast - {b.local};
      if b.num == 0 {
        jit9 := jit9 - {b.start};
      } else {
        jit7 := jit7 - {b.start};
      }
      if literalInvalidation {
        if addr !in invalidLiterals {
          invalidLiterals := invalidLiterals + [addr];
        }
        heap := heap - {id};
      } else {
        RetireJitBlock(id);
      }
    }

    /** One turn of the loop of `InvalidateByAddr`: the first block of the list goes. */
    method EvictFirst(addr: nat)
      requires Loop(State(), RangeOf(addr)) && RangeAt(State(), RangeOf(addr)).blocks != []
      modifies this
      ensures Loop(State(), RangeOf(addr)) && DropAll(State(), addr) == DropAll(old(State()), addr)
      ensures |RangeAt(State(), RangeOf(addr)).blocks| < |RangeAt(old(State()), RangeOf(addr)).blocks|
    {
      hide Evict, Loop, RangeOf;
      var block := ranges[RangeOf(addr)].blocks[0];
      EvictKeeps(State(), block, addr);
      ListedEverywhere(State(), block, RangeOf(addr));
      hide RangeAt;
      EvictBlock(block, addr);
    }

    method InvalidateByAddr(addr: nat, ghost locate: (Cpu, nat) -> nat)
      requires Coherent(State(), locate)
      modifies this
      ensures State() == JitIndex.InvalidateByAddr(old(State()), addr) && Coherent(State(), locate)
    {
      InvalidateKeeps(State(), addr, locate);
      ClearedKeeps(State(), RangeOf(addr));
      hide Coherent, Loop, RangeAt;
      ranges := ranges[RangeOf(addr) := RangeAt(State(), RangeOf(addr)).(code := {})];
      ghost var s := State();
      while RangeAt(State(), RangeOf(addr)).blocks != []
        invariant Loop(State(), RangeOf(addr)) && DropAll(State(), addr) == DropAll(s, addr)
        decreases |RangeAt(State(), RangeOf(addr)).blocks|
      {
        EvictFirst(addr);
      }
    }

    method CheckAndInvalidate(addr: nat, ghost locate: (Cpu, nat) -> nat)
      requires Coherent(State(), locate)
      modifies this
      ensures State() == JitIndex.CheckAndInvalidate(old(State()), addr) && Coherent(State(), locate)
    {
      hide Coherent, JitIndex.InvalidateByAddr;
      if RangeOf(addr) in ranges && GranuleOf(addr) in ranges[RangeOf(addr)].code {
        InvalidateByAddr(addr, locate);
      }
    }

    /** The range-by-range comparison of a candidate with the scan. */
    method CompareRanges(prev: Block, scan: Scan) returns (same: bool)
      requires |prev.ranges| == |prev.masks| && |scan.ranges| == |scan.masks|
      ensures same <==> prev.ranges == scan.ranges && prev.masks == scan.masks
    {
      same := |prev.ranges| == |scan.ranges|;
      if same {
        for j := 0 to |scan.ranges|
          invariant prev.ranges[..j] == scan.ranges[..j] && prev.masks[..j] == scan.masks[..j]
        {
          if prev.ranges[j] != scan.ranges[j] || prev.masks[j] != scan.masks[j] {
            return false;
          }
        }
        assert prev.ranges[..|prev.ranges|] == prev.ranges && prev.masks[..|prev.masks|] == prev.masks;
        assert scan.ranges[..|scan.ranges|] == scan.ranges && scan.masks[..|scan.masks|] == scan.masks;
      }
    }

    /** The candidate with the same instructions, if it can be used again; it stops being one either way. */
    method ObtainBlock(num: Cpu, start: nat, local: nat, scan: Scan) returns (id: Id)
      requires HeapInv(State()) && |scan.ranges| == |scan.masks|
      modifies this`heap, this`next, this`candidates
      ensures (State(), id) == Obtain(old(State()), num, start, local, scan)
    {
      assert forall h <- candidates :: candidates[h] in heap && WellFormed(heap[candidates[h]]);
      hide HeapInv, Covers, CoversAddress, Unique, Values;
      var h := Values(scan.code);
      var mayRestore := false;
      if h in candidates {
        id := candidates[h];
        candidates := candidates - {h};
        var prev := heap[id];
        mayRestore := prev.start == start && Values(prev.literals) == Values(scan.literals);
        if mayRestore {
          mayRestore := CompareRanges(prev, scan);
        }
        if !mayRestore {
          heap := heap - {id};
        }
      } else {
        candidates := candidates - {h};
      }
      if !mayRestore {
        id := next;
        heap := heap[id := BlockOf(num, start, local, scan)];
        next := next + 1;
      }
    }

    /** Add the block to its lists and its masks to theirs. */
    method List(id: Id)
      requires id in heap && |heap[id].ranges| == |heap[id].masks| && Unique(heap[id].ranges)
      modifies this`ranges
      ensures ranges == Listed(old(State()), id)
    {
      var b := heap[id];
      ghost var before, target := State(), Listed(State(), id);
      hide MaskOf;
      for j := 0 to |b.ranges|
        invariant forall q :: q in ranges <==> q in before.ranges || q in b.ranges[..j]
        invariant forall q <- ranges :: ranges[q] == if q in b.ranges[..j] then target[q] else before.ranges[q]
      {
        var q := b.ranges[j];
        assert b.ranges[..j + 1] == b.ranges[..j] + [q];
        assert q !in b.ranges[..j];
        MaskAt(b, j);
        var range := if q in ranges then ranges[q] else AddressRange([], {});
        ranges := ranges[q := AddressRange(range.blocks + [id], range.code + b.masks[j])];
      }
      assert b.ranges[..|b.ranges|] == b.ranges;
      assert ranges.Keys == target.Keys;
    }

    /** Enter the block into its lists, its map and the fast lookup table. */
    method RegisterBlock(num: Cpu, start: nat, local: nat, id: Id)
      requires id in heap && |heap[id].ranges| == |heap[id].masks| && Unique(heap[id].ranges)
      modifies this`ranges, this`jit9, this`jit7, this`fast
      ensures State() == Register(old(State()), num, start, local, id)
    {
      hide Listed, Unique;
      List(id);
      if num == 0 {
        jit9 := jit9[start := id];
      } else {
        jit7 := jit7[start := id];
      }
      fast := fast[local := Entry(start, num, id)];
    }

    /** The end of `CompileBlock`: find, restore or allocate the block, and register it. */
    method CompileBlock(num: Cpu, start: nat, local: nat, scan: Scan)
      requires HeapInv(State()) && WellFormed(BlockOf(num, start, local, scan))
      modifies this
      ensures State() == Compile(old(State()), num, start, local, scan)
    {
      if start in Registered(State(), num) {
        fast := fast[local := Entry(start, num, Registered(State(), num)[start])];
        return;
      }
      ObtainLive(State(), num, start, local, scan);
      hide Obtain, Register, HeapInv, Live, Covers;
      var id := ObtainBlock(num, start, local, scan);
      HeapBlocks(State(), id);
      RegisterBlock(num, start, local, id);
    }
  }

  lemma HeapBlocks(s: Index, id: Id)
    requires HeapInv(s) && id in s.heap
    ensures WellFormed(s.heap[id])
  {
  }

  lemma MaskAt(b: Block, j: nat)
    requires |b.ranges| == |b.masks| && Unique(b.ranges) && j < |b.ranges|
    ensures MaskOf(b, b.ranges[j]) == b.masks[j]
  {
    forall g: Granule
      ensures g in b.masks[j] <==> Covers(b, b.ranges[j], g)
    {
    }
  }

  /** A listed block is in the list of each of its ranges. */
  lemma ListedEverywhere(s: Index, id: Id, r: nat)
    requires Loop(s, r) && id in RangeAt(s, r).blocks
    ensures id in s.heap && Unique(s.heap[id].ranges)
    ensures forall q <- s.heap[id].ranges :: q in s.ranges && id in s.ranges[q].blocks
  {
    hide MaskInv, FastInv;
    assert WellFormed(s.heap[id]);
    assert forall q <- s.heap[id].ranges :: id in RangeAt(s, q).blocks;
  }
}
