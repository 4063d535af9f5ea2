/**
 * The block index in bytes: which writes reach which blocks, what becomes of
 * the blocks that a write takes out, and which candidate a compilation reuses.
 */
module JitBytes {
  import opened Basics
  import opened JitIndex
  import opened JitTheorems

  // ---------------------------------------------------------------- granules and ranges

  /** Two addresses share a granule if they are in the same 16 bytes, and a range if in the same 512. */
  lemma SixteenBytes(a: nat, b: nat)
    ensures RangeOf(a) == RangeOf(b) && GranuleOf(a) == GranuleOf(b) <==> a / 16 == b / 16
    ensures RangeOf(a) == RangeOf(b) <==> a / 512 == b / 512
  {
    Granules(a);
    Granules(b);
  }

  lemma Granules(a: nat)
    ensures a / 16 == 32 * (a / 512) + a % 512 / 16
  {
    var (q, r) := (a / 512, a % 512);
    assert a == 512 * q + r;
    DivisionUnique(a, 16, 32 * q + r / 16, r % 16);
  }

  /** A block that was compiled from something in the 16 bytes around an address. */
  predicate ReadsNear(b: Block, addr: nat) {
    (exists x <- b.code :: x.0 / 16 == addr / 16) || (exists x <- b.literals :: x.0 / 16 == addr / 16)
  }

  lemma NearIsCovered(b: Block, addr: nat)
    requires WellFormed(b) && ReadsNear(b, addr)
    ensures CoversAddress(b, addr)
  {
    hide RangeOf, GranuleOf, Covers;
    if x :| x in b.code && x.0 / 16 == addr / 16 {
      SixteenBytes(x.0, addr);
    } else {
      var x :| x in b.literals && x.0 / 16 == addr / 16;
      SixteenBytes(x.0, addr);
    }
  }

  /**
   * After a write has been reported, no lookup and no entry of the maps leads to
   * a block compiled from anything in the 16 bytes around it.
   */
  lemma NothingNearIsFound(s: Index, addr: nat, locate: (Cpu, nat) -> nat, num: Cpu, local: nat, a: nat)
    requires Coherent(s, locate)
    ensures var t := CheckAndInvalidate(s, addr);
            && (LookUp(t, num, local, a).Some? ==>
                  LookUp(t, num, local, a).value in t.heap
                  && !ReadsNear(t.heap[LookUp(t, num, local, a).value], addr))
            && (a in Registered(t, num) ==>
                  Registered(t, num)[a] in t.heap && !ReadsNear(t.heap[Registered(t, num)[a]], addr))
  {
    hide ListInv, MaskInv, FastInv, MapInv, LocateInv, CheckAndInvalidate, Registered, LookUp, CoversAddress, ReadsNear;
    WriteReported(s, addr, locate);
    var t := CheckAndInvalidate(s, addr);
    if LookUp(t, num, local, a).Some? {
      FoundIsFar(t, LookUp(t, num, local, a).value, addr);
    }
    if a in Registered(t, num) {
      FoundIsFar(t, Registered(t, num)[a], addr);
    }
  }

  lemma FoundIsFar(t: Index, id: Id, addr: nat)
    requires HeapInv(t) && Live(t, id) && !CoversAddress(t.heap[id], addr)
    ensures id in t.heap && !ReadsNear(t.heap[id], addr)
  {
    hide CoversAddress, ReadsNear, WellFormed;
    if ReadsNear(t.heap[id], addr) {
      NearIsCovered(t.heap[id], addr);
    }
  }

  /** The code mask has the bit of the 16 bytes around an address. */
  predicate Marked(s: Index, addr: nat) {
    addr / 512 in s.ranges && addr % 512 / 16 in s.ranges[addr / 512].code
  }

  /**
   * A reported write does nothing unless the mask of its 512 bytes has its bit;
   * then it takes out exactly the live blocks with anything in these 512 bytes.
   */
  lemma ReportsExactly(s: Index, addr: nat, locate: (Cpu, nat) -> nat)
    requires Coherent(s, locate)
    ensures var t := CheckAndInvalidate(s, addr);
            if !Marked(s, addr) then t == s
            else
              forall x :: Live(t, x) <==> Live(s, x) && addr / 512 !in s.heap[x].ranges
  {
    hide Coherent, Live, InvalidateByAddr;
    InvalidateKeeps(s, addr, locate);
  }

  // ---------------------------------------------------------------- what becomes of the blocks

  /** A live block in the 512 bytes of the address. */
  predicate Hit(s: Index, addr: nat, x: Id) { Live(s, x) && addr / 512 in s.heap[x].ranges }

  /** It loaded the very address as a literal. */
  predicate LoadsIt(b: Block, addr: nat) { exists x <- b.literals :: x.0 == addr }

  /** A block that a write takes out and keeps for later, with these instruction values. */
  predicate Kept(s: Index, addr: nat, h: seq<nat>, x: Id) {
    Hit(s, addr, x) && !LoadsIt(s.heap[x], addr) && Values(s.heap[x].code) == h
  }

  lemma EvictOne(s: Index, id: Id, addr: nat)
    requires HeapInv(s) && Live(s, id)
    ensures var (t, b) := (Evict(s, id, addr), s.heap[id]);
            && t.candidates == (if LoadsIt(b, addr) then s.candidates else s.candidates[Values(b.code) := id])
            && (LoadsIt(b, addr) ==> id !in t.heap)
            && t.invalidLiterals == if LoadsIt(b, addr) && addr !in s.invalidLiterals then s.invalidLiterals + [addr]
                                    else s.invalidLiterals
  {
    hide Unlisted;
  }

  /**
   * The candidate for some instruction values after the loop: one of the blocks
   * taken out that have these values and did not load the written address, if
   * there is one; else the one from before.
   */
  lemma {:induction false} CandidateAfter(s: Index, addr: nat, h: seq<nat>)
    requires Loop(s, addr / 512)
    ensures var t := DropAll(s, addr);
            if exists x :: Kept(s, addr, h, x) then
              h in t.candidates && Kept(s, addr, h, t.candidates[h])
            else
              (h in t.candidates <==> h in s.candidates)
              && (h in s.candidates ==> t.candidates[h] == s.candidates[h])
    decreases |RangeAt(s, addr / 512).blocks|
  {
    hide HeapInv, MaskInv, FastInv, RangeAt, Evict, Live, LoadsIt, Values;
    var blocks := RangeAt(s, addr / 512).blocks;
    if blocks != [] {
      var id := blocks[0];
      EvictKeeps(s, id, addr);
      EvictLive(s, id, addr);
      EvictOne(s, id, addr);
      var u := Evict(s, id, addr);
      CandidateAfter(u, addr, h);
      assert DropAll(s, addr) == DropAll(u, addr) by { LiveInHeap(s, id); }
      assert id in RangeAt(s, addr / 512).blocks;
      forall x
        ensures Kept(u, addr, h, x) <==> Kept(s, addr, h, x) && x != id
      {
      }
      assert Kept(s, addr, h, id) <==> !LoadsIt(s.heap[id], addr) && Values(s.heap[id].code) == h;
    } else {
      NoneHit(s, addr);
    }
  }

  lemma LiveInHeap(s: Index, id: Id)
    requires Live(s, id)
    ensures id in s.heap
  {
  }

  lemma NoneHit(s: Index, addr: nat)
    requires Loop(s, addr / 512) && RangeAt(s, addr / 512).blocks == []
    ensures DropAll(s, addr) == s && forall x :: !Hit(s, addr, x)
  {
    hide HeapInv, MaskInv, FastInv, Live;
  }

  /** A block that loaded the written address is deleted, and the address is remembered once. */
  lemma {:induction false} LoadersAfter(s: Index, addr: nat)
    requires Loop(s, addr / 512)
    ensures var t := DropAll(s, addr);
            && (forall x :: Hit(s, addr, x) && LoadsIt(s.heap[x], addr) ==> x !in t.heap)
            && t.invalidLiterals
               == if addr !in s.invalidLiterals && exists x :: Hit(s, addr, x) && LoadsIt(s.heap[x], addr) then
                    s.invalidLiterals + [addr]
                  else s.invalidLiterals
    decreases |RangeAt(s, addr / 512).blocks|
  {
    hide HeapInv, MaskInv, FastInv, RangeAt, Evict, Live, LoadsIt;
    var blocks := RangeAt(s, addr / 512).blocks;
    if blocks != [] {
      var id := blocks[0];
      EvictKeeps(s, id, addr);
      EvictLive(s, id, addr);
      EvictOne(s, id, addr);
      var u := Evict(s, id, addr);
      LoadersAfter(u, addr);
      DropAllKeeps(u, addr);
      assert DropAll(s, addr) == DropAll(u, addr) by { LiveInHeap(s, id); }
      assert id in RangeAt(s, addr / 512).blocks;
      forall x
        ensures Hit(u, addr, x) <==> Hit(s, addr, x) && x != id
      {
      }
      assert Hit(s, addr, id);
    } else {
      NoneHit(s, addr);
    }
  }

  lemma SameHits(s: Index, t: Index, addr: nat)
    requires s.heap == t.heap && s.candidates == t.candidates
    ensures forall x :: Hit(s, addr, x) == Hit(t, addr, x)
    ensures forall h, x :: Kept(s, addr, h, x) == Kept(t, addr, h, x)
  {
    hide Values;
    SameLive(s, t);
  }

  /**
   * The blocks that a write takes out: those that loaded the written address as a
   * literal are deleted and the address is never optimised again; of the others
   * with the same instruction values one becomes the candidate for a later
   * compilation.  Other candidates stay.
   */
  lemma TakenOut(s: Index, addr: nat, h: seq<nat>, locate: (Cpu, nat) -> nat)
    requires Coherent(s, locate)
    ensures var t := InvalidateByAddr(s, addr);
            && (forall x :: Hit(s, addr, x) && LoadsIt(s.heap[x], addr) ==> x !in t.heap)
            && t.invalidLiterals
               == (if addr !in s.invalidLiterals && exists x :: Hit(s, addr, x) && LoadsIt(s.heap[x], addr) then
                     s.invalidLiterals + [addr]
                   else s.invalidLiterals)
            && if exists x :: Kept(s, addr, h, x) then
                 h in t.candidates && Kept(s, addr, h, t.candidates[h])
               else
                 (h in t.candidates <==> h in s.candidates)
                 && (h in s.candidates ==> t.candidates[h] == s.candidates[h])
  {
    hide HeapInv, ListInv, MaskInv, FastInv, MapInv, LocateInv, RangeAt, Live, DropAll, Loop, LoadsIt, Hit, Kept;
    var u := s.(ranges := s.ranges[RangeOf(addr) := RangeAt(s, RangeOf(addr)).(code := {})]);
    ClearedKeeps(s, RangeOf(addr));
    SameHits(s, u, addr);
    LoadersAfter(u, addr);
    CandidateAfter(u, addr, h);
  }

  // ---------------------------------------------------------------- what a compilation reuses

  /** The candidate for the scanned instruction values fits in everything that is compared. */
  predicate Reusable(s: Index, start: nat, scan: Scan) {
    var h := Values(scan.code);
    && h in s.candidates && s.candidates[h] in s.heap
    && var prev := s.heap[s.candidates[h]];
    && prev.start == start
    && |prev.literals| == |scan.literals|
    && (forall i :: 0 <= i < |scan.literals| ==> prev.literals[i].1 == scan.literals[i].1)
    && prev.ranges == scan.ranges && prev.masks == scan.masks
  }

  lemma ReusableIs(s: Index, start: nat, scan: Scan)
    ensures Reusable(s, start, scan) <==> MayRestore(s, start, scan)
  {
    if Values(scan.code) in s.candidates && s.candidates[Values(scan.code)] in s.heap {
      SameValues(s.heap[s.candidates[Values(scan.code)]].literals, scan.literals);
    }
    hide Values;
  }

  lemma SameValues(a: seq<(nat, nat)>, b: seq<(nat, nat)>)
    ensures Values(a) == Values(b) <==> |a| == |b| && forall i :: 0 <= i < |b| ==> a[i].1 == b[i].1
  {
    assert |Values(a)| == |a| && |Values(b)| == |b|;
    if Values(a) == Values(b) {
      forall i | 0 <= i < |b|
        ensures a[i].1 == b[i].1
      {
        assert Values(a)[i] == Values(b)[i];
      }
    }
  }

  /**
   * Compiling at an address that is not mapped: the candidate if it fits, else a
   * new block of exactly what was scanned, in whose favour the candidate is
   * deleted.  Either way the values have no candidate any more, and what comes
   * out is mapped, looked up, and listed last in each of its ranges.
   */
  lemma CompilesExactly(s: Index, num: Cpu, start: nat, local: nat, scan: Scan) returns (id: Id)
    requires HeapInv(s) && WellFormed(BlockOf(num, start, local, scan)) && start !in Registered(s, num)
    ensures var (t, h) := (Compile(s, num, start, local, scan), Values(scan.code));
            && id in t.heap && LookUp(t, num, local, start) == Some(id)
            && start in Registered(t, num) && Registered(t, num)[start] == id
            && t.candidates == s.candidates - {h} && t.invalidLiterals == s.invalidLiterals
            && (Reusable(s, start, scan) ==> id == s.candidates[h] && t.heap == s.heap)
            && (!Reusable(s, start, scan) ==>
                  && t.heap[id] == Block(num, start, local, scan.code, scan.literals, scan.ranges, scan.masks)
                  && id !in s.heap && (h in s.candidates ==> s.candidates[h] !in t.heap))
            && (forall q: nat ::
                  RangeAt(t, q).blocks
                  == if q in t.heap[id].ranges then RangeAt(s, q).blocks + [id] else RangeAt(s, q).blocks)
            && (forall q: nat, g: Granule ::
                  g in RangeAt(t, q).code <==> g in RangeAt(s, q).code || Covers(t.heap[id], q, g))
  {
    hide Values, WellFormed, Covers, MayRestore, Reusable;
    ReusableIs(s, start, scan);
    id := Obtain(s, num, start, local, scan).1;
    ObtainParts(s, num, start, local, scan);
    CompileAdds(s, num, start, local, scan);
    var t := Compile(s, num, start, local, scan);
    hide Obtain, Compile, HeapInv, Live;
    forall q: nat, g: Granule
      ensures g in RangeAt(t, q).code <==> g in RangeAt(s, q).code || Covers(t.heap[id], q, g)
    {
      if Covers(t.heap[id], q, g) {
        CoversRange(t.heap[id], q, g);
      }
    }
  }

  lemma ObtainParts(s: Index, num: Cpu, start: nat, local: nat, scan: Scan)
    requires HeapInv(s) && start !in Registered(s, num)
    ensures var (t, id) := Obtain(s, num, start, local, scan);
            var (u, h) := (Compile(s, num, start, local, scan), Values(scan.code));
            && u.heap == t.heap && u.candidates == s.candidates - {h} && u.invalidLiterals == s.invalidLiterals
            && (MayRestore(s, start, scan) ==> id == s.candidates[h] && t.heap == s.heap)
            && (!MayRestore(s, start, scan) ==> id !in s.heap && (h in s.candidates ==> s.candidates[h] !in t.heap))
  {
    hide Values, WellFormed, Listed;
  }
}
