/**
 * The JIT's block index as a value: the maps of live blocks, the per-512-byte
 * lists with their code masks, the fast lookup table, and the retired blocks
 * that may be restored.  A block pointer is an `Id`; `heap` holds the blocks
 * that have not been deleted.  A local address a lies in range a / 512 and in
 * granule a % 512 / 16 of it.
 */
module JitIndex {
  import opened Basics

  type Id = nat

  type Cpu = n: int | 0 <= n < 2

  type Granule = g: int | 0 <= g < 32

  function RangeOf(addr: nat): nat { addr / 512 }

  function GranuleOf(addr: nat): Granule { addr % 512 / 16 }

  /**
   * A compiled block.  `code` and `literals` are the local addresses it was
   * compiled from and the values read there; the hash of a list of values is
   * the list itself.
   */
  datatype Block = Block(
    num: Cpu, start: nat, local: nat, code: seq<(nat, nat)>, literals: seq<(nat, nat)>,
    ranges: seq<nat>, masks: seq<set<Granule>>)

  function Values(accesses: seq<(nat, nat)>): seq<nat> {
    seq(|accesses|, i requires 0 <= i < |accesses| => accesses[i].1)
  }

  function Addresses(accesses: seq<(nat, nat)>): seq<nat> {
    seq(|accesses|, i requires 0 <= i < |accesses| => accesses[i].0)
  }

  function InstrHash(b: Block): seq<nat> { Values(b.code) }

  datatype AddressRange = AddressRange(blocks: seq<Id>, code: set<Granule>)

  datatype Entry = Entry(addr: nat, num: Cpu, id: Id)

  datatype Index = Index(
    heap: map<Id, Block>, next: nat, jit9: map<nat, Id>, jit7: map<nat, Id>,
    ranges: map<nat, AddressRange>, fast: map<nat, Entry>, candidates: map<seq<nat>, Id>, invalidLiterals: seq<nat>)

  const EMPTY := Index(map[], 0, map[], map[], map[], map[], map[], [])

  function Registered(s: Index, num: Cpu): map<nat, Id> { if num == 0 then s.jit9 else s.jit7 }

  function RangeAt(s: Index, q: nat): AddressRange { if q in s.ranges then s.ranges[q] else AddressRange([], {}) }

  predicate Covered(ranges: seq<nat>, masks: seq<set<Granule>>, q: nat, g: Granule) {
    exists j :: 0 <= j < |ranges| && j < |masks| && ranges[j] == q && g in masks[j]
  }

  predicate Covers(b: Block, q: nat, g: Granule) { Covered(b.ranges, b.masks, q, g) }

  predicate CoversAddress(b: Block, addr: nat) { Covers(b, RangeOf(addr), GranuleOf(addr)) }

  predicate Unique<T(==)>(s: seq<T>) {
    forall i, j :: 0 <= i < j < |s| ==> s[i] != s[j]
  }

  /** What the range collection of the compiler guarantees of a block. */
  ghost predicate WellFormed(b: Block) {
    && |b.ranges| == |b.masks| && Unique(b.ranges)
    && (forall m <- b.masks :: m != {})
    && CoversAddress(b, b.local)
    && (forall x <- b.code :: CoversAddress(b, x.0))
    && (forall x <- b.literals :: CoversAddress(b, x.0))
  }

  // ---------------------------------------------------------------- coherence

  predicate Retired(s: Index, id: Id) {
    id in s.heap && InstrHash(s.heap[id]) in s.candidates && s.candidates[InstrHash(s.heap[id])] == id
  }

  predicate Live(s: Index, id: Id): (live: bool)
    ensures live ==> id in s.heap
  {
    id in s.heap && !Retired(s, id)
  }

  /** Retired blocks exist and sit under their own hash; nothing is allocated ahead of time. */
  ghost predicate HeapInv(s: Index) {
    && (forall id <- s.heap :: WellFormed(s.heap[id]) && id < s.next)
    && (forall h <- s.candidates :: s.candidates[h] in s.heap && InstrHash(s.heap[s.candidates[h]]) == h)
  }

  ghost predicate LiveListed(s: Index) {
    forall id: nat, q: nat :: Live(s, id) && q in s.heap[id].ranges ==> id in RangeAt(s, q).blocks
  }

  ghost predicate ListedLive(s: Index) {
    forall q: nat, id: nat :: id in RangeAt(s, q).blocks ==> Live(s, id) && q in s.heap[id].ranges
  }

  /** Every live block is in the list of each of its ranges, once, and the lists hold nothing else. */
  ghost predicate ListInv(s: Index) {
    LiveListed(s) && ListedLive(s) && forall q: nat :: Unique(RangeAt(s, q).blocks)
  }

  /** The code mask of every range but `except` contains the masks of its blocks. */
  ghost predicate MaskInv(s: Index, except: Option<nat>) {
    forall id: nat, q: nat, g: Granule ::
      Live(s, id) && Covers(s.heap[id], q, g) && except != Some(q) ==> g in RangeAt(s, q).code
  }

  /** Every fast lookup entry names a live block that starts there. */
  ghost predicate FastInv(s: Index) {
    forall l <- s.fast ::
      var id := s.fast[l].id; Live(s, id) && s.heap[id].local == l && s.heap[id].start == s.fast[l].addr
  }

  /** The maps hold live blocks, under their own processor and start address. */
  ghost predicate MapsLive(s: Index) {
    forall num: Cpu, a: nat :: a in Registered(s, num) ==>
      var id := Registered(s, num)[a]; Live(s, id) && s.heap[id].num == num && s.heap[id].start == a
  }

  predicate MappedAt(s: Index, id: Id)
    requires id in s.heap
  {
    var b := s.heap[id];
    b.start in Registered(s, b.num) && Registered(s, b.num)[b.start] == id
  }

  ghost predicate LiveMapped(s: Index) {
    forall id: nat :: Live(s, id) ==> MappedAt(s, id)
  }

  /** Maps, blocks and fast lookup tags agree about who runs which block. */
  ghost predicate MapInv(s: Index) {
    && MapsLive(s) && LiveMapped(s)
    && (forall l <- s.fast :: Live(s, s.fast[l].id) ==> s.heap[s.fast[l].id].num == s.fast[l].num)
  }

  /** Where code sits does not change: a block starts where its start address is now. */
  ghost predicate LocateInv(s: Index, locate: (Cpu, nat) -> nat) {
    forall id <- s.heap :: s.heap[id].local == locate(s.heap[id].num, s.heap[id].start)
  }

  ghost predicate Coherent(s: Index, locate: (Cpu, nat) -> nat) {
    HeapInv(s) && ListInv(s) && MaskInv(s, None) && FastInv(s) && MapInv(s) && LocateInv(s, locate)
  }

  /** The block that executing at `addr` would run without compiling. */
  function LookUp(s: Index, num: Cpu, local: nat, addr: nat): Option<Id> {
    if local in s.fast && s.fast[local].addr == addr && s.fast[local].num == num then Some(s.fast[local].id) else None
  }

  // ---------------------------------------------------------------- removing a block

  /** `TinyVector::Remove`: the last element takes the place of the removed one. */
  function RemovedAt(list: seq<Id>, i: nat): seq<Id>
    requires i < |list|
  {
    var last := |list| - 1;
    if i == last then list[..last] else list[..last][i := list[last]]
  }

  function Find(list: seq<Id>, id: Id): (i: nat)
    ensures i <= |list| && (i < |list| ==> list[i] == id) && id !in list[..i]
  {
    if list == [] then 0 else if list[0] == id then 0 else Find(list[1..], id) + 1
  }

  function Removed(list: seq<Id>, id: Id): seq<Id> {
    var i := Find(list, id);
    if i < |list| then RemovedAt(list, i) else list
  }

  lemma RemovedMembers(list: seq<Id>, id: Id)
    requires Unique(list)
    ensures Unique(Removed(list, id)) && id !in Removed(list, id)
    ensures forall x :: x in Removed(list, id) <==> x in list && x != id
    ensures id in list ==> |Removed(list, id)| == |list| - 1
  {
    var i := Find(list, id);
    if i < |list| {
      var r := Removed(list, id);
      forall x | x in list && x != id
        ensures x in r
      {
        var k :| 0 <= k < |list| && list[k] == x;
        assert r[if k == |list| - 1 then i else k] == x;
      }
    }
  }

  function Retire(s: Index, id: Id): Index
    requires id in s.heap
  {
    var h := InstrHash(s.heap[id]);
    s.(heap := if h in s.candidates then s.heap - {s.candidates[h]} else s.heap, candidates := s.candidates[h := id])
  }

  /** One turn of the loop of `InvalidateByAddr`: take block `id` out of everything. */
  function Unlisted(s: Index, id: Id, addr: nat): map<nat, AddressRange>
    requires id in s.heap
  {
    map q | q in s.ranges ::
      if q !in s.heap[id].ranges then s.ranges[q]
      else
        var l := Removed(s.ranges[q].blocks, id);
        AddressRange(l, if q != RangeOf(addr) && l == [] then {} else s.ranges[q].code)
  }

  predicate HasLiteral(b: Block, addr: nat) { exists x <- b.literals :: x.0 == addr }

  function Unmapped(s: Index, id: Id): Index
    requires id in s.heap
  {
    var b := s.heap[id];
    s.(fast := s.fast - {b.local},
       jit9 := if b.num == 0 then s.jit9 - {b.start} else s.jit9,
       jit7 := if b.num == 0 then s.jit7 else s.jit7 - {b.start})
  }

  function Evict(s: Index, id: Id, addr: nat): Index
    requires id in s.heap
  {
    var t := Unmapped(s, id).(ranges := Unlisted(s, id, addr));
    if HasLiteral(s.heap[id], addr) then
      t.(invalidLiterals := if addr in s.invalidLiterals then s.invalidLiterals else s.invalidLiterals + [addr],
         heap := s.heap - {id})
    else Retire(t, id)
  }

  function DropAll(s: Index, addr: nat): Index
    decreases |RangeAt(s, RangeOf(addr)).blocks|
  {
    var blocks := RangeAt(s, RangeOf(addr)).blocks;
    if blocks == [] || blocks[0] !in s.heap then s
    else
      var t := Evict(s, blocks[0], addr);
      if |RangeAt(t, RangeOf(addr)).blocks| < |blocks| then DropAll(t, addr) else t
  }

  /**
   * The mask test of the source compares a block's mask with itself, so every
   * block of the 512-byte range goes, whichever granule was written.
   */
  function InvalidateByAddr(s: Index, addr: nat): Index {
    var r := RangeOf(addr);
    DropAll(s.(ranges := s.ranges[r := RangeAt(s, r).(code := {})]), addr)
  }

  function CheckAndInvalidate(s: Index, addr: nat): Index {
    if GranuleOf(addr) in RangeAt(s, RangeOf(addr)).code then InvalidateByAddr(s, addr) else s
  }

  // ---------------------------------------------------------------- eviction keeps coherence

  /** The invariant inside the loop, when the mask of the range under way is already cleared. */
  ghost predicate Loop(s: Index, r: nat) {
    HeapInv(s) && ListInv(s) && MaskInv(s, Some(r)) && FastInv(s)
  }

  lemma EvictLive(s: Index, id: Id, addr: nat)
    requires HeapInv(s) && Live(s, id)
    ensures forall x :: Live(Evict(s, id, addr), x) <==> Live(s, x) && x != id
    ensures forall x :: x in Evict(s, id, addr).heap ==> x in s.heap && Evict(s, id, addr).heap[x] == s.heap[x]
    ensures HeapInv(Evict(s, id, addr))
  {
    hide Unlisted, HasLiteral, WellFormed;
  }

  lemma EvictRange(s: Index, id: Id, addr: nat, q: nat)
    requires id in s.heap
    ensures RangeAt(Evict(s, id, addr), q).blocks
            == if q in s.heap[id].ranges then Removed(RangeAt(s, q).blocks, id) else RangeAt(s, q).blocks
    ensures RangeAt(Evict(s, id, addr), q).code
            == if q in s.heap[id].ranges && q != RangeOf(addr) && RangeAt(Evict(s, id, addr), q).blocks == [] then {}
               else RangeAt(s, q).code
  {
    hide HasLiteral, InstrHash;
    assert Evict(s, id, addr).ranges == Unlisted(s, id, addr);
  }

  lemma EvictMembers(s: Index, id: Id, addr: nat, q: nat)
    requires ListInv(s) && Live(s, id)
    ensures Unique(RangeAt(Evict(s, id, addr), q).blocks)
    ensures forall x :: x in RangeAt(Evict(s, id, addr), q).blocks <==> x in RangeAt(s, q).blocks && x != id
    ensures id in RangeAt(s, q).blocks ==> |RangeAt(Evict(s, id, addr), q).blocks| == |RangeAt(s, q).blocks| - 1
  {
    EvictRange(s, id, addr, q);
    hide RangeAt, Evict, Removed, Live;
    RemovedMembers(RangeAt(s, q).blocks, id);
  }

  lemma EvictLists(s: Index, id: Id, addr: nat)
    requires HeapInv(s) && ListInv(s) && Live(s, id)
    ensures ListInv(Evict(s, id, addr))
  {
    EvictLive(s, id, addr);
    var t := Evict(s, id, addr);
    hide HeapInv, Live, RangeAt, Evict, Unique, LiveListed, ListedLive;
    forall q: nat
      ensures Unique(RangeAt(t, q).blocks)
    {
      EvictMembers(s, id, addr, q);
    }
    EvictLiveListed(s, id, addr);
    EvictListedLive(s, id, addr);
  }

  lemma EvictLiveListed(s: Index, id: Id, addr: nat)
    requires HeapInv(s) && ListInv(s) && Live(s, id)
    ensures LiveListed(Evict(s, id, addr))
  {
    EvictLive(s, id, addr);
    var t := Evict(s, id, addr);
    hide HeapInv, Live, RangeAt, Evict, Unique, ListedLive;
    forall x: nat, q: nat | Live(t, x) && q in t.heap[x].ranges
      ensures x in RangeAt(t, q).blocks
    {
      EvictMembers(s, id, addr, q);
    }
  }

  lemma EvictListedLive(s: Index, id: Id, addr: nat)
    requires HeapInv(s) && ListInv(s) && Live(s, id)
    ensures ListedLive(Evict(s, id, addr))
  {
    EvictLive(s, id, addr);
    var t := Evict(s, id, addr);
    hide HeapInv, Live, RangeAt, Evict, Unique, LiveListed;
    forall q: nat, x: nat | x in RangeAt(t, q).blocks
      ensures Live(t, x) && q in t.heap[x].ranges
    {
      EvictMembers(s, id, addr, q);
    }
  }

  lemma EvictMasks(s: Index, id: Id, addr: nat)
    requires HeapInv(s) && ListInv(s) && MaskInv(s, Some(RangeOf(addr))) && Live(s, id)
    ensures MaskInv(Evict(s, id, addr), Some(RangeOf(addr)))
  {
    EvictLive(s, id, addr);
    EvictLists(s, id, addr);
    hide HeapInv, Live, RangeAt, Evict, Covers;
    var t := Evict(s, id, addr);
    forall x: nat, q: nat, g: Granule | Live(t, x) && Covers(t.heap[x], q, g) && q != RangeOf(addr)
      ensures g in RangeAt(t, q).code
    {
      EvictRange(s, id, addr, q);
      CoversRange(t.heap[x], q, g);
      assert x in RangeAt(t, q).blocks;
    }
  }

  lemma CoversRange(b: Block, q: nat, g: Granule)
    requires Covers(b, q, g)
    ensures q in b.ranges
  {
  }

  lemma EvictFast(s: Index, id: Id, addr: nat)
    requires HeapInv(s) && FastInv(s) && Live(s, id)
    ensures FastInv(Evict(s, id, addr))
  {
    EvictLive(s, id, addr);
    hide HeapInv, Live, Unlisted, HasLiteral, InstrHash;
  }

  /** Evicting a block of the range keeps the loop invariant and shortens the range's list. */
  lemma EvictKeeps(s: Index, id: Id, addr: nat)
    requires Loop(s, RangeOf(addr)) && id in RangeAt(s, RangeOf(addr)).blocks
    ensures Live(s, id) && Loop(Evict(s, id, addr), RangeOf(addr))
    ensures |RangeAt(Evict(s, id, addr), RangeOf(addr)).blocks| == |RangeAt(s, RangeOf(addr)).blocks| - 1
  {
    hide HeapInv, MaskInv, FastInv, RangeAt, Evict, Live;
    assert Live(s, id);
    EvictLive(s, id, addr);
    EvictLists(s, id, addr);
    EvictMasks(s, id, addr);
    EvictFast(s, id, addr);
    EvictMembers(s, id, addr, RangeOf(addr));
  }

  /** What is left: the blocks that have no code in the range, where and what they were. */
  ghost predicate Survivors(s: Index, t: Index, r: nat) {
    && (forall x :: Live(t, x) <==> Live(s, x) && r !in s.heap[x].ranges)
    && (forall x <- t.heap :: x in s.heap && t.heap[x] == s.heap[x])
  }

  lemma {:induction false} DropAllKeeps(s: Index, addr: nat)
    requires Loop(s, RangeOf(addr))
    ensures Loop(DropAll(s, addr), RangeOf(addr)) && RangeAt(DropAll(s, addr), RangeOf(addr)).blocks == []
    ensures Survivors(s, DropAll(s, addr), RangeOf(addr))
    decreases |RangeAt(s, RangeOf(addr)).blocks|
  {
    hide HeapInv, MaskInv, FastInv, RangeAt, Evict;
    var blocks := RangeAt(s, RangeOf(addr)).blocks;
    if blocks != [] {
      EvictKeeps(s, blocks[0], addr);
      EvictLive(s, blocks[0], addr);
      DropAllKeeps(Evict(s, blocks[0], addr), addr);
    }
  }

  lemma EvictRegistered(s: Index, id: Id, addr: nat, num: Cpu)
    requires id in s.heap
    ensures Registered(Evict(s, id, addr), num)
            == if num == s.heap[id].num then Registered(s, num) - {s.heap[id].start} else Registered(s, num)
    ensures Evict(s, id, addr).fast == s.fast - {s.heap[id].local}
  {
    hide Unlisted, HasLiteral, InstrHash;
  }

  lemma EvictMapsLive(s: Index, id: Id, addr: nat)
    requires HeapInv(s) && MapsLive(s) && Live(s, id)
    ensures MapsLive(Evict(s, id, addr))
  {
    EvictLive(s, id, addr);
    hide Evict, HeapInv, Live, Registered;
    var t := Evict(s, id, addr);
    forall num: Cpu, a: nat | a in Registered(t, num)
      ensures var x := Registered(t, num)[a]; Live(t, x) && t.heap[x].num == num && t.heap[x].start == a
    {
      EvictRegistered(s, id, addr, num);
      assert a in Registered(s, num) && Registered(s, num)[a] == Registered(t, num)[a];
    }
  }

  lemma EvictMapped(s: Index, id: Id, addr: nat, x: Id)
    requires id in s.heap && x in s.heap && x != id && MappedAt(s, id) && MappedAt(s, x)
    requires x in Evict(s, id, addr).heap && Evict(s, id, addr).heap[x] == s.heap[x]
    ensures MappedAt(Evict(s, id, addr), x)
  {
    hide Evict, Registered;
    EvictRegistered(s, id, addr, s.heap[x].num);
  }

  lemma EvictLiveMapped(s: Index, id: Id, addr: nat)
    requires HeapInv(s) && LiveMapped(s) && Live(s, id)
    ensures LiveMapped(Evict(s, id, addr))
  {
    EvictLive(s, id, addr);
    hide Evict, HeapInv, Live, MappedAt;
    var t := Evict(s, id, addr);
    forall x: nat | Live(t, x)
      ensures MappedAt(t, x)
    {
      EvictMapped(s, id, addr, x);
    }
  }

  lemma EvictMaps(s: Index, id: Id, addr: nat)
    requires HeapInv(s) && MapInv(s) && Live(s, id)
    ensures MapInv(Evict(s, id, addr))
  {
    EvictMapsLive(s, id, addr);
    EvictLiveMapped(s, id, addr);
    EvictLive(s, id, addr);
    EvictRegistered(s, id, addr, 0);
    hide Evict, HeapInv, Live, Registered, MapsLive, LiveMapped;
  }

  lemma {:induction false} DropAllMaps(s: Index, addr: nat)
    requires Loop(s, RangeOf(addr)) && MapInv(s)
    ensures MapInv(DropAll(s, addr))
    decreases |RangeAt(s, RangeOf(addr)).blocks|
  {
    hide HeapInv, ListInv, MaskInv, FastInv, MapInv, RangeAt, Evict;
    var blocks := RangeAt(s, RangeOf(addr)).blocks;
    if blocks != [] {
      EvictKeeps(s, blocks[0], addr);
      assert HeapInv(s);
      EvictMaps(s, blocks[0], addr);
      DropAllMaps(Evict(s, blocks[0], addr), addr);
    }
  }

  // ---------------------------------------------------------------- invalidation

  lemma SameLive(s: Index, t: Index)
    requires s.heap == t.heap && s.candidates == t.candidates
    ensures forall x :: Live(t, x) == Live(s, x)
  {
  }

  /** The parts of the invariant that no code mask enters into. */
  lemma SameBlocks(s: Index, t: Index)
    requires HeapInv(s) && ListInv(s) && FastInv(s)
    requires t.(ranges := s.ranges) == s && forall q: nat :: RangeAt(t, q).blocks == RangeAt(s, q).blocks
    ensures HeapInv(t) && ListInv(t) && FastInv(t) && (MapInv(s) ==> MapInv(t))
  {
    SameLive(s, t);
    assert HeapInv(t) by { hide ListInv, FastInv, RangeAt, WellFormed, InstrHash; }
    assert FastInv(t) by { hide ListInv, HeapInv, RangeAt, Live; }
    assert ListInv(t) by { hide FastInv, HeapInv, RangeAt, Live, Unique; }
    if MapInv(s) {
      assert forall num :: Registered(t, num) == Registered(s, num);
      assert MapInv(t) by { hide ListInv, FastInv, HeapInv, RangeAt, Live, Registered; }
    }
  }

  lemma ClearedKeeps(s: Index, r: nat)
    requires HeapInv(s) && ListInv(s) && MaskInv(s, None) && FastInv(s)
    ensures var t := s.(ranges := s.ranges[r := RangeAt(s, r).(code := {})]);
            Loop(t, r) && (MapInv(s) ==> MapInv(t)) && (forall x :: Live(t, x) == Live(s, x))
            && RangeAt(t, r).code == {}
  {
    var t := s.(ranges := s.ranges[r := RangeAt(s, r).(code := {})]);
    SameLive(s, t);
    assert forall q: nat :: RangeAt(t, q).blocks == RangeAt(s, q).blocks && (q != r ==> RangeAt(t, q) == RangeAt(s, q));
    assert RangeAt(t, r).code == {};
    hide Live, HeapInv, ListInv, FastInv, MapInv, Covers, RangeAt;
    SameBlocks(s, t);
  }

  lemma {:induction false} DropAllCode(s: Index, addr: nat)
    requires RangeAt(s, RangeOf(addr)).code == {}
    ensures RangeAt(DropAll(s, addr), RangeOf(addr)).code == {}
    decreases |RangeAt(s, RangeOf(addr)).blocks|
  {
    hide Evict, RangeAt;
    var blocks := RangeAt(s, RangeOf(addr)).blocks;
    if blocks != [] && blocks[0] in s.heap {
      var t := Evict(s, blocks[0], addr);
      EvictRange(s, blocks[0], addr, RangeOf(addr));
      if |RangeAt(t, RangeOf(addr)).blocks| < |blocks| {
        DropAllCode(t, addr);
      }
    }
  }

  /**
   * `InvalidateByAddr` keeps the index coherent, removes exactly the blocks with
   * code or literals in the 512-byte range, and leaves the range empty.
   */
  lemma InvalidateKeeps(s: Index, addr: nat, locate: (Cpu, nat) -> nat)
    requires Coherent(s, locate)
    ensures var t := InvalidateByAddr(s, addr);
            Coherent(t, locate) && Survivors(s, t, RangeOf(addr)) && RangeAt(t, RangeOf(addr)) == AddressRange([], {})
  {
    hide HeapInv, ListInv, FastInv, MapInv, RangeAt, Live, Covers, Retired;
    var r := RangeOf(addr);
    var u := s.(ranges := s.ranges[r := RangeAt(s, r).(code := {})]);
    ClearedKeeps(s, r);
    DropAllKeeps(u, addr);
    DropAllMaps(u, addr);
    DropAllCode(u, addr);
    var t := DropAll(u, addr);
    forall x: nat, q: nat, g: Granule | Live(t, x) && Covers(t.heap[x], q, g)
      ensures g in RangeAt(t, q).code
    {
      CoversRange(t.heap[x], q, g);
    }
  }

  /** No way of finding code reaches a block that satisfies `bad`. */
  ghost predicate Unreachable(s: Index, bad: Block -> bool) {
    && (forall num: Cpu, local: nat, a: nat :: LookUp(s, num, local, a).Some? ==>
          var id := LookUp(s, num, local, a).value; Live(s, id) && !bad(s.heap[id]))
    && (forall num: Cpu, a :: a in Registered(s, num) ==>
          Live(s, Registered(s, num)[a]) && !bad(s.heap[Registered(s, num)[a]]))
    && (forall q: nat, id: nat :: id in RangeAt(s, q).blocks ==> Live(s, id) && !bad(s.heap[id]))
  }

  lemma NoneLive(s: Index, locate: (Cpu, nat) -> nat, bad: Block -> bool)
    requires Coherent(s, locate) && forall id: nat :: Live(s, id) ==> !bad(s.heap[id])
    ensures Unreachable(s, bad)
  {
    hide HeapInv, MaskInv, LocateInv, Live, RangeAt;
  }

  /**
   * After a write has been reported, nothing leads to a block that covers the
   * written granule, and every block without code in the range is still there.
   */
  lemma WriteReported(s: Index, addr: nat, locate: (Cpu, nat) -> nat)
    requires Coherent(s, locate)
    ensures var t := CheckAndInvalidate(s, addr);
            && Coherent(t, locate)
            && Unreachable(t, (b: Block) => CoversAddress(b, addr))
            && (forall x :: Live(s, x) && RangeOf(addr) !in s.heap[x].ranges ==> Live(t, x) && t.heap[x] == s.heap[x])
  {
    hide HeapInv, ListInv, FastInv, MapInv, LocateInv, RangeAt, Live, Covers, InvalidateByAddr, Unreachable;
    var t := CheckAndInvalidate(s, addr);
    if GranuleOf(addr) in RangeAt(s, RangeOf(addr)).code {
      InvalidateKeeps(s, addr, locate);
    }
    forall id: nat | Live(t, id)
      ensures !CoversAddress(t.heap[id], addr)
    {
      if CoversAddress(t.heap[id], addr) {
        CoversRange(t.heap[id], RangeOf(addr), GranuleOf(addr));
        assert false;
      }
    }
    NoneLive(t, locate, (b: Block) => CoversAddress(b, addr));
  }

  // ---------------------------------------------------------------- compiling

  /** What scanning the code from a start address yields. */
  datatype Scan = Scan(
    code: seq<(nat, nat)>, literals: seq<(nat, nat)>, ranges: seq<nat>, masks: seq<set<Granule>>)

  function BlockOf(num: Cpu, start: nat, local: nat, scan: Scan): Block {
    Block(num, start, local, scan.code, scan.literals, scan.ranges, scan.masks)
  }

  /** The candidate check: same instruction values, start address, literal values and code masks. */
  predicate MayRestore(s: Index, start: nat, scan: Scan) {
    && Values(scan.code) in s.candidates && s.candidates[Values(scan.code)] in s.heap
    && var prev := s.heap[s.candidates[Values(scan.code)]];
    && prev.start == start && Values(prev.literals) == Values(scan.literals)
    && prev.ranges == scan.ranges && prev.masks == scan.masks
  }

  /** The block to run, restored or newly allocated, and the index without the candidate it replaces. */
  function Obtain(s: Index, num: Cpu, start: nat, local: nat, scan: Scan): (Index, Id) {
    var h := Values(scan.code);
    var rest := s.(candidates := s.candidates - {h});
    if MayRestore(s, start, scan) then (rest, s.candidates[h])
    else
      var heap := if h in s.candidates then s.heap - {s.candidates[h]} else s.heap;
      (rest.(heap := heap[s.next := BlockOf(num, start, local, scan)],
             next := s.next + 1),
       s.next)
  }

  function MaskOf(b: Block, q: nat): set<Granule> { set g: Granule | 0 <= g < 32 && Covers(b, q, g) }

  function Listed(s: Index, id: Id): map<nat, AddressRange>
    requires id in s.heap
  {
    var b := s.heap[id];
    map q | q in s.ranges.Keys + (set j | 0 <= j < |b.ranges| :: b.ranges[j]) ::
      if q in b.ranges then AddressRange(RangeAt(s, q).blocks + [id], RangeAt(s, q).code + MaskOf(b, q))
    else RangeAt(s, q)
  }

  /** Enter a block into the lists, the map of the running processor and the fast lookup table. */
  function Register(s: Index, num: Cpu, start: nat, local: nat, id: Id): Index
    requires id in s.heap
  {
    s.(ranges := Listed(s, id), fast := s.fast[local := Entry(start, num, id)],
       jit9 := if num == 0 then s.jit9[start := id] else s.jit9,
       jit7 := if num == 0 then s.jit7 else s.jit7[start := id])
  }

  function Compile(s: Index, num: Cpu, start: nat, local: nat, scan: Scan): Index {
    if start in Registered(s, num) then s.(fast := s.fast[local := Entry(start, num, Registered(s, num)[start])])
    else
      var (t, id) := Obtain(s, num, start, local, scan);
      Register(t, num, start, local, id)
  }

  /** The restored block was compiled for the other processor: the check above does not look. */
  predicate ForeignRestore(s: Index, num: Cpu, start: nat, scan: Scan) {
    && start !in Registered(s, num) && MayRestore(s, start, scan)
    && s.heap[s.candidates[Values(scan.code)]].num != num
  }

  lemma ObtainLive(s: Index, num: Cpu, start: nat, local: nat, scan: Scan)
    requires HeapInv(s) && WellFormed(BlockOf(num, start, local, scan))
    ensures var (t, id) := Obtain(s, num, start, local, scan);
            && HeapInv(t) && !Live(s, id)
            && (forall x :: Live(t, x) <==> Live(s, x) || x == id)
            && (forall x :: Live(s, x) ==> t.heap[x] == s.heap[x])
            && (MayRestore(s, start, scan) ==> t.heap[id] == s.heap[s.candidates[Values(scan.code)]])
            && (!MayRestore(s, start, scan) ==> t.heap[id] == BlockOf(num, start, local, scan))
            && t.ranges == s.ranges && t.fast == s.fast && t.jit9 == s.jit9 && t.jit7 == s.jit7
  {
    hide WellFormed;
    if MayRestore(s, start, scan) {
    } else {
      assert InstrHash(BlockOf(num, start, local, scan)) == Values(scan.code);
      assert s.next !in s.heap;
    }
  }

  // ---------------------------------------------------------------- registration keeps coherence

  /** u is s with the block `id` brought to life, mapped and entered as (num, start) at `local`. */
  ghost predicate AddedOutside(s: Index, u: Index, id: Id, num: Cpu, start: nat, local: nat) {
    && HeapInv(u) && !Live(s, id) && Live(u, id)
    && (forall x :: Live(u, x) <==> Live(s, x) || x == id)
    && (forall x :: Live(s, x) ==> u.heap[x] == s.heap[x])
    && (forall n: Cpu :: Registered(u, n) == if n == num then Registered(s, n)[start := id] else Registered(s, n))
    && u.fast == s.fast[local := Entry(start, num, id)]
  }

  lemma CompileAddsOutside(s: Index, num: Cpu, start: nat, local: nat, scan: Scan)
    requires HeapInv(s) && WellFormed(BlockOf(num, start, local, scan)) && start !in Registered(s, num)
    ensures AddedOutside(
              s, Compile(s, num, start, local, scan), Obtain(s, num, start, local, scan).1, num, start, local)
    ensures Compile(s, num, start, local, scan).heap == Obtain(s, num, start, local, scan).0.heap
  {
    ObtainLive(s, num, start, local, scan);
    hide HeapInv, Obtain, WellFormed, MayRestore, Listed;
    var (t, id) := Obtain(s, num, start, local, scan);
    var u := Register(t, num, start, local, id);
    SameLive(t, u);
    SameHeap(t, u);
    hide Live;
  }

  /** In u the block `id` heads the end of its lists, its granules in their masks. */
  ghost predicate AddedToLists(s: Index, u: Index, id: Id) {
    id in u.heap && forall q: nat :: RangeAt(u, q) == ListedAt(s, u.heap[id], id, q)
  }

  function ListedAt(s: Index, b: Block, id: Id, q: nat): AddressRange {
    if q in b.ranges then AddressRange(RangeAt(s, q).blocks + [id], RangeAt(s, q).code + MaskOf(b, q))
    else RangeAt(s, q)
  }

  ghost predicate Added(s: Index, u: Index, id: Id, num: Cpu, start: nat, local: nat) {
    AddedOutside(s, u, id, num, start, local) && AddedToLists(s, u, id)
  }

  lemma RegisterLists(s: Index, t: Index, num: Cpu, start: nat, local: nat, id: Id)
    requires id in t.heap && s.ranges == t.ranges
    ensures AddedToLists(s, Register(t, num, start, local, id), id)
  {
    hide MaskOf;
  }

  lemma CompileAdds(s: Index, num: Cpu, start: nat, local: nat, scan: Scan)
    requires HeapInv(s) && WellFormed(BlockOf(num, start, local, scan)) && start !in Registered(s, num)
    ensures var (u, id) := (Compile(s, num, start, local, scan), Obtain(s, num, start, local, scan).1);
            && Added(s, u, id, num, start, local)
            && u.heap[id] == if MayRestore(s, start, scan) then s.heap[s.candidates[Values(scan.code)]]
                             else BlockOf(num, start, local, scan)
  {
    ObtainLive(s, num, start, local, scan);
    CompileAddsOutside(s, num, start, local, scan);
    hide HeapInv, Live, Obtain, WellFormed, MayRestore, AddedToLists, AddedOutside, Registered, Listed;
    var t := Obtain(s, num, start, local, scan).0;
    var id := Obtain(s, num, start, local, scan).1;
    RegisterLists(s, t, num, start, local, id);
  }

  lemma SameHeap(s: Index, t: Index)
    requires HeapInv(s) && s.heap == t.heap && s.candidates == t.candidates && s.next == t.next
    ensures HeapInv(t)
  {
    hide WellFormed, InstrHash;
  }

  lemma AddedLists(s: Index, u: Index, id: Id, num: Cpu, start: nat, local: nat)
    requires ListInv(s) && Added(s, u, id, num, start, local)
    ensures ListInv(u)
  {
    hide HeapInv, Live, MaskOf, RangeAt, Registered;
  }

  lemma AddedMasks(s: Index, u: Index, id: Id, num: Cpu, start: nat, local: nat)
    requires MaskInv(s, None) && Added(s, u, id, num, start, local)
    ensures MaskInv(u, None)
  {
    hide HeapInv, Live, RangeAt;
  }

  lemma AddedFast(s: Index, u: Index, id: Id, num: Cpu, start: nat, local: nat)
    requires FastInv(s) && Added(s, u, id, num, start, local)
    requires u.heap[id].local == local && u.heap[id].start == start
    ensures FastInv(u)
  {
    hide HeapInv, Live, MaskOf, RangeAt, Registered;
  }

  lemma AddedMaps(s: Index, u: Index, id: Id, num: Cpu, start: nat, local: nat)
    requires FastInv(s) && MapInv(s) && Added(s, u, id, num, start, local) && start !in Registered(s, num)
    requires u.heap[id].num == num && u.heap[id].start == start
    ensures MapInv(u)
  {
    hide HeapInv, Live, AddedToLists, Registered;
  }
}
