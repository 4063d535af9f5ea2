/**
 * The JIT's block-local register allocator.
 *
 * The allocator emits loads and stores while it compiles; here the emitted code
 * takes effect at once on `memory` (the guest registers in the CPU structure)
 * and `native` (the host registers), so that the allocator's bookkeeping can be
 * compared with a plain guest register file.  Register bit masks are sets.
 */
module RegisterCache {
  import opened Basics

  type Reg = r: int | 0 <= r < 16

  type RegFile = f: seq<int> | |f| == 16 witness seq(16, _ => 0)

  const PC: Reg := 15

  /**
   * One fetched instruction.  `sem` is its effect on the registers and on the
   * rest of the machine; `literal` is the constant it leaves in a register, if
   * the compiler records one.
   */
  datatype Instr<!M> = Instr(
    src: set<Reg>, dst: set<Reg>, notStrictlyNeeded: set<Reg>, unconditional: bool, compilable: bool,
    sem: (RegFile, M) -> (RegFile, M), literal: Option<(Reg, int)>)

  predicate AgreeOn(f: RegFile, g: RegFile, regs: set<Reg>) {
    forall r <- regs :: r != PC ==> f[r] == g[r]
  }

  predicate SameBut(f: RegFile, g: RegFile, except: set<Reg>) {
    forall r: Reg :: r != PC && r !in except ==> f[r] == g[r]
  }

  /** Registers whose old value the instruction may observe; a skipped instruction keeps its destinations. */
  function Observed<M>(instr: Instr<M>): set<Reg> {
    if instr.unconditional then instr.src else instr.src + instr.dst
  }

  /**
   * What decoding guarantees: loads and stores of register lists mark list
   * registers as not strictly needed but still as sources or destinations, the
   * instruction changes its destinations only, and its effect is a function of
   * the registers it observes.  In particular an unconditional instruction
   * overwrites every destination that is not a source.
   */
  ghost predicate WellFormed<M(!new)>(instr: Instr<M>) {
    && instr.notStrictlyNeeded <= instr.src + instr.dst
    && PC !in instr.notStrictlyNeeded
    && (forall f: RegFile, g: RegFile, m: M :: AgreeOn(f, g, Observed(instr)) ==>
          AgreeOn(instr.sem(f, m).0, instr.sem(g, m).0, instr.dst) && instr.sem(f, m).1 == instr.sem(g, m).1)
    && (forall f: RegFile, m: M :: SameBut(instr.sem(f, m).0, f, instr.dst))
    && (instr.literal.Some? ==>
          instr.unconditional && instr.literal.value.0 in instr.dst && instr.literal.value.0 != PC
          && forall f: RegFile, m: M :: instr.sem(f, m).0[instr.literal.value.0] == instr.literal.value.1)
  }

  /** Registers that must sit in host registers while instruction i executes. */
  function Necessary<M>(instr: Instr<M>, pcAllocatableAsSrc: bool): set<Reg> {
    ((if pcAllocatableAsSrc then instr.src else instr.src - {PC}) + instr.dst) - instr.notStrictlyNeeded
  }

  function NeededBy<M>(instr: Instr<M>): set<Reg> { (instr.src - {PC}) + instr.dst }

  /** Registers used by instruction i or a later one. */
  function FutureNeeded<M>(instrs: seq<Instr<M>>, i: nat): set<Reg>
    requires i <= |instrs|
    decreases |instrs| - i
  {
    if i == |instrs| then {} else NeededBy(instrs[i]) + FutureNeeded(instrs, i + 1)
  }

  /** How many instructions from i on strictly need register r. */
  function Uses<M>(instrs: seq<Instr<M>>, i: nat, r: Reg): (n: nat)
    requires i <= |instrs|
    ensures n <= |instrs| - i
    decreases |instrs| - i
  {
    if i == |instrs| then 0
    else (if r in NeededBy(instrs[i]) - instrs[i].notStrictlyNeeded then 1 else 0) + Uses(instrs, i + 1, r)
  }

  /** The plain guest machine: n instructions of the block from registers f and the rest m. */
  function GuestRun<M>(instrs: seq<Instr<M>>, n: nat, f: RegFile, m: M): (RegFile, M)
    requires n <= |instrs|
  {
    if n == 0 then (f, m)
    else
      var (g, k) := GuestRun(instrs, n - 1, f, m);
      instrs[n - 1].sem(g, k)
  }

  lemma {:induction false} UsesExtend<M>(instrs: seq<Instr<M>>, i: nat, j: nat, r: Reg)
    requires i <= j < |instrs|
    ensures Uses(instrs[..j + 1], i, r)
            == Uses(instrs[..j], i, r) + if r in NeededBy(instrs[j]) - instrs[j].notStrictlyNeeded then 1 else 0
    decreases j - i
  {
    if i < j {
      UsesExtend(instrs, i + 1, j, r);
    }
  }

  lemma {:induction false} FutureExtend<M>(instrs: seq<Instr<M>>, i: nat, j: nat)
    requires i <= j < |instrs|
    ensures FutureNeeded(instrs[..j + 1], i) == FutureNeeded(instrs[..j], i) + NeededBy(instrs[j])
    decreases j - i
  {
    if i < j {
      FutureExtend(instrs, i + 1, j);
    }
  }

  /** Instruction j strictly needs r: as a source other than the program counter, or as a destination. */
  predicate StrictlyNeeds<M>(instr: Instr<M>, r: Reg) {
    ((r in instr.src && r != PC) || r in instr.dst) && r !in instr.notStrictlyNeeded
  }

  /** The instructions from i on that strictly need r. */
  function Users<M>(instrs: seq<Instr<M>>, i: nat, r: Reg): set<nat> {
    set j | i <= j < |instrs| && StrictlyNeeds(instrs[j], r)
  }

  /** A register's rank is how many of the instructions still to come strictly need it. */
  lemma {:induction false} UsesCounts<M>(instrs: seq<Instr<M>>, i: nat, r: Reg)
    requires i <= |instrs|
    ensures Uses(instrs, i, r) == |Users(instrs, i, r)|
    decreases |instrs| - i
  {
    if i < |instrs| {
      UsesCounts(instrs, i + 1, r);
      if StrictlyNeeds(instrs[i], r) {
        assert Users(instrs, i, r) == {i} + Users(instrs, i + 1, r);
      } else {
        assert Users(instrs, i, r) == Users(instrs, i + 1, r);
      }
    } else {
      assert Users(instrs, i, r) == {};
    }
  }

  /** A register is needed in future if some instruction still to come reads or writes it. */
  lemma {:induction false} FutureMeans<M>(instrs: seq<Instr<M>>, i: nat, r: Reg)
    requires i <= |instrs|
    ensures r in FutureNeeded(instrs, i)
            <==> exists j :: i <= j < |instrs| && ((r in instrs[j].src && r != PC) || r in instrs[j].dst)
    decreases |instrs| - i
  {
    if i < |instrs| {
      FutureMeans(instrs, i + 1, r);
    }
  }

  /** What has to be loaded: sources and destinations but the optional ones, and the counter only if it can be. */
  lemma NecessaryMeans<M>(instr: Instr<M>, pcAllocatableAsSrc: bool, r: Reg)
    ensures r in Necessary(instr, pcAllocatableAsSrc)
            <==> ((r in instr.src && (r != PC || pcAllocatableAsSrc)) || r in instr.dst)
                 && r !in instr.notStrictlyNeeded
  {
  }

  // ---------------------------------------------------------------- the allocator's state as a value

  type HostReg = h: int | 0 <= h < 64

  type HostFile = f: seq<int> | |f| == 64 witness seq(64, _ => 0)

  predicate Distinct(s: seq<HostReg>) {
    forall i, j :: 0 <= i < j < |s| ==> s[i] != s[j]
  }

  /** Entry -1 of `mapping` means that the guest register is not loaded. */
  type Entry = h: int | -1 <= h < 64

  type Mapping = m: seq<Entry> | |m| == 16 witness seq(16, _ => -1)

  datatype Cache = Cache(
    mapping: Mapping, loaded: set<Reg>, dirty: set<Reg>, used: set<HostReg>, memory: RegFile, native: HostFile)

  /** `mapping` is an injection from the loaded registers onto the host registers in use. */
  ghost predicate Shape(c: Cache, order: seq<HostReg>) {
    && (forall r: Reg :: r in c.loaded <==> c.mapping[r] != -1)
    && (forall r <- c.loaded :: c.mapping[r] in order)
    && (forall r <- c.loaded, q <- c.loaded :: r != q ==> c.mapping[r] != c.mapping[q])
    && (forall r <- c.loaded :: c.mapping[r] in c.used)
    && |c.loaded| == |c.used|
    && c.dirty <= c.loaded && PC !in c.dirty
  }

  /** A loaded, clean register outside `except` has the same value in both places. */
  ghost predicate Clean(c: Cache, except: set<Reg>) {
    forall r <- c.loaded :: r !in c.dirty && r != PC && r !in except ==> View(c)[r] == c.memory[r]
  }

  /** Where the current value of a guest register is: its host register if loaded, else memory. */
  function View(c: Cache): RegFile {
    seq(16, r requires 0 <= r < 16 => if c.mapping[r] != -1 then c.native[c.mapping[r]] else c.memory[r])
  }

  function Unloaded(c: Cache, reg: Reg): Cache
    requires c.mapping[reg] != -1
  {
    Cache(c.mapping[reg := -1], c.loaded - {reg}, c.dirty - {reg}, c.used - {c.mapping[reg]},
          if reg in c.dirty then c.memory[reg := c.native[c.mapping[reg]]] else c.memory, c.native)
  }

  /** The first host register of the allocation order that is not in use. */
  function FirstFree(order: seq<HostReg>, used: set<HostReg>): Option<HostReg> {
    if order == [] then None
    else if order[0] !in used then Some(order[0])
    else FirstFree(order[1..], used)
  }

  function Loaded(c: Cache, reg: Reg, host: HostReg, loadValue: bool): Cache {
    Cache(c.mapping[reg := host], c.loaded + {reg}, c.dirty, c.used + {host}, c.memory,
          if loadValue then c.native[host := c.memory[reg]] else c.native)
  }

  lemma {:induction false} FirstFreeExists(order: seq<HostReg>, used: set<HostReg>)
    requires Distinct(order) && |used| < |order|
    ensures FirstFree(order, used).Some?
    ensures FirstFree(order, used).value in order && FirstFree(order, used).value !in used
  {
    if order[0] in used {
      var rest := used - {order[0]};
      FirstFreeExists(order[1..], rest);
      FirstFreeSame(order[1..], used, rest);
    }
  }

  /** The host register that is taken is the first one in the order that is free. */
  lemma {:induction false} FirstFreeIsFirst(order: seq<HostReg>, used: set<HostReg>, k: nat)
    requires k < |order| && order[k] !in used && forall j :: 0 <= j < k ==> order[j] in used
    ensures FirstFree(order, used) == Some(order[k])
  {
    if k > 0 {
      FirstFreeIsFirst(order[1..], used, k - 1);
    }
  }

  lemma {:induction false} FirstFreeSame(order: seq<HostReg>, used: set<HostReg>, rest: set<HostReg>)
    requires forall h <- order :: h in used <==> h in rest
    ensures FirstFree(order, used) == FirstFree(order, rest)
  {
    if order != [] {
      FirstFreeSame(order[1..], used, rest);
    }
  }

  lemma UnloadKeeps(c: Cache, order: seq<HostReg>, reg: Reg)
    requires Shape(c, order) && reg in c.loaded
    ensures Shape(Unloaded(c, reg), order)
  {
  }

  /** Unloading a register that is dirty or clean (or the program counter) changes no register's value. */
  lemma UnloadKeepsView(c: Cache, order: seq<HostReg>, reg: Reg, except: set<Reg>)
    requires Shape(c, order) && reg in c.loaded && Clean(c, except) && reg !in except
    ensures c.mapping[reg] != -1
    ensures Shape(Unloaded(c, reg), order) && Clean(Unloaded(c, reg), except)
    ensures SameBut(View(Unloaded(c, reg)), View(c), {})
  {
    UnloadKeeps(c, order, reg);
  }

  lemma {:induction false} SubsetCard<T>(a: set<T>, b: set<T>)
    requires a <= b
    ensures |a| <= |b| && (a != b ==> |a| < |b|)
  {
    if a != {} {
      var x :| x in a;
      SubsetCard(a - {x}, b - {x});
    }
  }

  /** If nothing but necessary registers is loaded, the necessary ones still to load fit. */
  lemma RoomForNecessary(loaded: set<Reg>, before: set<Reg>, necessary: set<Reg>)
    requires loaded <= necessary && loaded <= before
    ensures |loaded| + |necessary - before| <= |necessary|
  {
    assert |loaded + (necessary - before)| == |loaded| + |necessary - before|;
    SubsetCard(loaded + (necessary - before), necessary);
  }

  function Image(mapping: Mapping, regs: set<Reg>): set<int> { set r | r in regs :: mapping[r] }

  lemma {:induction false} ImageCard(mapping: Mapping, regs: set<Reg>)
    requires forall r <- regs, q <- regs :: r != q ==> mapping[r] != mapping[q]
    ensures |Image(mapping, regs)| == |regs|
  {
    if regs != {} {
      var r :| r in regs;
      ImageCard(mapping, regs - {r});
      assert Image(mapping, regs) == Image(mapping, regs - {r}) + {mapping[r]};
    }
  }

  /** The host registers in use are exactly those that some guest register is mapped to. */
  lemma UsedIsImage(c: Cache, order: seq<HostReg>)
    requires Shape(c, order)
    ensures Image(c.mapping, c.loaded) == c.used
  {
    ImageCard(c.mapping, c.loaded);
    SubsetCard(Image(c.mapping, c.loaded), c.used);
  }

  lemma {:induction false} ElementsCard(order: seq<HostReg>, hosts: set<int>)
    requires forall h <- hosts :: h in order
    ensures |hosts| <= |order|
  {
    if order != [] {
      var rest := hosts - {order[0]};
      ElementsCard(order[1..], rest);
      SubsetCard(hosts, rest + {order[0]});
    } else {
      assert forall h <- hosts :: h in order;
    }
  }

  /**
   * No allocator can do better: what is loaded at once never exceeds the host
   * registers, so an instruction that strictly needs more cannot be prepared.
   */
  lemma NecessaryMustFit(c: Cache, order: seq<HostReg>, necessary: set<Reg>)
    requires Shape(c, order) && necessary <= c.loaded
    ensures |necessary| <= |order|
  {
    SubsetCard(necessary, c.loaded);
    ImageCard(c.mapping, c.loaded);
    ElementsCard(order, Image(c.mapping, c.loaded));
  }

  lemma CleanWeaken(c: Cache, order: seq<HostReg>, except: set<Reg>, more: set<Reg>)
    requires Shape(c, order) && Clean(c, except) && except <= more
    ensures Clean(c, more)
  {
  }

  /** Marking every unfetched destination dirty makes the allocation consistent again. */
  lemma DirtyAbsorbs(c: Cache, d: Cache, order: seq<HostReg>, except: set<Reg>)
    requires Shape(c, order) && Clean(c, except)
    requires c.(dirty := d.dirty) == d && c.dirty + c.loaded * except - {PC} <= d.dirty <= c.loaded - {PC}
    ensures Shape(d, order) && Clean(d, {}) && View(d) == View(c)
  {
  }

  lemma DirtyLoaded(c: Cache, order: seq<HostReg>)
    requires Shape(c, order)
    ensures c.dirty <= c.loaded - {PC}
  {
  }

  /** A result goes to the host register if there is one, else to memory. */
  function Written(c: Cache, reg: Reg, value: int): Cache {
    if c.mapping[reg] != -1 then c.(native := c.native[c.mapping[reg] := value])
    else c.(memory := c.memory[reg := value])
  }

  lemma WriteKeeps(c: Cache, order: seq<HostReg>, reg: Reg, value: int)
    requires Shape(c, order) && Clean(c, {}) && (reg in c.loaded ==> reg in c.dirty)
    ensures Shape(Written(c, reg, value), order) && Clean(Written(c, reg, value), {})
    ensures View(Written(c, reg, value)) == View(c)[reg := value]
  {
  }

  /** f with the registers below k of `dst` taken from g. */
  function Merge(f: RegFile, g: RegFile, dst: set<Reg>, k: nat): RegFile {
    seq(16, r requires 0 <= r < 16 => if r in dst && r != PC && r < k then g[r] else f[r])
  }

  /** Unfetched destinations make no difference to what the instruction does. */
  lemma SemAgrees<M(!new)>(instr: Instr<M>, f: RegFile, g: RegFile, m: M)
    requires WellFormed(instr) && SameBut(f, g, Unfetched(instr))
    ensures SameBut(instr.sem(f, m).0, instr.sem(g, m).0, {}) && instr.sem(f, m).1 == instr.sem(g, m).1
  {
    assert AgreeOn(f, g, Observed(instr));
    assert AgreeOn(instr.sem(f, m).0, instr.sem(g, m).0, instr.dst);
    assert SameBut(instr.sem(f, m).0, f, instr.dst) && SameBut(instr.sem(g, m).0, g, instr.dst);
  }

  lemma SameReflexive(f: RegFile)
    ensures SameBut(f, f, {})
  {
  }

  lemma SameTransitive(f: RegFile, g: RegFile, h: RegFile, first: set<Reg>, second: set<Reg>, except: set<Reg>)
    requires SameBut(f, g, first) && SameBut(g, h, second) && first <= except && second <= except
    ensures SameBut(f, h, except)
  {
  }

  lemma LoadKeeps(c: Cache, order: seq<HostReg>, reg: Reg, host: HostReg, loadValue: bool)
    requires Shape(c, order) && reg !in c.loaded && host in order && host !in c.used
    ensures Shape(Loaded(c, reg, host, loadValue), order)
  {
    var t := Loaded(c, reg, host, loadValue);
    LoadedFields(c, reg, host, loadValue);
    hide Loaded;
    forall r | r in c.loaded
      ensures c.mapping[r] != host
    {
      assert c.mapping[r] in c.used;
    }
  }

  lemma LoadedFields(c: Cache, reg: Reg, host: HostReg, loadValue: bool)
    requires reg !in c.loaded && host !in c.used
    ensures var t := Loaded(c, reg, host, loadValue);
            && (forall r: Reg :: t.mapping[r] == if r == reg then host else c.mapping[r])
            && t.loaded == c.loaded + {reg} && |t.loaded| == |c.loaded| + 1
            && t.used == c.used + {host} && |t.used| == |c.used| + 1 && t.dirty == c.dirty
  {
  }

  lemma LoadKeepsView(c: Cache, order: seq<HostReg>, reg: Reg, host: HostReg, loadValue: bool, except: set<Reg>)
    requires Shape(c, order) && reg !in c.loaded && host in order && host !in c.used && Clean(c, except)
    ensures Shape(Loaded(c, reg, host, loadValue), order)
    ensures Clean(Loaded(c, reg, host, loadValue), if loadValue then except else except + {reg})
    ensures SameBut(View(Loaded(c, reg, host, loadValue)), View(c), if loadValue then {} else {reg})
  {
    LoadKeeps(c, order, reg, host, loadValue);
  }

  // ---------------------------------------------------------------- the allocator

  /** Freshly allocated destinations whose old value was not fetched. */
  function Unfetched<M>(instr: Instr<M>): set<Reg> {
    if instr.unconditional then instr.dst - instr.src else {}
  }

  class RegisterCache<M(!new)> {
    const instrs: seq<Instr<M>>
    const allocOrder: seq<HostReg>
    const pcAllocatableAsSrc: bool

    const mapping: array<Entry>
    var loaded: set<Reg>
    var dirty: set<Reg>
    var used: set<HostReg>
    var literals: map<Reg, int>

    // the machine that the emitted code runs on
    var memory: RegFile
    var native: HostFile
    var rest: M

    constructor (
      instrs: seq<Instr<M>>, allocOrder: seq<HostReg>, pcAllocatableAsSrc: bool,
      memory: RegFile, native: HostFile, rest: M)
      requires Distinct(allocOrder)
      ensures this.instrs == instrs && this.allocOrder == allocOrder && this.pcAllocatableAsSrc == pcAllocatableAsSrc
      ensures Valid() && View(State()) == memory && this.rest == rest && literals == map[] && fresh(mapping)
    {
      this.instrs, this.allocOrder, this.pcAllocatableAsSrc := instrs, allocOrder, pcAllocatableAsSrc;
      mapping := new Entry[16](_ => -1);
      loaded, dirty, used, literals := {}, {}, {}, map[];
      this.memory, this.native, this.rest := memory, native, rest;
    }

    function State(): Cache
      requires mapping.Length == 16
      reads this, mapping
    {
      Cache(mapping[..], loaded, dirty, used, memory, native)
    }

    ghost predicate Valid()
      reads this, mapping
    {
      && mapping.Length == 16
      && Distinct(allocOrder)
      && Shape(State(), allocOrder)
      && Clean(State(), {})
      && |loaded| <= |allocOrder|
    }

    /** Write a dirty register back and free its host register. */
    method UnloadRegister(reg: Reg)
      requires mapping.Length == 16 && mapping[reg] != -1
      modifies this`memory, this`dirty, this`loaded, this`used, mapping
      ensures State() == Unloaded(old(State()), reg)
    {
      if reg in dirty {
        memory := memory[reg := native[mapping[reg]]];
      }
      dirty := dirty - {reg};
      loaded := loaded - {reg};
      used := used - {mapping[reg]};
      mapping[reg] := -1;
    }

    /** Take the first free host register for `reg`; `loadValue` says whether to fill it. */
    method LoadRegister(reg: Reg, loadValue: bool)
      requires mapping.Length == 16 && FirstFree(allocOrder, used).Some?
      modifies this`native, this`loaded, this`used, mapping
      ensures State() == Loaded(old(State()), reg, FirstFree(allocOrder, old(used)).value, loadValue)
    {
      for i := 0 to |allocOrder|
        invariant State() == old(State())
        invariant FirstFree(allocOrder, used) == FirstFree(allocOrder[i..], used)
      {
        var nativeReg := allocOrder[i];
        if nativeReg !in used {
          mapping[reg] := nativeReg;
          used := used + {nativeReg};
          loaded := loaded + {reg};
          if loadValue {
            native := native[nativeReg := memory[reg]];
          }
          return;
        }
      }
    }

    /** Save what is dirty without changing the allocation: the code of an early exit. */
    method PrepareExit()
      requires Valid()
      modifies this`memory
      ensures Valid() && SameBut(memory, old(View(State())), {}) && View(State()) == old(View(State()))
    {
      for k := 0 to 16
        invariant forall r: Reg :: r !in dirty || r >= k ==> memory[r] == old(memory)[r]
        invariant forall r: Reg :: r in dirty && r < k ==> memory[r] == native[mapping[r]]
      {
        var reg: Reg := k;
        if reg in dirty {
          memory := memory[reg := native[mapping[reg]]];
        }
      }
    }

    /** Unload everything: afterwards memory alone holds the guest registers. */
    method Flush()
      requires Valid()
      modifies this`memory, this`dirty, this`loaded, this`used, this`literals, mapping
      ensures Valid() && loaded == {} && literals == map[]
      ensures SameBut(memory, old(View(State())), {}) && SameBut(View(State()), old(View(State())), {})
    {
      UnloadAll(loaded);
      literals := map[];
    }

    method UnloadAll(regs: set<Reg>)
      requires Valid() && regs <= loaded
      modifies this`memory, this`dirty, this`loaded, this`used, mapping
      ensures Valid() && loaded == old(loaded) - regs
      ensures SameBut(View(State()), old(View(State())), {})
    {
      hide View, Clean, SameBut, Shape;
      ghost var c0 := State();
      assert SameBut(View(c0), View(c0), {}) by { SameReflexive(View(c0)); }
      for k := 0 to 16
        invariant Valid()
        invariant forall r: Reg :: r in loaded <==> r in c0.loaded && !(r in regs && r < k)
        invariant SameBut(View(State()), View(c0), {})
      {
        var reg: Reg := k;
        if reg in regs {
          ghost var c := State();
          UnloadKeepsView(c, allocOrder, reg, {});
          UnloadRegister(reg);
          SameTransitive(View(State()), View(c), View(c0), {}, {}, {});
        }
      }
      assert loaded == c0.loaded - regs;
    }

    // -------------------------------------------------------------- preparing one instruction

    method RankRegisters(i: nat) returns (futureNeeded: set<Reg>, ranking: seq<nat>)
      requires i <= |instrs|
      ensures futureNeeded == FutureNeeded(instrs, i)
      ensures |ranking| == 16 && forall r: Reg :: ranking[r] == Uses(instrs, i, r)
    {
      futureNeeded := {};
      ranking := seq(16, _ => 0);
      for j := i to |instrs|
        invariant futureNeeded == FutureNeeded(instrs[..j], i)
        invariant |ranking| == 16 && forall r: Reg :: ranking[r] == Uses(instrs[..j], i, r)
      {
        FutureExtend(instrs, i, j);
        forall r: Reg {
          UsesExtend(instrs, i, j, r);
        }
        var regsNeeded := (instrs[j].src - {PC}) + instrs[j].dst;
        futureNeeded := futureNeeded + regsNeeded;
        regsNeeded := regsNeeded - instrs[j].notStrictlyNeeded;
        ranking := seq(16, r requires 0 <= r < 16 => if r in regsNeeded then ranking[r] + 1 else ranking[r]);
      }
      assert instrs[..|instrs|] == instrs;
    }

    /** The loaded register that is used least, lowest number first, among those not needed now. */
    method PickVictim(necessary: set<Reg>, ranking: seq<nat>) returns (victim: Reg)
      requires |ranking| == 16 && exists r :: r in loaded - necessary
      requires forall r: Reg :: ranking[r] < 1000
      ensures victim in loaded - necessary
      ensures forall r <- loaded - necessary ::
                ranking[victim] < ranking[r] || (ranking[victim] == ranking[r] && victim <= r)
    {
      var leastReg, rank := -1, 1000;
      for k := 0 to 16
        invariant leastReg == -1 ==> rank == 1000 && forall r <- loaded - necessary :: r >= k
        invariant leastReg != -1 ==>
                    0 <= leastReg < k && leastReg in loaded - necessary && rank == ranking[leastReg]
                    && forall r <- loaded - necessary :: r < k ==>
                         rank < ranking[r] || (rank == ranking[r] && leastReg <= r)
      {
        var reg: Reg := k;
        if reg in loaded && reg !in necessary && ranking[reg] < rank {
          leastReg, rank := reg, ranking[reg];
        }
      }
      victim := leastReg;
    }

    /** Evict registers until `needed` more fit beside those that are loaded. */
    method MakeRoom(necessary: set<Reg>, needed: nat, ranking: seq<nat>)
      requires Valid() && |ranking| == 16 && forall r: Reg :: ranking[r] < 1000
      requires |necessary| <= |allocOrder| && needed == |necessary - loaded|
      modifies this`memory, this`dirty, this`loaded, this`used, mapping
      ensures Valid() && loaded <= old(loaded) && forall r <- necessary :: r in old(loaded) ==> r in loaded
      ensures |loaded| + needed <= |allocOrder|
      ensures SameBut(View(State()), old(View(State())), {})
    {
      hide View, Clean, SameBut, Shape;
      ghost var c0 := State();
      SameReflexive(View(c0));
      while |loaded| + needed > |allocOrder|
        invariant Valid() && loaded <= c0.loaded && forall r <- necessary :: r in c0.loaded ==> r in loaded
        invariant SameBut(View(State()), View(c0), {})
      {
        if loaded <= necessary {
          RoomForNecessary(loaded, c0.loaded, necessary);
          assert false;
        }
        ghost var r :| r in loaded && r !in necessary;
        assert r in loaded - necessary;
        var leastReg := PickVictim(necessary, ranking);
        ghost var c := State();
        UnloadKeepsView(c, allocOrder, leastReg, {});
        UnloadRegister(leastReg);
        SameTransitive(View(State()), View(c), View(c0), {}, {}, {});
      }
    }

    /** Load every register of `regs`, fetching only the values in `fetched`. */
    method LoadAll(regs: set<Reg>, fetched: set<Reg>)
      requires mapping.Length == 16 && Distinct(allocOrder) && Shape(State(), allocOrder) && Clean(State(), {})
      requires regs !! loaded && |loaded| + |regs| <= |allocOrder|
      modifies this`native, this`loaded, this`used, mapping
      ensures Shape(State(), allocOrder) && Clean(State(), regs - fetched) && loaded == old(loaded) + regs
      ensures SameBut(View(State()), old(View(State())), regs - fetched)
    {
      hide View, Clean, SameBut;
      ghost var c0, except := State(), regs - fetched;
      CleanWeaken(c0, allocOrder, {}, except);
      SameReflexive(View(c0));
      SameTransitive(View(c0), View(c0), View(c0), {}, {}, except);
      assert |c0.loaded + regs| == |c0.loaded| + |regs|;
      for k := 0 to 16
        invariant Shape(State(), allocOrder) && Clean(State(), except)
        invariant dirty == c0.dirty
        invariant forall r: Reg :: r in loaded <==> r in c0.loaded || (r in regs && r < k)
        invariant SameBut(View(State()), View(c0), except)
      {
        var reg: Reg := k;
        if reg in regs {
          SubsetCard(loaded, c0.loaded + regs);
          LoadOne(reg, reg in fetched, except, c0);
        }
      }
      assert loaded == c0.loaded + regs;
    }

    /** One load on behalf of the loops above and below. */
    method LoadOne(reg: Reg, loadValue: bool, ghost except: set<Reg>, ghost c0: Cache)
      requires mapping.Length == 16 && Distinct(allocOrder) && Shape(State(), allocOrder) && Clean(State(), except)
      requires reg !in loaded && |loaded| < |allocOrder| && (!loadValue ==> reg in except)
      requires SameBut(View(State()), View(c0), except)
      modifies this`native, this`loaded, this`used, mapping
      ensures Shape(State(), allocOrder) && Clean(State(), except) && loaded == old(loaded) + {reg}
      ensures SameBut(View(State()), View(c0), except)
    {
      hide View, Clean, SameBut;
      ghost var c := State();
      FirstFreeExists(allocOrder, used);
      ghost var host := FirstFree(allocOrder, used).value;
      LoadKeepsView(c, allocOrder, reg, host, loadValue, except);
      LoadRegister(reg, loadValue);
      assert !loadValue ==> except + {reg} == except;
      SameTransitive(View(State()), View(c), View(c0), if loadValue then {} else {reg}, except, except);
    }

    /** Load as many of `regs` as there are host registers left, lowest number first. */
    method LoadOptional(regs: set<Reg>, fetched: set<Reg>, ghost except: set<Reg>)
      requires mapping.Length == 16 && Distinct(allocOrder) && Shape(State(), allocOrder) && Clean(State(), except)
      requires regs !! loaded && |loaded| <= |allocOrder| && regs - fetched <= except
      modifies this`native, this`loaded, this`used, mapping
      ensures Shape(State(), allocOrder) && Clean(State(), except) && |loaded| <= |allocOrder|
      ensures old(loaded) <= loaded <= old(loaded) + regs
      ensures SameBut(View(State()), old(View(State())), except)
    {
      hide View, Clean, SameBut, Shape;
      ghost var c0 := State();
      SameReflexive(View(c0));
      SameTransitive(View(c0), View(c0), View(c0), {}, {}, except);
      var left := |allocOrder| - |loaded|;
      for k := 0 to 16
        invariant Shape(State(), allocOrder) && Clean(State(), except) && 0 <= left == |allocOrder| - |loaded|
        invariant forall r: Reg :: r in c0.loaded ==> r in loaded
        invariant forall r: Reg :: r in loaded ==> r in c0.loaded || (r in regs && r < k)
        invariant SameBut(View(State()), View(c0), except)
      {
        var reg: Reg := k;
        if reg in regs {
          if left == 0 {
            break;
          }
          left := left - 1;
          LoadOne(reg, reg in fetched, except, c0);
        }
      }
    }

    method DropCounter()
      requires Valid()
      modifies this`memory, this`dirty, this`loaded, this`used, mapping
      ensures Valid() && PC !in loaded && SameBut(View(State()), old(View(State())), {})
    {
      hide View, Clean, SameBut;
      SameReflexive(View(State()));
      if PC in loaded {
        UnloadKeepsView(State(), allocOrder, PC, {});
        UnloadRegister(PC);
      }
    }

    /** The first part of `Prepare`: drop the program counter and what is never used again. */
    method DropUnneeded(i: nat) returns (futureNeeded: set<Reg>, ranking: seq<nat>)
      requires Valid() && i < |instrs|
      modifies this`memory, this`dirty, this`loaded, this`used, this`literals, mapping
      ensures Valid() && PC !in loaded && loaded <= futureNeeded == FutureNeeded(instrs, i)
      ensures |ranking| == 16 && forall r: Reg :: ranking[r] == Uses(instrs, i, r)
      ensures SameBut(View(State()), old(View(State())), {})
      ensures literals == old(literals) - instrs[i].dst
    {
      hide View, Clean, SameBut, Shape, FutureNeeded, Uses;
      ghost var c0 := State();
      DropCounter();
      ghost var c1 := State();
      literals := literals - instrs[i].dst;
      futureNeeded, ranking := RankRegisters(i);
      UnloadAll(loaded - futureNeeded);
      SameTransitive(View(State()), View(c1), View(c0), {}, {}, {});
    }

    /** The second part of `Prepare`: make room for what instruction i strictly needs. */
    method EvictFor(i: nat, ranking: seq<nat>)
      requires Valid() && i < |instrs| && |ranking| == 16 && forall r: Reg :: ranking[r] < 1000
      requires |Necessary(instrs[i], pcAllocatableAsSrc)| <= |allocOrder|
      modifies this`memory, this`dirty, this`loaded, this`used, mapping
      ensures Valid() && loaded <= old(loaded)
      ensures |loaded| + |Necessary(instrs[i], pcAllocatableAsSrc) - loaded| <= |allocOrder|
      ensures SameBut(View(State()), old(View(State())), {})
    {
      hide View, Clean, SameBut, Shape, Necessary;
      SameReflexive(View(State()));
      var necessary := Necessary(instrs[i], pcAllocatableAsSrc);
      var needToBeLoaded := necessary - loaded;
      if needToBeLoaded != {} {
        MakeRoom(necessary, |needToBeLoaded|, ranking);
        assert necessary - loaded == needToBeLoaded;
      }
    }

    /** The last part of `Prepare`: load what instruction i needs and mark what it writes. */
    method FillFor(i: nat, futureNeeded: set<Reg>)
      requires Valid() && i < |instrs| && WellFormed(instrs[i])
      requires |loaded| + |Necessary(instrs[i], pcAllocatableAsSrc) - loaded| <= |allocOrder|
      modifies this`native, this`dirty, this`loaded, this`used, mapping
      ensures Valid() && old(loaded) + Necessary(instrs[i], pcAllocatableAsSrc) <= loaded
      ensures loaded <= old(loaded) + Necessary(instrs[i], pcAllocatableAsSrc)
              + (instrs[i].notStrictlyNeeded * futureNeeded)
      ensures loaded * instrs[i].dst <= dirty + {PC}
      ensures SameBut(View(State()), old(View(State())), Unfetched(instrs[i]))
    {
      hide View, Clean, SameBut, Shape;
      ghost var c0 := State();
      var instr := instrs[i];
      var needToBeLoaded := Necessary(instr, pcAllocatableAsSrc) - loaded;
      var needValueLoaded := if instr.unconditional then instr.src else needToBeLoaded;
      LoadAll(needToBeLoaded, needValueLoaded);
      ghost var c1, except := State(), Unfetched(instr);
      assert needToBeLoaded - needValueLoaded <= except;
      CleanWeaken(c1, allocOrder, needToBeLoaded - needValueLoaded, except);
      var loadRegs := instr.notStrictlyNeeded * futureNeeded - loaded;
      LoadOptional(loadRegs, if instr.unconditional then instr.src else loadRegs, except);
      ghost var c2 := State();
      SameTransitive(View(c2), View(c1), View(c0), except, needToBeLoaded - needValueLoaded, except);
      dirty := dirty + loaded * instr.dst - {PC};
      DirtyLoaded(c2, allocOrder);
      DirtyAbsorbs(c2, State(), allocOrder, except);
    }

    /**
     * `Prepare`: afterwards everything instruction i strictly needs sits in a
     * host register, nothing that is never used again does, and every register
     * keeps its value except destinations that the instruction overwrites unseen.
     */
    method Prepare(i: nat)
      requires Valid() && i < |instrs| <= 32 && WellFormed(instrs[i])
      requires |Necessary(instrs[i], pcAllocatableAsSrc)| <= |allocOrder|
      modifies this`memory, this`native, this`dirty, this`loaded, this`used, this`literals, mapping
      ensures Valid() && Necessary(instrs[i], pcAllocatableAsSrc) <= loaded
      ensures loaded * instrs[i].dst <= dirty + {PC}
      ensures loaded <= FutureNeeded(instrs, i) + Necessary(instrs[i], pcAllocatableAsSrc)
      ensures PC in loaded ==> PC in Necessary(instrs[i], pcAllocatableAsSrc)
      ensures SameBut(View(State()), old(View(State())), Unfetched(instrs[i]))
      ensures literals == old(literals) - instrs[i].dst
    {
      hide View, Clean, SameBut, Shape;
      ghost var c0 := State();
      var futureNeeded, ranking := DropUnneeded(i);
      ghost var c1 := State();
      EvictFor(i, ranking);
      ghost var c2 := State();
      SameTransitive(View(c2), View(c1), View(c0), {}, {}, {});
      FillFor(i, futureNeeded);
      SameTransitive(View(State()), View(c2), View(c0), Unfetched(instrs[i]), {}, Unfetched(instrs[i]));
    }

    // -------------------------------------------------------------- executing a block

    /** Store the results of an instruction, one register at a time. */
    method WriteResults(dst: set<Reg>, g: RegFile)
      requires Valid() && loaded * dst <= dirty + {PC}
      modifies this`memory, this`native
      ensures Valid() && View(State()) == Merge(old(View(State())), g, dst, 16)
    {
      hide View, Clean, Shape;
      ghost var f := View(State());
      for k := 0 to 16
        invariant Shape(State(), allocOrder) && Clean(State(), {})
        invariant View(State()) == Merge(f, g, dst, k)
      {
        var reg: Reg := k;
        if reg in dst && reg != PC {
          assert reg in loaded ==> reg in loaded * dst;
          WriteKeeps(State(), allocOrder, reg, g[reg]);
          if mapping[reg] != -1 {
            native := native[mapping[reg] := g[reg]];
          } else {
            memory := memory[reg := g[reg]];
          }
          assert Merge(f, g, dst, k)[reg := g[reg]] == Merge(f, g, dst, k + 1);
        } else {
          assert Merge(f, g, dst, k) == Merge(f, g, dst, k + 1);
        }
      }
    }

    /**
     * The code emitted for instruction i itself: operands come from and results go
     * to wherever each register currently lives.
     */
    method Execute(i: nat)
      requires Valid() && i < |instrs| && WellFormed(instrs[i])
      requires loaded * instrs[i].dst <= dirty + {PC}
      requires LiteralsHold() && literals.Keys !! instrs[i].dst
      modifies this`memory, this`native, this`rest, this`literals
      ensures Valid() && LiteralsHold()
      ensures var (g, m) := instrs[i].sem(old(View(State())), old(rest));
              SameBut(View(State()), g, {}) && rest == m
    {
      var instr := instrs[i];
      var (g, m) := instr.sem(View(State()), rest);
      assert SameBut(g, View(State()), instr.dst);
      assert instr.literal.Some? ==> instr.literal.value.0 != PC && g[instr.literal.value.0] == instr.literal.value.1;
      hide View, Clean, Shape, WellFormed;
      WriteResults(instr.dst, g);
      rest := m;
      if instr.literal.Some? {
        literals := literals[instr.literal.value.0 := instr.literal.value.1];
      }
    }

    /** Every recorded literal is its register's current value. */
    ghost predicate LiteralsHold()
      requires mapping.Length == 16
      reads this, mapping
    {
      forall r <- literals :: r != PC && View(State())[r] == literals[r]
    }

    /** At most 32 decoded instructions, none strictly needing more registers than there are. */
    ghost predicate Compilable() {
      && |instrs| <= 32
      && (forall k :: 0 <= k < |instrs| ==>
            WellFormed(instrs[k]) && |Necessary(instrs[k], pcAllocatableAsSrc)| <= |allocOrder|)
    }

    /** The guest machine started from f and m is at instruction i, seen through the view. */
    ghost predicate Tracks(i: nat, f: RegFile, m: M)
      requires mapping.Length == 16 && i <= |instrs|
      reads this, mapping
    {
      SameBut(View(State()), GuestRun(instrs, i, f, m).0, {}) && rest == GuestRun(instrs, i, f, m).1
    }

    /** What holds between two instructions of a block. */
    ghost predicate Between(i: nat, f: RegFile, m: M)
      reads this, mapping
    {
      Valid() && LiteralsHold() && i <= |instrs| && Tracks(i, f, m)
    }

    /** Prepare (or, if only the interpreter can run it, flush) and execute one instruction. */
    method Turn(i: nat, ghost f: RegFile, ghost m: M)
      requires Between(i, f, m) && i < |instrs| && Compilable()
      modifies this`memory, this`native, this`dirty, this`loaded, this`used, this`literals, this`rest, mapping
      ensures Between(i + 1, f, m)
    {
      ghost var c0, l0 := State(), literals;
      ghost var g := GuestRun(instrs, i, f, m).0;
      if instrs[i].compilable {
        Prepare(i);
      } else {
        Flush();
        assert SameBut(View(State()), View(c0), Unfetched(instrs[i]));
      }
      assert LiteralsHold() && literals.Keys !! instrs[i].dst;
      SameTransitive(View(State()), View(c0), g, Unfetched(instrs[i]), {}, Unfetched(instrs[i]));
      ghost var v := View(State());
      SemAgrees(instrs[i], v, g, rest);
      ghost var k := rest;
      Execute(i);
      SameTransitive(View(State()), instrs[i].sem(v, k).0, instrs[i].sem(g, k).0, {}, {}, {});
    }

    /** Leave the block: write everything back, keeping the allocation only on an early exit. */
    method Leave(i: nat, early: bool, ghost f: RegFile, ghost m: M)
      requires Between(i, f, m)
      modifies this`memory, this`dirty, this`loaded, this`used, this`literals, mapping
      ensures Valid() && SameBut(memory, GuestRun(instrs, i, f, m).0, {})
      ensures rest == GuestRun(instrs, i, f, m).1
    {
      ghost var v := View(State());
      hide View, Clean, Shape, SameBut, GuestRun;
      if early {
        PrepareExit();
      } else {
        Flush();
      }
      SameTransitive(memory, v, GuestRun(instrs, i, f, m).0, {}, {}, {});
    }

    /**
     * A whole block, left early after instruction `exitAfter` if a followed branch
     * goes the other way there.  Whatever is evicted, loaded and written back on
     * the way, afterwards memory alone holds the registers R0 to R14 of the plain
     * guest machine after the same instructions, and the rest of the machine agrees.
     */
    method RunBlock(exitAfter: Option<nat>)
      requires Valid() && loaded == {} && literals == map[] && Compilable()
      requires exitAfter.Some? ==> exitAfter.value < |instrs|
      modifies this`memory, this`native, this`dirty, this`loaded, this`used, this`literals, this`rest, mapping
      ensures Valid()
      ensures var n := if exitAfter.Some? then exitAfter.value + 1 else |instrs|;
              SameBut(memory, GuestRun(instrs, n, old(memory), old(rest)).0, {})
              && rest == GuestRun(instrs, n, old(memory), old(rest)).1
    {
      hide Valid, Compilable, Between, SameBut, GuestRun;
      ghost var f, m := memory, rest;
      assert Between(0, f, m) by { Entered(); }
      var n := if exitAfter.Some? then exitAfter.value + 1 else |instrs|;
      for i := 0 to n
        invariant Between(i, f, m)
      {
        Turn(i, f, m);
      }
      Leave(n, exitAfter.Some?, f, m);
    }

    /** With nothing loaded, memory holds every register. */
    lemma Entered()
      requires Valid() && loaded == {} && literals == map[]
      ensures Between(0, memory, rest)
    {
    }
  }
}
