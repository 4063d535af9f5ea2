/**
 * Dead-flag elimination in the JIT: each compiled instruction computes only the
 * flags in its `SetFlags`, which backward floods from every point where flags
 * are observed have filled in.
 */
module FlagLiveness {
  import opened Basics

  /** N, Z, C and V. */
  type Flag = f: int | 0 <= f < 4

  type FlagFile = f: seq<bool> | |f| == 4 witness [false, false, false, false]

  const ALL_FLAGS: set<Flag> := {0, 1, 2, 3}

  /**
   * One fetched instruction.  It always writes `writes`, may or may not write
   * `maybeWrites`, and observes `reads`; `follows` marks a conditional branch
   * that the block continues past.
   */
  datatype Instr<!M> = Instr(
    writes: set<Flag>, maybeWrites: set<Flag>, observes: set<Flag>, compilable: bool, follows: bool,
    sem: (FlagFile, M) -> (FlagFile, M))

  predicate Agree(f: FlagFile, g: FlagFile, flags: set<Flag>) {
    forall x <- flags :: f[x] == g[x]
  }

  /**
   * The decoder's flag information is right: nothing else is written, and what
   * the instruction does is a function of what it reads.  A flag it may write
   * is either written alike or kept from both register files.
   */
  ghost predicate WellFormed<M(!new)>(instr: Instr<M>) {
    && (forall f: FlagFile, m: M, x: Flag :: x !in instr.writes + instr.maybeWrites ==> instr.sem(f, m).0[x] == f[x])
    && (forall f: FlagFile, g: FlagFile, m: M :: Agree(f, g, instr.observes) ==>
          && instr.sem(f, m).1 == instr.sem(g, m).1
          && (forall x: Flag :: x in instr.writes ==> instr.sem(f, m).0[x] == instr.sem(g, m).0[x])
          && (forall x: Flag :: x in instr.maybeWrites ==>
                instr.sem(f, m).0[x] == instr.sem(g, m).0[x]
                || (instr.sem(f, m).0[x] == f[x] && instr.sem(g, m).0[x] == g[x])))
  }

  // ---------------------------------------------------------------- the floods

  /** The flags asked for before instruction k: all of them where the interpreter or another path takes over. */
  function Demand<M>(instrs: seq<Instr<M>>, k: nat): set<Flag>
    requires k < |instrs|
  {
    if !instrs[k].compilable || instrs[k].follows then ALL_FLAGS else instrs[k].observes
  }

  /** What is left at point j of the flags asked for at point n. */
  function Left<M>(instrs: seq<Instr<M>>, j: nat, n: nat, flags: set<Flag>): set<Flag>
    requires j <= n <= |instrs|
    decreases n - j
  {
    if j == n then flags else Left(instrs, j + 1, n, flags) - instrs[j].writes
  }

  /** What one flood from point n adds to instruction j. */
  function Flooded<M>(instrs: seq<Instr<M>>, j: nat, n: nat, flags: set<Flag>): set<Flag>
    requires j < n <= |instrs|
  {
    Left(instrs, j + 1, n, flags) * (instrs[j].writes + instrs[j].maybeWrites)
  }

  lemma {:induction false} NothingLeft<M>(instrs: seq<Instr<M>>, j: nat, k: nat, n: nat, flags: set<Flag>)
    requires j <= k <= n <= |instrs| && Left(instrs, k, n, flags) == {}
    ensures Left(instrs, j, n, flags) == {}
    decreases k - j
  {
    if j < k {
      NothingLeft(instrs, j + 1, k, n, flags);
    }
  }

  /** The flood itself, from instruction n - 1 down, stopping once every flag has been written for certain. */
  method FloodFillSetFlags<M>(instrs: seq<Instr<M>>, setFlags: array<set<Flag>>, n: nat, flags: set<Flag>)
    requires n <= |instrs| == setFlags.Length
    modifies setFlags
    ensures forall j :: 0 <= j < n ==> setFlags[j] == old(setFlags[j]) + Flooded(instrs, j, n, flags)
    ensures forall j :: n <= j < setFlags.Length ==> setFlags[j] == old(setFlags[j])
  {
    var left := flags;
    var j := n;
    while j > 0
      invariant 0 <= j <= n && left == Left(instrs, j, n, flags)
      invariant forall k :: j <= k < n ==> setFlags[k] == old(setFlags[k]) + Flooded(instrs, k, n, flags)
      invariant forall k :: 0 <= k < j || n <= k < setFlags.Length ==> setFlags[k] == old(setFlags[k])
    {
      j := j - 1;
      ghost var before := left;
      var matching := instrs[j].writes * left;
      var matchMaybe := instrs[j].maybeWrites * left;
      setFlags[j] := setFlags[j] + matchMaybe;
      assert setFlags[j] + matching == old(setFlags[j]) + Flooded(instrs, j, n, flags);
      if matching != {} {
        setFlags[j] := setFlags[j] + matching;
        left := left - matching;
        if left == {} {
          assert left == before - instrs[j].writes;
          forall k | 0 <= k < j
            ensures Flooded(instrs, k, n, flags) == {}
          {
            NothingLeft(instrs, k + 1, j, n, flags);
          }
          return;
        }
      }
      assert before == Left(instrs, j + 1, n, flags) && left == before - matching == before - instrs[j].writes;
    }
  }

  // ---------------------------------------------------------------- what the floods compute together

  /** Classical liveness: the flags that matter at point k of the block. */
  function LiveAt<M>(instrs: seq<Instr<M>>, k: nat): set<Flag>
    requires k <= |instrs|
    decreases |instrs| - k
  {
    if k == |instrs| then ALL_FLAGS else Demand(instrs, k) + (LiveAt(instrs, k + 1) - instrs[k].writes)
  }

  /** The flags still asked for at point j by the floods from the points up to n. */
  function AskedAt<M>(instrs: seq<Instr<M>>, j: nat, n: nat): set<Flag>
    requires j <= n <= |instrs|
    decreases n
  {
    (if n < |instrs| then Left(instrs, j, n, Demand(instrs, n)) else Left(instrs, j, n, ALL_FLAGS))
    + if n == j then {} else AskedAt(instrs, j, n - 1)
  }

  lemma {:induction false} AskedStep<M>(instrs: seq<Instr<M>>, j: nat, n: nat)
    requires j < n <= |instrs|
    ensures AskedAt(instrs, j, n) == Demand(instrs, j) + (AskedAt(instrs, j + 1, n) - instrs[j].writes)
    decreases n
  {
    if n > j + 1 {
      AskedStep(instrs, j, n - 1);
    } else {
      assert AskedAt(instrs, j, j) == Demand(instrs, j);
    }
  }

  /** All floods together ask exactly for the live flags. */
  lemma {:induction false} FloodsComputeLiveness<M>(instrs: seq<Instr<M>>, j: nat)
    requires j <= |instrs|
    ensures AskedAt(instrs, j, |instrs|) == LiveAt(instrs, j)
    decreases |instrs| - j
  {
    if j < |instrs| {
      FloodsComputeLiveness(instrs, j + 1);
      AskedStep(instrs, j, |instrs|);
    }
  }

  /**
   * The floods as the compiler starts them, one before every instruction that
   * observes flags and one at the end of the block: each instruction is told to
   * compute exactly those of its flags that are live after it.
   */
  method ComputeSetFlags<M>(instrs: seq<Instr<M>>, setFlags: array<set<Flag>>)
    requires |instrs| == setFlags.Length
    modifies setFlags
    ensures forall j :: 0 <= j < |instrs| ==>
              setFlags[j] == LiveAt(instrs, j + 1) * (instrs[j].writes + instrs[j].maybeWrites)
  {
    hide Left, LiveAt;
    for i := 0 to |instrs|
      invariant forall j :: 0 <= j < i ==> setFlags[j] == ComputedBy(instrs, j, i)
    {
      setFlags[i] := {};
      var secondaryFlagReadCond := !instrs[i].compilable || instrs[i].follows;
      if instrs[i].observes != {} || secondaryFlagReadCond {
        FloodFillSetFlags(instrs, setFlags, i, if !secondaryFlagReadCond then instrs[i].observes else ALL_FLAGS);
      }
      forall j | 0 <= j <= i
        ensures setFlags[j] == ComputedBy(instrs, j, i + 1)
      {
        ComputedNext(instrs, j, i);
        if j < i && !secondaryFlagReadCond && instrs[i].observes == {} {
          NothingFlooded(instrs, j, i);
        }
      }
    }
    FloodFillSetFlags(instrs, setFlags, |instrs|, ALL_FLAGS);
    forall j | 0 <= j < |instrs|
      ensures setFlags[j] == LiveAt(instrs, j + 1) * (instrs[j].writes + instrs[j].maybeWrites)
    {
      FloodsComputeLiveness(instrs, j + 1);
      ComputedAtEnd(instrs, j);
    }
  }

  /** What instruction j has been told by the floods from the points below n. */
  function ComputedBy<M>(instrs: seq<Instr<M>>, j: nat, n: nat): set<Flag>
    requires j < n <= |instrs|
  {
    if j + 1 == n then {} else AskedAt(instrs, j + 1, n - 1) * (instrs[j].writes + instrs[j].maybeWrites)
  }

  lemma ComputedNext<M>(instrs: seq<Instr<M>>, j: nat, i: nat)
    requires j <= i < |instrs|
    ensures ComputedBy(instrs, j, i + 1)
            == if j == i then {} else ComputedBy(instrs, j, i) + Flooded(instrs, j, i, Demand(instrs, i))
  {
  }

  lemma NothingFlooded<M>(instrs: seq<Instr<M>>, j: nat, n: nat)
    requires j < n <= |instrs|
    ensures Flooded(instrs, j, n, {}) == {}
  {
    NothingLeft(instrs, j + 1, n, n, {});
  }

  lemma ComputedAtEnd<M>(instrs: seq<Instr<M>>, j: nat)
    requires j < |instrs|
    ensures AskedAt(instrs, j + 1, |instrs|) * (instrs[j].writes + instrs[j].maybeWrites)
            == ComputedBy(instrs, j, |instrs|) + Flooded(instrs, j, |instrs|, ALL_FLAGS)
  {
  }

  // ---------------------------------------------------------------- the floods preserve meaning

  /** The flags an instruction leaves: only those it was told to compute, unless the interpreter runs it. */
  function Selected(flags: set<Flag>, before: FlagFile, after: FlagFile): FlagFile {
    seq(4, x requires 0 <= x < 4 => if x in flags then after[x] else before[x])
  }

  /** Instruction i of the block, computing the flags in `setFlags`. */
  function Perform<M>(instr: Instr<M>, setFlags: set<Flag>, f: FlagFile, m: M): (FlagFile, M) {
    var (g, k) := instr.sem(f, m);
    (if instr.compilable then Selected(setFlags, f, g) else g, k)
  }

  /** The first n instructions, every one computing all it writes. */
  function FullRun<M>(instrs: seq<Instr<M>>, n: nat, f: FlagFile, m: M): (FlagFile, M)
    requires n <= |instrs|
  {
    if n == 0 then (f, m) else var (g, k) := FullRun(instrs, n - 1, f, m); instrs[n - 1].sem(g, k)
  }

  /** The same with dead flags left out. */
  function LeanRun<M>(instrs: seq<Instr<M>>, setFlags: seq<set<Flag>>, n: nat, f: FlagFile, m: M): (FlagFile, M)
    requires n <= |instrs| == |setFlags|
  {
    if n == 0 then (f, m)
    else var (g, k) := LeanRun(instrs, setFlags, n - 1, f, m); Perform(instrs[n - 1], setFlags[n - 1], g, k)
  }

  lemma StepAgrees<M(!new)>(instrs: seq<Instr<M>>, i: nat, setFlags: set<Flag>, f: FlagFile, g: FlagFile, m: M)
    requires i < |instrs| && WellFormed(instrs[i])
    requires Agree(f, g, LiveAt(instrs, i))
    requires setFlags == LiveAt(instrs, i + 1) * (instrs[i].writes + instrs[i].maybeWrites)
    ensures instrs[i].sem(f, m).1 == Perform(instrs[i], setFlags, g, m).1
    ensures Agree(instrs[i].sem(f, m).0, Perform(instrs[i], setFlags, g, m).0, LiveAt(instrs, i + 1))
  {
    var instr := instrs[i];
    var (next, live) := (LiveAt(instrs, i + 1), LiveAt(instrs, i));
    assert live == Demand(instrs, i) + (next - instr.writes);
    if instr.compilable {
      assert Agree(f, g, instr.observes) by {
        assert forall x <- instr.observes :: x in Demand(instrs, i);
      }
      forall x | x in next
        ensures instr.sem(f, m).0[x] == Perform(instr, setFlags, g, m).0[x]
      {
        assert x !in instr.writes ==> x in live;
      }
    } else {
      assert forall x: Flag :: x in ALL_FLAGS;
      assert f == g;
    }
  }

  /**
   * Dead-flag elimination preserves meaning: after any number of instructions
   * the rest of the machine is the same, and so is every flag that is observed
   * next, all four before a followed branch, an instruction only the interpreter
   * can run, and at the end of the block.
   */
  lemma {:induction false} LeanRunAgrees<M(!new)>(
    instrs: seq<Instr<M>>, setFlags: seq<set<Flag>>, n: nat, f: FlagFile, m: M)
    requires n <= |instrs| == |setFlags|
    requires forall i :: 0 <= i < |instrs| ==> WellFormed(instrs[i])
    requires forall i :: 0 <= i < |instrs| ==>
               setFlags[i] == LiveAt(instrs, i + 1) * (instrs[i].writes + instrs[i].maybeWrites)
    ensures LeanRun(instrs, setFlags, n, f, m).1 == FullRun(instrs, n, f, m).1
    ensures Agree(FullRun(instrs, n, f, m).0, LeanRun(instrs, setFlags, n, f, m).0, LiveAt(instrs, n))
    ensures n < |instrs| ==> Agree(FullRun(instrs, n, f, m).0, LeanRun(instrs, setFlags, n, f, m).0, instrs[n].observes)
    ensures n == |instrs| || !instrs[n].compilable || instrs[n].follows ==>
              LeanRun(instrs, setFlags, n, f, m) == FullRun(instrs, n, f, m)
  {
    hide WellFormed, Perform, LiveAt;
    if n > 0 {
      LeanRunAgrees(instrs, setFlags, n - 1, f, m);
      var (g, k) := FullRun(instrs, n - 1, f, m);
      StepAgrees(instrs, n - 1, setFlags[n - 1], g, LeanRun(instrs, setFlags, n - 1, f, m).0, k);
    }
    LiveCovers(instrs, n);
    if n == |instrs| || !instrs[n].compilable || instrs[n].follows {
      assert forall x: Flag :: x in ALL_FLAGS;
      assert LeanRun(instrs, setFlags, n, f, m).0 == FullRun(instrs, n, f, m).0;
    }
  }

  lemma LiveCovers<M>(instrs: seq<Instr<M>>, n: nat)
    requires n <= |instrs|
    ensures n < |instrs| ==> forall x <- instrs[n].observes :: x in LiveAt(instrs, n)
    ensures n == |instrs| || !instrs[n].compilable || instrs[n].follows ==> forall x: Flag :: x in LiveAt(instrs, n)
  {
    assert forall x: Flag :: x in ALL_FLAGS;
  }

  /**
   * Nothing is computed in vain: a flag that instruction i is told to compute is
   * asked for at a later point of the block before any instruction in between
   * writes it for certain: by an instruction that observes it, by one that only
   * the interpreter can run, by a followed branch, or at the end of the block.
   */
  lemma {:induction false} LiveIsAskedFor<M>(instrs: seq<Instr<M>>, i: nat, x: Flag) returns (k: nat)
    requires i <= |instrs| && x in LiveAt(instrs, i)
    ensures i <= k <= |instrs| && (forall j :: i <= j < k ==> x !in instrs[j].writes)
    ensures k < |instrs| ==> !instrs[k].compilable || instrs[k].follows || x in instrs[k].observes
    decreases |instrs| - i
  {
    k := i;
    if i < |instrs| && x !in Demand(instrs, i) {
      k := LiveIsAskedFor(instrs, i + 1, x);
    }
  }
}
