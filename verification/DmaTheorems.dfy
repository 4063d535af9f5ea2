/** Preempting a DMA transfer changes nothing about what it moves or what it costs. */
module DmaTheorems {
  import opened Basics
  import opened DmaTransfer

  // ---------------------------------------------------------------- the uninterrupted run

  lemma StartActive(ch: Channel, d: Dma)
    requires Active(d)
    ensures Active(Start(ch, d)) && Start(ch, d).running > 0 && Start(ch, d).remCount == d.remCount
  {
  }

  /** A unit, and what follows it if it was the last of its chunk. */
  function UnitAndSettle<S>(env: Env<S>, x: Transfer<S>): Transfer<S>
    requires Active(x.d) && x.d.running > 0
  {
    var y := Unit(env, x, x.d.running == 2);
    if y.d.iterCount == 0 then y.(d := Settle(y.d)) else y
  }

  lemma Product(a: nat, b: nat)
    ensures a * b >= 0
  {
  }

  lemma UnitActive<S>(env: Env<S>, x: Transfer<S>, burstStart: bool)
    requires 0 < x.d.iterCount <= x.d.remCount
    ensures var y := Unit(env, x, burstStart);
            && y.d.(curSrc := x.d.curSrc, curDst := x.d.curDst, iterCount := x.d.iterCount, remCount := x.d.remCount,
                    running := x.d.running, burst := x.d.burst) == x.d
            && y.d.iterCount == x.d.iterCount - 1 && y.d.remCount == x.d.remCount - 1 && y.d.running == 1
            && y.moved == x.moved + [(x.d.curSrc, x.d.curDst)]
            && y.d.curSrc == Wrap(x.d.curSrc + x.d.srcInc * WidthOf(x.d))
            && y.d.curDst == Wrap(x.d.curDst + x.d.dstInc * WidthOf(x.d))
            && y.bus == env.copy(x.bus, x.d.curSrc, x.d.curDst, x.d.cnt.wide)
            && y.charged >= x.charged
  {
    hide UnitTimings, Wrap;
    Product(UnitTimings(env.ch, env.places, x.d, burstStart).0, env.scale);
  }

  /** The whole transfer without interruption; a chunk is started again as soon as the last one ends. */
  function Complete<S>(env: Env<S>, x: Transfer<S>): Transfer<S>
    requires x.d.inProgress ==> Active(x.d)
    decreases x.d.remCount, if x.d.running == 0 then 1 else 0
  {
    if !x.d.inProgress then x
    else if x.d.running == 0 then
      StartActive(env.ch, x.d);
      Complete(env, x.(d := Start(env.ch, x.d)))
    else
      UnitActive(env, x, x.d.running == 2);
      Complete(env, UnitAndSettle(env, x))
  }

  // ---------------------------------------------------------------- preemption

  /** Any part of a chunk leaves the same remainder. */
  lemma {:induction false} LoopTransparent<S>(
    env: Env<S>, x: Transfer<S>, slice: Slice, k: nat, now: nat)
    requires Active(x.d) && x.d.running > 0
    ensures var y := Loop(env, x, x.d.running == 2, slice, k, now);
            var z := y.(d := Settle(y.d));
            (z.d.inProgress ==> Active(z.d)) && Complete(env, z) == Complete(env, x)
    decreases x.d.iterCount
  {
    hide Unit;
    UnitActive(env, x, x.d.running == 2);
    var y := Unit(env, x, x.d.running == 2);
    var later := now + y.charged - x.charged;
    if y.d.iterCount == 0 || later >= slice.target || slice.stalls(k) {
    } else {
      LoopTransparent(env, y, slice, k + 1, later);
    }
  }

  datatype Event = RunSlice(slice: Slice) | Restart

  /** A slice of time for the channel, or the trigger that starts its next chunk. */
  function Apply<S>(env: Env<S>, x: Transfer<S>, event: Event): Transfer<S>
    requires x.d.inProgress ==> Active(x.d)
  {
    if !x.d.inProgress then x
    else
      match event
      case RunSlice(slice) => Run(env, x, slice)
      case Restart => x.(d := Start(env.ch, x.d))
  }

  lemma ApplyTransparent<S>(env: Env<S>, x: Transfer<S>, event: Event)
    requires x.d.inProgress ==> Active(x.d)
    ensures var y := Apply(env, x, event);
            (y.d.inProgress ==> Active(y.d)) && Complete(env, y) == Complete(env, x)
  {
    hide Unit, Loop;
    if x.d.inProgress {
      match event
      case RunSlice(slice) =>
        if x.d.running != 0 && slice.now < slice.target {
          LoopTransparent(env, x, slice, 0, slice.now);
        }
      case Restart => StartActive(env.ch, x.d);
    }
  }

  function Events<S>(env: Env<S>, x: Transfer<S>, events: seq<Event>): (y: Transfer<S>)
    requires x.d.inProgress ==> Active(x.d)
    ensures y.d.inProgress ==> Active(y.d)
  {
    if events == [] then x
    else
      var y := Events(env, x, events[..|events| - 1]);
      ApplyTransparent(env, y, events[|events| - 1]);
      Apply(env, y, events[|events| - 1])
  }

  /**
   * For every sequence of time slices, stalls and chunk triggers, what is left
   * to do after them completes to the uninterrupted run; a transfer that has
   * ended is that run: same memory, same cycles, same units, same registers.
   */
  lemma {:induction false} PreemptionTransparent<S>(env: Env<S>, x: Transfer<S>, events: seq<Event>)
    requires x.d.inProgress ==> Active(x.d)
    ensures Complete(env, Events(env, x, events)) == Complete(env, x)
    ensures !Events(env, x, events).d.inProgress ==> Events(env, x, events) == Complete(env, x)
  {
    if events != [] {
      var front := events[..|events| - 1];
      PreemptionTransparent(env, x, front);
      ApplyTransparent(env, Events(env, x, front), events[|events| - 1]);
    }
  }

  // ---------------------------------------------------------------- what is moved

  /** The address pairs of a flat copy of n units. */
  function FlatPairs(src: int, dst: int, srcStep: int, dstStep: int, n: nat): seq<(u32, u32)> {
    seq(n, k requires 0 <= k < n => (Wrap(src + k * srcStep), Wrap(dst + k * dstStep)))
  }

  function CopyAll<S>(env: Env<S>, bus: S, pairs: seq<(u32, u32)>, wide: bool): S {
    if pairs == [] then bus
    else
      var last := pairs[|pairs| - 1];
      env.copy(CopyAll(env, bus, pairs[..|pairs| - 1], wide), last.0, last.1, wide)
  }

  lemma {:induction false} CopyFirst<S>(env: Env<S>, bus: S, first: (u32, u32), rest: seq<(u32, u32)>, wide: bool)
    ensures CopyAll(env, bus, [first] + rest, wide) == CopyAll(env, env.copy(bus, first.0, first.1, wide), rest, wide)
  {
    var pairs := [first] + rest;
    if rest == [] {
      assert pairs[..0] == [];
      assert CopyAll(env, bus, [], wide) == bus;
    } else {
      assert pairs[..|pairs| - 1] == [first] + rest[..|rest| - 1];
      CopyFirst(env, bus, first, rest[..|rest| - 1], wide);
    }
  }

  lemma FlatFirst(src: u32, dst: u32, srcStep: int, dstStep: int, n: nat)
    requires n > 0
    ensures FlatPairs(src, dst, srcStep, dstStep, n)
            == [(src, dst)] + FlatPairs(Wrap(src + srcStep), Wrap(dst + dstStep), srcStep, dstStep, n - 1)
  {
    hide Wrap;
    var (s, d) := (Wrap(src + srcStep), Wrap(dst + dstStep));
    var rest := FlatPairs(s, d, srcStep, dstStep, n - 1);
    WrapSmall(src);
    WrapSmall(dst);
    forall k | 1 <= k < n
      ensures FlatPairs(src, dst, srcStep, dstStep, n)[k] == rest[k - 1]
    {
      WrapTwice(src + srcStep, (k - 1) * srcStep);
      WrapTwice(dst + dstStep, (k - 1) * dstStep);
      assert src + srcStep + (k - 1) * srcStep == src + k * srcStep;
      assert dst + dstStep + (k - 1) * dstStep == dst + k * dstStep;
    }
  }

  lemma WrapSmall(a: u32)
    ensures Wrap(a) == a
  {
  }

  /** The units that the uninterrupted run still moves. */
  function Pairs<S>(env: Env<S>, x: Transfer<S>): seq<(u32, u32)>
    requires x.d.inProgress ==> Active(x.d)
    decreases x.d.remCount, if x.d.running == 0 then 1 else 0
  {
    if !x.d.inProgress then []
    else if x.d.running == 0 then
      StartActive(env.ch, x.d);
      Pairs(env, x.(d := Start(env.ch, x.d)))
    else
      UnitActive(env, x, x.d.running == 2);
      [(x.d.curSrc, x.d.curDst)] + Pairs(env, UnitAndSettle(env, x))
  }

  /**
   * A transfer moves exactly its remaining count of units, whatever the chunks,
   * changes memory by those units alone, and ends.
   */
  lemma {:induction false} MovesExactlyTheCount<S>(env: Env<S>, x: Transfer<S>)
    requires Active(x.d)
    ensures var (y, pairs) := (Complete(env, x), Pairs(env, x));
            && |pairs| == x.d.remCount && y.moved == x.moved + pairs
            && y.bus == CopyAll(env, x.bus, pairs, x.d.cnt.wide)
            && !y.d.inProgress && y.d.running == 0
    decreases x.d.remCount, if x.d.running == 0 then 1 else 0
  {
    hide Unit, CopyAll;
    if x.d.running == 0 {
      StartActive(env.ch, x.d);
      MovesExactlyTheCount(env, x.(d := Start(env.ch, x.d)));
    } else {
      UnitActive(env, x, x.d.running == 2);
      var (z, first) := (UnitAndSettle(env, x), (x.d.curSrc, x.d.curDst));
      CopyFirst(env, x.bus, first, Pairs(env, z), x.d.cnt.wide);
      if z.d.inProgress {
        MovesExactlyTheCount(env, z);
        assert x.moved + [first] + Pairs(env, z) == x.moved + ([first] + Pairs(env, z));
      } else {
        NoneLeft(env, z.bus, x.d.cnt.wide);
        assert x.moved + [first] == x.moved + ([first] + []);
      }
    }
  }

  lemma NoneLeft<S>(env: Env<S>, bus: S, wide: bool)
    ensures CopyAll(env, bus, [], wide) == bus
  {
  }

  /** The part of a transfer that one chunk covers, or all of it where no address is reloaded, is a flat copy. */
  lemma {:induction false} FlatUntilReload<S>(env: Env<S>, x: Transfer<S>, n: nat)
    requires Active(x.d) && n <= x.d.remCount
    requires (x.d.cnt.srcMode == RELOAD || x.d.cnt.dstMode == RELOAD) ==> x.d.running > 0 && n <= x.d.iterCount
    ensures |Pairs(env, x)| == x.d.remCount
    ensures Pairs(env, x)[..n]
            == FlatPairs(x.d.curSrc, x.d.curDst, x.d.srcInc * WidthOf(x.d), x.d.dstInc * WidthOf(x.d), n)
    decreases x.d.remCount, if x.d.running == 0 then 1 else 0
  {
    hide Unit, FlatPairs, Wrap;
    MovesExactlyTheCount(env, x);
    if n == 0 {
      FlatNone(x.d.curSrc, x.d.curDst, x.d.srcInc * WidthOf(x.d), x.d.dstInc * WidthOf(x.d));
    } else if x.d.running == 0 {
      StartActive(env.ch, x.d);
      FlatUntilReload(env, x.(d := Start(env.ch, x.d)), n);
    } else {
      UnitActive(env, x, x.d.running == 2);
      var z := UnitAndSettle(env, x);
      FlatFirst(x.d.curSrc, x.d.curDst, x.d.srcInc * WidthOf(x.d), x.d.dstInc * WidthOf(x.d), n);
      if n > 1 {
        FlatUntilReload(env, z, n - 1);
      } else {
        FlatNone(z.d.curSrc, z.d.curDst, z.d.srcInc * WidthOf(z.d), z.d.dstInc * WidthOf(z.d));
      }
    }
  }

  lemma FlatNone(src: int, dst: int, srcStep: int, dstStep: int)
    ensures FlatPairs(src, dst, srcStep, dstStep, 0) == []
  {
  }

  /** What a write of the control register sets up, and every start of a chunk keeps. */
  predicate Programmed(d: Dma) {
    && d.cnt.Valid() && d.srcInc == IncOf(d.cnt.srcMode) && d.dstInc == IncOf(d.cnt.dstMode)
    && (d.cnt.srcMode == RELOAD ==> d.curSrc == d.srcAddr) && (d.cnt.dstMode == RELOAD ==> d.curDst == d.dstAddr)
  }

  /** A first chunk that is shorter than the whole transfer. */
  predicate Chunked(d: Dma) { d.startMode == GXFIFO_MODE && d.iterCount == CHUNK < d.remCount }

  /** After a chunk the addresses are reloaded, so unit 112 repeats unit 0 in that address. */
  lemma {:induction false} NextChunk<S>(env: Env<S>, x: Transfer<S>)
    requires Active(x.d) && x.d.running > 0 && x.d.iterCount < x.d.remCount && |Pairs(env, x)| == x.d.remCount
    ensures var (src, dst) := Pairs(env, x)[x.d.iterCount];
            (x.d.cnt.srcMode == RELOAD ==> src == x.d.srcAddr) && (x.d.cnt.dstMode == RELOAD ==> dst == x.d.dstAddr)
    decreases x.d.iterCount
  {
    hide Unit, Wrap;
    UnitActive(env, x, x.d.running == 2);
    var z := UnitAndSettle(env, x);
    MovesExactlyTheCount(env, z);
    if x.d.iterCount > 1 {
      NextChunk(env, z);
    } else {
      StartActive(env.ch, z.d);
      var started := z.(d := Start(env.ch, z.d));
      assert Pairs(env, z) == Pairs(env, started);
      UnitActive(env, started, started.d.running == 2);
    }
  }

  /** 112 units forward is another address. */
  lemma ForwardDiffers(a: u32, wide: bool)
    ensures Wrap(a + CHUNK * if wide then 4 else 2) != a
  {
  }

  /**
   * A started transfer copies the flat range, unit k from the source plus k
   * steps to the destination plus k steps, if and only if it is not a chunked
   * one with an address that is reloaded.
   */
  lemma FlatCopyExactly<S>(env: Env<S>, x: Transfer<S>)
    requires Active(x.d) && Programmed(x.d) && x.d.running > 0
    requires Chunked(x.d) || x.d.iterCount == x.d.remCount
    ensures |Pairs(env, x)| == x.d.remCount
    ensures Pairs(env, x)
            == FlatPairs(x.d.curSrc, x.d.curDst, x.d.srcInc * WidthOf(x.d), x.d.dstInc * WidthOf(x.d), x.d.remCount)
            <==> !(Chunked(x.d) && (x.d.cnt.srcMode == RELOAD || x.d.cnt.dstMode == RELOAD))
  {
    hide Unit, Pairs, Wrap;
    MovesExactlyTheCount(env, x);
    var pairs := Pairs(env, x);
    var (srcStep, dstStep) := (x.d.srcInc * WidthOf(x.d), x.d.dstInc * WidthOf(x.d));
    if Chunked(x.d) && (x.d.cnt.srcMode == RELOAD || x.d.cnt.dstMode == RELOAD) {
      NextChunk(env, x);
      ForwardDiffers(x.d.curSrc, x.d.cnt.wide);
      ForwardDiffers(x.d.curDst, x.d.cnt.wide);
      var flat := FlatPairs(x.d.curSrc, x.d.curDst, srcStep, dstStep, x.d.remCount);
      assert flat[CHUNK] == (Wrap(x.d.curSrc + CHUNK * srcStep), Wrap(x.d.curDst + CHUNK * dstStep));
      assert pairs[CHUNK] != flat[CHUNK];
    } else {
      FlatUntilReload(env, x, x.d.remCount);
      assert pairs[..x.d.remCount] == pairs;
    }
  }

  /** Writing the control register of an idle immediate channel starts such a transfer of the programmed count. */
  lemma WriteStarts(ch: Channel, d: Dma, val: Control)
    requires ch.Valid() && val.Valid() && !d.cnt.enable && val.enable && d.running == 0 && !d.inProgress
    ensures var e := WriteCnt(ch, d, val);
            StartModeOf(ch, val) % 8 == 0 ==>
              Active(e) && Programmed(e) && e.running == 2 && e.remCount == e.iterCount == UnitsOf(ch, val)
              && 1 <= UnitsOf(ch, val) <= ch.CountMask() + 1
    ensures var e := Start(ch, WriteCnt(ch, d, val));
            Active(e) && Programmed(e) && e.running == 2 && e.remCount == UnitsOf(ch, val)
            && (Chunked(e) || e.iterCount == e.remCount)
  {
  }

  // ---------------------------------------------------------------- burst tables

  /** The index is inside the table's 256 entries; only the empty table can leave it past the terminator. */
  predicate InTable(b: Burst) { b.index < 256 && (b.table == DUMMY || b.index <= |b.table|) }

  lemma TablesNonEmpty(ch: Channel, p: Place, wide: bool)
    ensures |ReadTable(ch, p, wide)| > 0 && |WriteTable(ch, p, wide)| > 0
  {
  }

  lemma NextEntryInTable(b: Burst, reopened: Table, burstStart: bool)
    requires InTable(b) && |reopened| > 0
    ensures var (cycles, c) := NextEntry(b, reopened, burstStart);
            cycles > 0 && InTable(c) && c.index <= |c.table| && c.table != DUMMY
  {
  }

  /** Every unit keeps the burst index in its table, and a unit of a main-RAM burst is never charged zero. */
  lemma TimingsInTable(ch: Channel, places: u32 -> Place, d: Dma, burstStart: bool)
    requires InTable(d.burst)
    ensures var (cycles, b) := UnitTimings(ch, places, d, burstStart);
            && InTable(b) && (b != d.burst ==> b.index <= |b.table|)
            && (places(d.curSrc).region.MainRAM? || places(d.curDst).region.MainRAM? ==> cycles > 0)
  {
    hide ReadTable, WriteTable, EntryAt, Slow;
    TablesNonEmpty(ch, places(d.curDst), d.cnt.wide);
    TablesNonEmpty(ch, places(d.curSrc), d.cnt.wide);
    if |ReadTable(ch, places(d.curDst), d.cnt.wide)| > 0 {
      NextEntryInTable(d.burst, ReadTable(ch, places(d.curDst), d.cnt.wide), burstStart);
      NextEntryInTable(d.burst, WriteTable(ch, places(d.curSrc), d.cnt.wide), burstStart);
    }
  }

  /**
   * A start replaces the table by the empty one but keeps the index, so right
   * after it the index is at or before the terminator exactly if it was zero.
   */
  lemma StartLeavesIndex(ch: Channel, d: Dma)
    requires d.running == 0
    ensures Start(ch, d).burst.index <= |Start(ch, d).burst.table| <==> d.burst.index == 0
    ensures InTable(d.burst) ==> InTable(Start(ch, d).burst)
  {
  }

  lemma {:induction false} LoopInTable<S>(env: Env<S>, x: Transfer<S>, burstStart: bool, slice: Slice, k: nat, now: nat)
    requires 0 < x.d.iterCount <= x.d.remCount && InTable(x.d.burst)
    ensures InTable(Loop(env, x, burstStart, slice, k, now).d.burst)
    decreases x.d.iterCount
  {
    hide UnitTimings, InTable;
    UnitActive(env, x, burstStart);
    TimingsInTable(env.ch, env.places, x.d, burstStart);
    var y := Unit(env, x, burstStart);
    var later := now + y.charged - x.charged;
    if !(y.d.iterCount == 0 || later >= slice.target || slice.stalls(k)) {
      LoopInTable(env, y, false, slice, k + 1, later);
    }
  }

  /** In every run the burst index stays inside its table. */
  lemma {:induction false} EventsInTable<S>(env: Env<S>, x: Transfer<S>, events: seq<Event>)
    requires (x.d.inProgress ==> Active(x.d)) && InTable(x.d.burst)
    ensures InTable(Events(env, x, events).d.burst)
  {
    hide Loop, InTable;
    if events != [] {
      var y := Events(env, x, events[..|events| - 1]);
      EventsInTable(env, x, events[..|events| - 1]);
      if y.d.inProgress {
        match events[|events| - 1]
        case RunSlice(slice) =>
          if y.d.running != 0 && slice.now < slice.target {
            LoopInTable(env, y, y.d.running == 2, slice, 0, slice.now);
          }
        case Restart =>
          if y.d.running == 0 {
            StartLeavesIndex(env.ch, y.d);
          }
      }
    }
  }
}
