/**
 * What a write of a DMA control register does, by its bits alone: when the
 * channel starts, how many units it moves and between which addresses; and what
 * the units of a main-RAM burst cost, entry by entry.
 */
module DmaPrograms {
  import opened Basics
  import opened DmaTransfer
  import opened DmaTheorems

  /** The fields of a value written to the control register. */
  function Decoded(val: u32): Control {
    Control(val / 0x8000_0000 == 1, val / 0x4000_0000 % 2 == 1, val / 0x400_0000 % 2 == 1, val / 0x200_0000 % 2 == 1,
            val / 0x800_0000 % 8, val / 0x80_0000 % 4, val / 0x20_0000 % 4, val % 0x20_0000)
  }

  lemma DecodedValid(val: u32)
    ensures Decoded(val).Valid()
  {
  }

  // ---------------------------------------------------------------- starting

  /** A channel at rest, about to be enabled. */
  predicate Idle(d: Dma) { !d.cnt.enable && d.running == 0 && !d.inProgress }

  /**
   * Enabling an idle channel starts it at once exactly if the start field is
   * zero: bits 27 to 29 on the ARM9, bits 28 and 29 on the ARM7.  Otherwise it
   * waits for its trigger.
   */
  lemma StartsAtOnce(ch: Channel, d: Dma, val: u32)
    requires ch.Valid() && Idle(d) && val >= 0x8000_0000
    ensures var e := WriteCnt(ch, d, Decoded(val));
            && (e.running == 2 <==> if ch.arm7 then val / 0x1000_0000 % 4 == 0 else val / 0x800_0000 % 8 == 0)
            && (e.running == 0 || e.running == 2) && (e.inProgress <==> e.running == 2)
            && e.startMode == (if ch.arm7 then 0x10 + val / 0x1000_0000 % 4 else val / 0x800_0000 % 8)
            && e.srcAddr == d.srcAddr && e.dstAddr == d.dstAddr && e.cnt == Decoded(val)
  {
    hide Start, Decoded;
    StartModeIs(ch, val);
    assert Decoded(val).enable by { EnableIs(val); }
    var cnt := Decoded(val);
    StartKeepsProgram(ch, d.(cnt := cnt, startMode := StartModeOf(ch, cnt), curSrc := d.srcAddr, curDst := d.dstAddr,
                             srcInc := IncOf(cnt.srcMode), dstInc := IncOf(cnt.dstMode)));
  }

  lemma EnableIs(val: u32)
    ensures Decoded(val).enable <==> val >= 0x8000_0000
  {
  }

  lemma StartModeIs(ch: Channel, val: u32)
    ensures StartModeOf(ch, Decoded(val))
            == if ch.arm7 then 0x10 + val / 0x1000_0000 % 4 else val / 0x800_0000 % 8
    ensures StartModeOf(ch, Decoded(val)) % 8 == 0
            <==> if ch.arm7 then val / 0x1000_0000 % 4 == 0 else val / 0x800_0000 % 8 == 0
  {
    hide Wrap;
    ShiftedField(val);
    if !ch.arm7 {
      var mode := val / 0x800_0000 % 8;
      assert 0 <= mode < 8;
    }
  }

  lemma ShiftedField(val: u32)
    ensures val / 0x800_0000 % 8 / 2 == val / 0x1000_0000 % 4
  {
    var bits := val / 0x800_0000;
    assert val / 0x1000_0000 == bits / 2;
    assert bits % 8 / 2 == bits / 2 % 4;
  }

  lemma StartKeepsProgram(ch: Channel, d: Dma)
    requires d.running == 0 && !d.inProgress
    ensures var e := Start(ch, d);
            e.running == 2 && e.inProgress && e.startMode == d.startMode && e.cnt == d.cnt
            && e.srcAddr == d.srcAddr && e.dstAddr == d.dstAddr && e.srcInc == d.srcInc && e.dstInc == d.dstInc
  {
  }

  /** A write that does not enable a disabled channel only replaces the control register. */
  lemma OnlyEnablingPrograms(ch: Channel, d: Dma, val: u32)
    requires d.cnt.enable || val < 0x8000_0000
    ensures WriteCnt(ch, d, Decoded(val)) == d.(cnt := Decoded(val))
  {
  }

  /** The number of units: the count field, of a width that depends on the channel, with zero for the maximum. */
  function Count(ch: Channel, val: u32): nat {
    if !ch.arm7 then if val % 0x20_0000 == 0 then 0x20_0000 else val % 0x20_0000
    else if ch.num == 3 then if val % 0x1_0000 == 0 then 0x1_0000 else val % 0x1_0000
    else if val % 0x4000 == 0 then 0x4000 else val % 0x4000
  }

  function Width(val: u32): int { if val / 0x400_0000 % 2 == 1 then 4 else 2 }

  /** Only the geometry FIFO trigger of the ARM9 moves its units in chunks. */
  predicate InChunks(ch: Channel, val: u32) { !ch.arm7 && val / 0x800_0000 % 8 == 7 }

  // ---------------------------------------------------------------- where unit k goes

  /**
   * The address of unit k on a side with this base and address mode: upwards for
   * mode 0, downwards for 1, the base for 2; for mode 3 upwards too, but from the
   * base again with every chunk of 112 units.
   */
  function AddressAt(base: int, mode: int, width: int, chunks: bool, k: nat): int {
    if mode == 1 then (base - k * width) % 0x1_0000_0000
    else if mode == 2 then base
    else if mode == 3 && chunks then (base + k % 112 * width) % 0x1_0000_0000
    else (base + k * width) % 0x1_0000_0000
  }

  /** A channel that has moved i units of a transfer programmed by val, in the middle of a chunk. */
  predicate Midway(ch: Channel, d: Dma, val: u32, i: nat) {
    && d.cnt == Decoded(val) && Active(d) && d.running > 0
    && d.srcInc == IncOf(d.cnt.srcMode) && d.dstInc == IncOf(d.cnt.dstMode)
    && (d.startMode == 7 <==> InChunks(ch, val))
    && (InChunks(ch, val) ==> i % 112 + d.iterCount <= 112
                              && (d.iterCount == d.remCount || i % 112 + d.iterCount == 112))
    && (!InChunks(ch, val) ==> d.iterCount == d.remCount)
    && d.curSrc == AddressAt(d.srcAddr, d.cnt.srcMode, Width(val), InChunks(ch, val), i)
    && d.curDst == AddressAt(d.dstAddr, d.cnt.dstMode, Width(val), InChunks(ch, val), i)
  }

  lemma StepUp(base: int, width: int, k: int)
    ensures Wrap((base + k * width) % 0x1_0000_0000 + width) == (base + (k + 1) * width) % 0x1_0000_0000
  {
    assert base + (k + 1) * width == base + k * width + width;
    WrapTwice(base + k * width, width);
  }

  lemma StepDown(base: int, width: int, k: int)
    ensures Wrap((base - k * width) % 0x1_0000_0000 - width) == (base - (k + 1) * width) % 0x1_0000_0000
  {
    assert base - (k + 1) * width == base - k * width - width;
    WrapTwice(base - k * width, 0 - width);
  }

  /** One step up, not across the end of a chunk. */
  lemma UpNext(base: u32, mode: int, width: int, chunks: bool, k: nat)
    requires mode == 0 || mode == 3
    requires chunks && mode == 3 ==> k % 112 < 111
    ensures Wrap(AddressAt(base, mode, width, chunks, k) + width) == AddressAt(base, mode, width, chunks, k + 1)
  {
    hide Wrap;
    if mode == 3 && chunks {
      var j := k % 112;
      assert (k + 1) % 112 == j + 1 by { NextInChunk(k); }
      StepUp(base, width, j);
    } else {
      StepUp(base, width, k);
    }
  }

  lemma NextInChunk(k: nat)
    requires k % 112 < 111
    ensures (k + 1) % 112 == k % 112 + 1
  {
  }

  lemma DownNext(base: u32, width: int, chunks: bool, k: nat)
    ensures Wrap(AddressAt(base, 1, width, chunks, k) - width) == AddressAt(base, 1, width, chunks, k + 1)
  {
    hide Wrap;
    StepDown(base, width, k);
  }

  lemma Stays(base: u32, width: int, chunks: bool, k: nat)
    ensures Wrap(AddressAt(base, 2, width, chunks, k)) == AddressAt(base, 2, width, chunks, k + 1)
  {
    WrapSmall(base);
  }

  /** One step along a side, inside a chunk. */
  lemma AddressNext(base: u32, mode: int, width: int, chunks: bool, k: nat)
    requires 0 <= mode < 4 && (chunks && mode == 3 ==> k % 112 < 111)
    ensures Wrap(AddressAt(base, mode, width, chunks, k) + IncOf(mode) * width)
            == AddressAt(base, mode, width, chunks, k + 1)
  {
    hide Wrap, AddressAt;
    if mode == 1 {
      DownNext(base, width, chunks, k);
    } else if mode == 2 {
      Stays(base, width, chunks, k);
    } else {
      UpNext(base, mode, width, chunks, k);
    }
  }

  /** At the end of a chunk the reload does the step of mode 3, the last unit that of the others. */
  lemma ChunkNext(base: u32, mode: int, width: int, k: nat)
    requires 0 <= mode < 4 && k % 112 == 111
    ensures (if mode == 3 then base else Wrap(AddressAt(base, mode, width, true, k) + IncOf(mode) * width))
            == AddressAt(base, mode, width, true, k + 1)
  {
    hide Wrap;
    if mode == 3 {
      assert (k + 1) % 112 == 0;
    } else {
      AddressNext(base, mode, width, true, k);
    }
  }

  /** After one unit, and the restart if that was the last of its chunk, the next one is due. */
  lemma MidwayNext<S>(env: Env<S>, x: Transfer<S>, val: u32, i: nat) returns (y: Transfer<S>)
    requires env.ch.Valid() && Midway(env.ch, x.d, val, i) && x.d.remCount > 1
    ensures Midway(env.ch, y.d, val, i + 1) && y.d.remCount == x.d.remCount - 1
    ensures y.d.srcAddr == x.d.srcAddr && y.d.dstAddr == x.d.dstAddr
    ensures Pairs(env, x) == [(x.d.curSrc, x.d.curDst)] + Pairs(env, y)
  {
    hide Unit, Wrap, IncOf, AddressAt, Pairs, Decoded;
    var d := x.d;
    var chunks := InChunks(env.ch, val);
    DecodedValid(val);
    UnitActive(env, x, d.running == 2);
    assert WidthOf(d) == Width(val) by { WidthIs(d, val); }
    var z := UnitAndSettle(env, x);
    PairsStep(env, x);
    if d.iterCount > 1 {
      y := z;
      AddressNext(d.srcAddr, d.cnt.srcMode, Width(val), chunks, i);
      AddressNext(d.dstAddr, d.cnt.dstMode, Width(val), chunks, i);
      assert chunks ==> (i + 1) % 112 == i % 112 + 1;
    } else {
      assert chunks && i % 112 == 111 && (i + 1) % 112 == 0;
      ChunkNext(d.srcAddr, d.cnt.srcMode, Width(val), i);
      ChunkNext(d.dstAddr, d.cnt.dstMode, Width(val), i);
      StartActive(env.ch, z.d);
      y := z.(d := Start(env.ch, z.d));
      PairsRestart(env, z);
    }
  }

  lemma WidthIs(d: Dma, val: u32)
    requires d.cnt == Decoded(val)
    ensures WidthOf(d) == Width(val)
  {
  }

  lemma PairsStep<S>(env: Env<S>, x: Transfer<S>)
    requires Active(x.d) && x.d.running > 0
    ensures var z := UnitAndSettle(env, x);
            (z.d.inProgress ==> Active(z.d)) && Pairs(env, x) == [(x.d.curSrc, x.d.curDst)] + Pairs(env, z)
  {
    hide Unit;
    UnitActive(env, x, x.d.running == 2);
  }

  lemma PairsRestart<S>(env: Env<S>, z: Transfer<S>)
    requires Active(z.d) && z.d.running == 0
    ensures Active(Start(env.ch, z.d)) && Pairs(env, z) == Pairs(env, z.(d := Start(env.ch, z.d)))
  {
    StartActive(env.ch, z.d);
  }

  lemma {:induction false} PairsAt<S>(env: Env<S>, x: Transfer<S>, val: u32, i: nat, k: nat)
    requires env.ch.Valid() && Midway(env.ch, x.d, val, i) && k < x.d.remCount && |Pairs(env, x)| == x.d.remCount
    ensures var chunks := InChunks(env.ch, val);
            Pairs(env, x)[k]
            == (AddressAt(x.d.srcAddr, val / 0x80_0000 % 4, Width(val), chunks, i + k),
                AddressAt(x.d.dstAddr, val / 0x20_0000 % 4, Width(val), chunks, i + k))
    decreases k
  {
    hide AddressAt, Pairs, Width, InChunks, IncOf, Decoded, Active;
    ModesAre(val);
    if k == 0 {
      FirstPair(env, x, val, i);
    } else {
      var y := MidwayNext(env, x, val, i);
      MovesExactlyTheCount(env, y);
      PairsAt(env, y, val, i + 1, k - 1);
      assert Pairs(env, x)[k] == Pairs(env, y)[k - 1];
    }
  }

  lemma ModesAre(val: u32)
    ensures Decoded(val).srcMode == val / 0x80_0000 % 4 && Decoded(val).dstMode == val / 0x20_0000 % 4
  {
  }

  lemma FirstPair<S>(env: Env<S>, x: Transfer<S>, val: u32, i: nat)
    requires Active(x.d) && x.d.running > 0
    ensures |Pairs(env, x)| > 0 && Pairs(env, x)[0] == (x.d.curSrc, x.d.curDst)
  {
    hide Pairs, UnitAndSettle;
    PairsStep(env, x);
  }

  /** A channel that was enabled and then started, at once or by its trigger, is at the beginning. */
  lemma StartedMidway(ch: Channel, d: Dma, val: u32)
    requires ch.Valid() && Idle(d) && val >= 0x8000_0000
    ensures var e := Start(ch, WriteCnt(ch, d, Decoded(val)));
            && Midway(ch, e, val, 0) && e.running == 2 && e.remCount == Count(ch, val)
            && e.iterCount == (if InChunks(ch, val) && Count(ch, val) > 112 then 112 else Count(ch, val))
            && e.srcAddr == d.srcAddr && e.dstAddr == d.dstAddr
  {
    hide Decoded, IncOf, AddressAt, StartModeOf;
    StartModeIs(ch, val);
    DecodedValid(val);
    EnableIs(val);
    CountIs(ch, val);
    FirstAddress(d.srcAddr, Decoded(val).srcMode, Width(val), InChunks(ch, val));
    FirstAddress(d.dstAddr, Decoded(val).dstMode, Width(val), InChunks(ch, val));
    assert Active(Start(ch, WriteCnt(ch, d, Decoded(val))));
  }

  lemma FirstAddress(base: u32, mode: int, width: int, chunks: bool)
    ensures AddressAt(base, mode, width, chunks, 0) == base
  {
  }

  lemma CountIs(ch: Channel, val: u32)
    requires ch.Valid()
    ensures UnitsOf(ch, Decoded(val)) == Count(ch, val) > 0
  {
    Below(val, 0x1_0000, 32);
    Below(val, 0x4000, 128);
  }

  lemma Below(val: int, m: int, f: int)
    requires m > 0 && f > 0
    ensures val % (m * f) % m == val % m
  {
    var (q, r) := (val / (m * f), val % (m * f));
    assert m * f > 0;
    assert val == q * (m * f) + r;
    assert q * (m * f) == (q * f) * m;
    DivisionUnique(val, m, q * f + r / m, r % m);
  }

  /**
   * The whole transfer of an enabled and started channel, however it is later
   * preempted: it moves as many units as the count field says, unit k between
   * the addresses that the address modes give, and nothing else happens to memory.
   */
  lemma MovesAsProgrammed<S>(env: Env<S>, x: Transfer<S>, val: u32, k: nat)
    requires env.ch.Valid() && Idle(x.d) && val >= 0x8000_0000
    ensures var (ch, chunks) := (env.ch, InChunks(env.ch, val));
            var y := x.(d := Start(ch, WriteCnt(ch, x.d, Decoded(val))));
            && Active(y.d) && |Pairs(env, y)| == Count(ch, val)
            && (k < Count(ch, val) ==>
                  Pairs(env, y)[k]
                  == (AddressAt(x.d.srcAddr, val / 0x80_0000 % 4, Width(val), chunks, k),
                      AddressAt(x.d.dstAddr, val / 0x20_0000 % 4, Width(val), chunks, k)))
            && Complete(env, y).moved == x.moved + Pairs(env, y)
            && Complete(env, y).bus == CopyAll(env, x.bus, Pairs(env, y), val / 0x400_0000 % 2 == 1)
  {
    hide AddressAt, Pairs, Width, Complete, CopyAll, InChunks, Count;
    StartedMidway(env.ch, x.d, val);
    var y := x.(d := Start(env.ch, WriteCnt(env.ch, x.d, Decoded(val))));
    MovesExactlyTheCount(env, y);
    if k < Count(env.ch, val) {
      PairsAt(env, y, val, 0, k);
    }
  }

  /** At its end the channel is at rest, still enabled exactly if bit 25 asks it to repeat. */
  lemma {:induction false} EndsAtRest<S>(env: Env<S>, x: Transfer<S>)
    requires Active(x.d)
    ensures var d := Complete(env, x).d;
            && d.running == 0 && !d.inProgress && d.remCount == 0
            && d.srcAddr == x.d.srcAddr && d.dstAddr == x.d.dstAddr
            && d.cnt == if x.d.cnt.repeating then x.d.cnt else x.d.cnt.(enable := false)
    decreases x.d.remCount, if x.d.running == 0 then 1 else 0
  {
    hide Unit, Wrap;
    if x.d.running == 0 {
      StartActive(env.ch, x.d);
      EndsAtRest(env, x.(d := Start(env.ch, x.d)));
    } else {
      UnitActive(env, x, x.d.running == 2);
      var z := UnitAndSettle(env, x);
      if z.d.inProgress {
        EndsAtRest(env, z);
      }
    }
  }

  // ---------------------------------------------------------------- how far a slice goes

  /** After j units in a row; only the first one may open a burst. */
  function After<S>(env: Env<S>, x: Transfer<S>, start: bool, j: nat): (y: Transfer<S>)
    requires j <= x.d.iterCount <= x.d.remCount
    ensures y.d.iterCount == x.d.iterCount - j && y.d.remCount == x.d.remCount - j
  {
    if j == 0 then x else Unit(env, After(env, x, start, j - 1), start && j == 1)
  }

  lemma {:induction false} AfterFirst<S>(env: Env<S>, x: Transfer<S>, start: bool, j: nat)
    requires 1 <= j <= x.d.iterCount <= x.d.remCount
    ensures After(env, x, start, j) == After(env, Unit(env, x, start), false, j - 1)
  {
    hide Unit;
    UnitActive(env, x, start);
    if j > 1 {
      AfterFirst(env, x, start, j - 1);
    }
  }

  /** After j units the chunk has ended, the clock has reached its target, or a stall was asked for. */
  predicate Stops<S>(env: Env<S>, x: Transfer<S>, start: bool, slice: Slice, k: nat, now: nat, j: nat)
    requires 1 <= j <= x.d.iterCount <= x.d.remCount
  {
    var y := After(env, x, start, j);
    y.d.iterCount == 0 || now + y.charged - x.charged >= slice.target || slice.stalls(k + j - 1)
  }

  lemma StopsLater<S>(env: Env<S>, x: Transfer<S>, start: bool, slice: Slice, k: nat, now: nat, j: nat)
    requires 2 <= j <= x.d.iterCount <= x.d.remCount
    ensures var y := Unit(env, x, start);
            var later := now + y.charged - x.charged;
            && y.d.iterCount == x.d.iterCount - 1 && y.d.remCount == x.d.remCount - 1 && later >= 0
            && Stops(env, x, start, slice, k, now, j) == Stops(env, y, false, slice, k + 1, later, j - 1)
  {
    hide Unit, After;
    UnitActive(env, x, start);
    AfterFirst(env, x, start, j);
  }

  /** The loop of a slice ends with the first unit after which it has to. */
  lemma {:induction false} LoopStopsFirst<S>(
    env: Env<S>, x: Transfer<S>, start: bool, slice: Slice, k: nat, now: nat) returns (n: nat)
    requires 0 < x.d.iterCount <= x.d.remCount
    ensures 1 <= n <= x.d.iterCount && Loop(env, x, start, slice, k, now) == After(env, x, start, n)
    ensures Stops(env, x, start, slice, k, now, n)
    ensures forall j :: 1 <= j < n ==> !Stops(env, x, start, slice, k, now, j)
    decreases x.d.iterCount
  {
    hide Unit, Stops;
    UnitActive(env, x, start);
    var y := Unit(env, x, start);
    AfterFirst(env, x, start, 1);
    StopsFirst(env, x, start, slice, k, now);
    if Stops(env, x, start, slice, k, now, 1) {
      n := 1;
    } else {
      var later := now + y.charged - x.charged;
      n := LoopStopsFirst(env, y, false, slice, k + 1, later);
      n := n + 1;
      AfterFirst(env, x, start, n);
      forall j | 2 <= j <= n
        ensures Stops(env, x, start, slice, k, now, j) == Stops(env, y, false, slice, k + 1, later, j - 1)
      {
        StopsLater(env, x, start, slice, k, now, j);
      }
    }
  }

  lemma StopsFirst<S>(env: Env<S>, x: Transfer<S>, start: bool, slice: Slice, k: nat, now: nat)
    requires 0 < x.d.iterCount <= x.d.remCount
    ensures var y := Unit(env, x, start);
            Stops(env, x, start, slice, k, now, 1)
            <==> y.d.iterCount == 0 || now + y.charged - x.charged >= slice.target || slice.stalls(k)
  {
    hide Unit;
    assert After(env, x, start, 1) == Unit(env, After(env, x, start, 0), start);
  }

  /**
   * A slice moves at least one unit unless the clock has already reached its
   * target, and stops with the first one after which it must; the first unit
   * after a start opens the burst.  The channel rests after a chunk, and is done
   * after the last unit.
   */
  lemma SliceStopsFirst<S>(env: Env<S>, x: Transfer<S>, slice: Slice) returns (n: nat)
    requires Active(x.d)
    ensures x.d.running == 0 || slice.now >= slice.target ==> n == 0 && Run(env, x, slice) == x
    ensures x.d.running > 0 && slice.now < slice.target ==>
              var start := x.d.running == 2;
              && 1 <= n <= x.d.iterCount && Stops(env, x, start, slice, 0, slice.now, n)
              && (forall j :: 1 <= j < n ==> !Stops(env, x, start, slice, 0, slice.now, j))
              && var (y, r) := (After(env, x, start, n), Run(env, x, slice));
              && r.bus == y.bus && r.charged == y.charged && r.moved == y.moved
              && r.d.remCount == x.d.remCount - n && r.d.curSrc == y.d.curSrc && r.d.curDst == y.d.curDst
              && (r.d.running == if n < x.d.iterCount then 1 else 0)
              && (r.d.inProgress <==> n < x.d.remCount)
              && r.d.cnt.enable == (x.d.cnt.enable && (n < x.d.remCount || x.d.cnt.repeating))
  {
    hide Unit, Stops, Loop;
    n := 0;
    if x.d.running > 0 && slice.now < slice.target {
      n := LoopStopsFirst(env, x, x.d.running == 2, slice, 0, slice.now);
      AfterKeeps(env, x, x.d.running == 2, n);
    }
  }

  lemma {:induction false} AfterKeeps<S>(env: Env<S>, x: Transfer<S>, start: bool, j: nat)
    requires 1 <= j <= x.d.iterCount <= x.d.remCount
    ensures var d := After(env, x, start, j).d;
            d.running == 1 && d.inProgress == x.d.inProgress && d.cnt == x.d.cnt
  {
    hide Unit;
    if j > 1 {
      AfterKeeps(env, x, start, j - 1);
    }
    UnitActive(env, After(env, x, start, j - 1), start && j == 1);
  }

  /** One unit: its cost times the clock ratio, one copy of its width, both addresses one step on. */
  lemma OneUnit<S>(env: Env<S>, x: Transfer<S>, start: bool)
    requires x.d.iterCount > 0 && x.d.remCount > 0
    ensures var y := Unit(env, x, start);
            var (cycles, burst) := UnitTimings(env.ch, env.places, x.d, start);
            var width := if x.d.cnt.wide then 4 else 2;
            && y.charged == x.charged + cycles * env.scale && y.d.burst == burst
            && y.bus == env.copy(x.bus, x.d.curSrc, x.d.curDst, x.d.cnt.wide)
            && y.d.curSrc == (x.d.curSrc + x.d.srcInc * width) % 0x1_0000_0000
            && y.d.curDst == (x.d.curDst + x.d.dstInc * width) % 0x1_0000_0000
  {
    hide UnitTimings;
  }

  // ---------------------------------------------------------------- what a unit costs

  /** The first access of either side, and the following ones. */
  function Access(p: Place, wide: bool, start: bool): nat {
    if wide then if start then p.n32 else p.s32 else if start then p.n16 else p.s16
  }

  /** Units that need no table: main RAM on both sides, against the burst direction, or on neither side. */
  lemma PlainCosts(ch: Channel, places: u32 -> Place, d: Dma, start: bool)
    ensures var (src, dst, wide) := (places(d.curSrc), places(d.curDst), d.cnt.wide);
            var (cycles, b) := UnitTimings(ch, places, d, start);
            var (fromRam, toRam) := (src.region == MainRAM, dst.region == MainRAM);
            && (fromRam && toRam ==> cycles == (if wide then 18 else 16) && b == d.burst)
            && (fromRam && !toRam && d.srcInc <= 0 ==>
                  && cycles == Access(dst, wide, start)
                               + (if wide then if d.curSrc % 32 != 28 then 9 else if dst.n32 == 2 then 7 else 8
                                  else if d.curSrc % 32 == 30 then 7 else 8)
                  && b == d.burst)
            && (!fromRam && toRam && d.dstInc <= 0 ==>
                  cycles == Access(src, wide, start) + (if wide then 8 else 7) && b == d.burst)
            && (!fromRam && !toRam ==>
                  && cycles == (if src.region == dst.region != Unmapped
                                then Access(src, wide, true) + Access(dst, wide, true) + 1
                                else Access(src, wide, start) + Access(dst, wide, start))
                  && b == d.burst)
  {
  }

  /** The place whose bus decides on the table of a burst: the other side's. */
  predicate FromRam(places: u32 -> Place, d: Dma) {
    places(d.curSrc).region == MainRAM != places(d.curDst).region && d.srcInc > 0
  }

  predicate ToRam(places: u32 -> Place, d: Dma) {
    places(d.curDst).region == MainRAM != places(d.curSrc).region && d.dstInc > 0
  }

  /** Cartridge memory, and the wireless memory of the ARM7. */
  predicate OnCartridgeBus(ch: Channel, p: Place) {
    p.region == GBAROM || (ch.arm7 && (p.region == Wifi0 || p.region == Wifi1))
  }

  /** A table of n entries: the usual cost everywhere but at the listed places. */
  predicate Entries(t: Table, n: nat, usual: nat, at: map<nat, nat>) {
    |t| == n && forall i: nat :: i < n ==> t[i] == if i in at then at[i] else usual
  }

  /** The burst that opens with the first unit of a transfer from main RAM, 16 bits wide. */
  lemma ReadBursts16(ch: Channel, places: u32 -> Place, d: Dma)
    requires FromRam(places, d) && !d.cnt.wide && !OnCartridgeBus(ch, places(d.curDst))
    ensures var (cycles, b) := UnitTimings(ch, places, d, true);
            && b.index == 1 && |b.table| > 0 && cycles == b.table[0]
            && Entries(b.table, 240, 2, map[0 := 7, 1 := 3, 119 := 7, 120 := 3, 238 := 7, 239 := 3])
  {
  }

  /** 16 bits wide, to the cartridge bus. */
  lemma ReadBurstsCartridge16(ch: Channel, places: u32 -> Place, d: Dma)
    requires FromRam(places, d) && !d.cnt.wide && OnCartridgeBus(ch, places(d.curDst))
    ensures var (cycles, b) := UnitTimings(ch, places, d, true);
            && b.index == 1 && |b.table| > 0 && cycles == b.table[0]
            && (places(d.curDst).s16 == 4 ==> Entries(b.table, 96, 5, map[0 := 8, 1 := 6]))
            && (places(d.curDst).s16 != 4 ==>
                  Entries(b.table, 240, 7,
                          map[0 := 10, 1 := 8, 34 := 12, 35 := 8, 68 := 12, 69 := 8, 102 := 12, 103 := 8, 136 := 12,
                              137 := 8, 170 := 12, 171 := 8, 204 := 12, 205 := 8, 238 := 12, 239 := 8]))
  {
  }

  /** 32 bits wide. */
  lemma ReadBursts32(ch: Channel, places: u32 -> Place, d: Dma)
    requires FromRam(places, d) && d.cnt.wide && !OnCartridgeBus(ch, places(d.curDst))
    ensures var (cycles, b) := UnitTimings(ch, places, d, true);
            && b.index == 1 && |b.table| > 0 && cycles == b.table[0]
            && (places(d.curDst).n32 == 2 ==> Entries(b.table, 80, 3, map[0 := 9, 1 := 4, 79 := 9]))
            && (places(d.curDst).n32 != 2 ==> Entries(b.table, 118, 2, map[0 := 9, 1 := 3]))
  {
  }

  /** 32 bits wide, to the cartridge bus. */
  lemma ReadBurstsCartridge32(ch: Channel, places: u32 -> Place, d: Dma)
    requires FromRam(places, d) && d.cnt.wide && OnCartridgeBus(ch, places(d.curDst))
    ensures var (cycles, b) := UnitTimings(ch, places, d, true);
            && b.index == 1 && |b.table| > 0 && cycles == b.table[0]
            && (places(d.curDst).s32 == 8 ==>
                  Entries(b.table, 136, 9,
                          map[0 := 14, 1 := 10, 27 := 13, 28 := 10, 54 := 13, 55 := 10, 81 := 13, 82 := 10, 108 := 13,
                              109 := 10, 135 := 13]))
            && (places(d.curDst).s32 != 8 ==>
                  Entries(b.table, 96, 13,
                          map[0 := 18, 1 := 14, 19 := 17, 20 := 14, 38 := 17, 39 := 14, 57 := 17, 58 := 14, 76 := 17,
                              77 := 14, 95 := 17]))
  {
  }

  /** The burst that opens with the first unit of a transfer to main RAM, of either width. */
  lemma WriteBursts(ch: Channel, places: u32 -> Place, d: Dma)
    requires ToRam(places, d)
    ensures var (cycles, b) := UnitTimings(ch, places, d, true);
            var (src, wide) := (places(d.curSrc), d.cnt.wide);
            && b.index == 1 && |b.table| > 0 && cycles == b.table[0]
            && (!wide && !OnCartridgeBus(ch, src) ==> Entries(b.table, 120, 2, map[0 := 8]))
            && (!wide && OnCartridgeBus(ch, src) && src.s16 == 4 ==> Entries(b.table, 48, 5, map[0 := 10]))
            && (!wide && OnCartridgeBus(ch, src) && src.s16 != 4 ==> Entries(b.table, 35, 7, map[0 := 9]))
            && (wide && !OnCartridgeBus(ch, src) && src.n32 == 2 ==> Entries(b.table, 60, 4, map[0 := 9]))
            && (wide && !OnCartridgeBus(ch, src) && src.n32 != 2 ==> Entries(b.table, 80, 3, map[0 := 9]))
            && (wide && OnCartridgeBus(ch, src) && src.s32 == 8 ==> Entries(b.table, 24, 10, map[0 := 15]))
            && (wide && OnCartridgeBus(ch, src) && src.s32 != 8 ==> Entries(b.table, 18, 14, map[0 := 16]))
  {
  }

  /** Later units take the next entry; behind the last one the burst opens again. */
  lemma BurstGoesOn(ch: Channel, places: u32 -> Place, d: Dma)
    requires FromRam(places, d) || ToRam(places, d)
    ensures UnitTimings(ch, places, d, false)
            == if d.burst.index < |d.burst.table|
               then (d.burst.table[d.burst.index], Burst(d.burst.index + 1, d.burst.table))
               else UnitTimings(ch, places, d, true)
  {
    hide ReadTable, WriteTable;
  }
}
