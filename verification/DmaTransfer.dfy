/**
 * The DMA channels: a copy engine that can be preempted after every unit, that
 * feeds the geometry FIFO in chunks of 112 units, and that charges main-RAM
 * bursts from tables.
 */
module DmaTransfer {
  import opened Basics

  // ---------------------------------------------------------------- burst tables

  /** The entries of a table before its zero terminator; all tables have 256 entries. */
  type Table = t: seq<nat> | |t| < 256 && forall i :: 0 <= i < |t| ==> t[i] > 0 witness []

  const DUMMY: Table := []

  /** Cycles for entry i, zero from the terminator on. */
  function EntryAt(t: Table, i: nat): nat { if i < |t| then t[i] else 0 }

  /** A burst that costs `first` and `second` at the start of every period, `again` when it reopens, else `usual`. */
  function Bursts(length: nat, period: nat, first: nat, again: nat, second: nat, usual: nat): Table
    requires length < 256 && period > 1 && first > 0 && again > 0 && second > 0 && usual > 0
  {
    seq(length, i requires 0 <= i < length =>
      if i == 0 then first else if i % period == 0 then again else if i % period == 1 then second else usual)
  }

  function Read16(k: int): Table
    requires 0 <= k < 3
  {
    if k == 0 then Bursts(240, 119, 7, 7, 3, 2)
    else if k == 1 then Bursts(96, 255, 8, 8, 6, 5)
    else Bursts(240, 34, 10, 12, 8, 7)
  }

  function Read32(k: int): Table
    requires 0 <= k < 4
  {
    if k == 0 then Bursts(80, 79, 9, 9, 4, 3)
    else if k == 1 then Bursts(118, 255, 9, 9, 3, 2)
    else if k == 2 then Bursts(136, 27, 14, 13, 10, 9)
    else Bursts(96, 19, 18, 17, 14, 13)
  }

  function Write16(k: int): Table
    requires 0 <= k < 3
  {
    if k == 0 then Bursts(120, 255, 8, 8, 2, 2)
    else if k == 1 then Bursts(48, 255, 10, 10, 5, 5)
    else Bursts(35, 255, 9, 9, 7, 7)
  }

  function Write32(k: int): Table
    requires 0 <= k < 4
  {
    if k == 0 then Bursts(60, 255, 9, 9, 4, 4)
    else if k == 1 then Bursts(80, 255, 9, 9, 3, 3)
    else if k == 2 then Bursts(24, 255, 15, 15, 10, 10)
    else Bursts(18, 255, 16, 16, 14, 14)
  }

  // ---------------------------------------------------------------- the channel's state

  /** Memory regions; `Elsewhere` stands for the others, which share no bus with each other. */
  datatype Region = MainRAM | GBAROM | Wifi0 | Wifi1 | Elsewhere(bit: nat) | Unmapped

  /** Where an address is and what its first and following accesses cost, by width. */
  datatype Place = Place(region: Region, n16: nat, s16: nat, n32: nat, s32: nat)

  datatype Channel = Channel(arm7: bool, num: int) {
    predicate Valid() { 0 <= num < 4 }

    function CountMask(): nat {
      if !arm7 then 0x001F_FFFF else if num == 3 then 0x0000_FFFF else 0x0000_3FFF
    }
  }

  /** The fields of the control register. */
  datatype Control = Control(
    enable: bool, irq: bool, wide: bool, repeating: bool, startBits: int, srcMode: int, dstMode: int, count: nat)
  {
    predicate Valid() {
      0 <= startBits < 8 && 0 <= srcMode < 4 && 0 <= dstMode < 4 && count < 0x20_0000
    }
  }

  const RELOAD := 3

  type Step = s: int | -1 <= s <= 1 witness 0

  function IncOf(mode: int): Step { if mode == 1 then -1 else if mode == 2 then 0 else 1 }

  /** The place in the current main-RAM burst. */
  datatype Burst = Burst(index: nat, table: Table)

  /** 0 while waiting, 2 from the start to the first unit, 1 from then on. */
  type Phase = r: int | 0 <= r < 3

  datatype Dma = Dma(
    srcAddr: u32, dstAddr: u32, cnt: Control, startMode: int, curSrc: u32, curDst: u32,
    remCount: nat, iterCount: nat, srcInc: Step, dstInc: Step, running: Phase, inProgress: bool,
    burst: Burst)

  const GXFIFO_MODE := 7

  const CHUNK := 112

  function StartModeOf(ch: Channel, cnt: Control): int {
    if ch.arm7 then cnt.startBits / 2 + 0x10 else cnt.startBits
  }

  // ---------------------------------------------------------------- starting

  /** The programmed number of units; zero stands for the whole range of the counter. */
  function UnitsOf(ch: Channel, cnt: Control): nat {
    var n := cnt.count % (ch.CountMask() + 1);
    if n == 0 then ch.CountMask() + 1 else n
  }

  function Start(ch: Channel, d: Dma): Dma {
    if d.running > 0 then d
    else
      var rem := if d.inProgress then d.remCount else UnitsOf(ch, d.cnt);
      d.(remCount := rem,
         iterCount := if d.startMode == GXFIFO_MODE && rem > CHUNK then CHUNK else rem,
         curSrc := if d.cnt.srcMode == RELOAD then d.srcAddr else d.curSrc,
         curDst := if d.cnt.dstMode == RELOAD then d.dstAddr else d.curDst,
         running := 2, burst := d.burst.(table := DUMMY), inProgress := true)
  }

  function WriteCnt(ch: Channel, d: Dma, val: Control): Dma {
    if !d.cnt.enable && val.enable then
      var t := d.(cnt := val, curSrc := d.srcAddr, curDst := d.dstAddr,
                  srcInc := IncOf(val.srcMode), dstInc := IncOf(val.dstMode), startMode := StartModeOf(ch, val));
      if t.startMode % 8 == 0 then Start(ch, t) else t
    else d.(cnt := val)
  }

  // ---------------------------------------------------------------- the cost of a unit

  predicate Slow(ch: Channel, r: Region) { r.GBAROM? || (ch.arm7 && (r.Wifi0? || r.Wifi1?)) }

  function First(p: Place, wide: bool): nat { if wide then p.n32 else p.n16 }

  function Following(p: Place, wide: bool): nat { if wide then p.s32 else p.s16 }

  function ReadTable(ch: Channel, dst: Place, wide: bool): Table {
    if wide then
      if Slow(ch, dst.region) then Read32(if dst.s32 == 8 then 2 else 3) else Read32(if dst.n32 == 2 then 0 else 1)
    else
      if Slow(ch, dst.region) then Read16(if dst.s16 == 4 then 1 else 2) else Read16(0)
  }

  function WriteTable(ch: Channel, src: Place, wide: bool): Table {
    if wide then
      if Slow(ch, src.region) then Write32(if src.s32 == 8 then 2 else 3) else Write32(if src.n32 == 2 then 0 else 1)
    else
      if Slow(ch, src.region) then Write16(if src.s16 == 4 then 1 else 2) else Write16(0)
  }

  /** The next table entry, from a new table at the start of a burst or at the old one's terminator. */
  function NextEntry(b: Burst, reopened: Table, burstStart: bool): (nat, Burst) {
    var c := if burstStart || EntryAt(b.table, b.index) == 0 then Burst(0, reopened) else b;
    (EntryAt(c.table, c.index), c.(index := c.index + 1))
  }

  /** The four `UnitTimings` functions: cycles for the unit at the current addresses, and the burst state after it. */
  function UnitTimings(ch: Channel, places: u32 -> Place, d: Dma, burstStart: bool): (nat, Burst) {
    var (src, dst, wide, b) := (places(d.curSrc), places(d.curDst), d.cnt.wide, d.burst);
    if src.region.MainRAM? then
      if dst.region.MainRAM? then (if wide then 18 else 16, b)
      else if d.srcInc > 0 then NextEntry(b, ReadTable(ch, dst, wide), burstStart)
      else
        (LastInBlock(d.curSrc, dst, wide) + if burstStart then First(dst, wide) else Following(dst, wide), b)
    else if dst.region.MainRAM? then
      if d.dstInc > 0 then NextEntry(b, WriteTable(ch, src, wide), burstStart)
      else ((if burstStart then First(src, wide) else Following(src, wide)) + if wide then 8 else 7, b)
    else if src.region == dst.region && !src.region.Unmapped? then (First(src, wide) + First(dst, wide) + 1, b)
    else if burstStart then (First(src, wide) + First(dst, wide), b)
    else (Following(src, wide) + Following(dst, wide), b)
  }

  /** A read against the burst direction is cheaper at the end of a 32-byte block. */
  function LastInBlock(src: u32, dst: Place, wide: bool): nat {
    if wide then
      if src % 32 == 0x1C then if dst.n32 == 2 then 7 else 8 else 9
    else
      if src % 32 == 0x1E then 7 else 8
  }

  // ---------------------------------------------------------------- running

  /** The world a channel runs in: what a unit does to memory, and what its accesses cost. */
  datatype Env<!S> = Env(
    ch: Channel, places: u32 -> Place, copy: (S, u32, u32, bool) -> S, scale: nat)

  /** The channel, memory, cycles charged so far, and the address pairs moved so far. */
  datatype Transfer<!S> = Transfer(d: Dma, bus: S, charged: nat, moved: seq<(u32, u32)>)

  function WidthOf(d: Dma): int { if d.cnt.wide then 4 else 2 }

  /** One unit: charge for it, move it, advance the addresses. */
  function Unit<S>(env: Env<S>, x: Transfer<S>, burstStart: bool): Transfer<S>
    requires x.d.iterCount > 0 && x.d.remCount > 0
  {
    var (cycles, burst) := UnitTimings(env.ch, env.places, x.d, burstStart);
    Transfer(
      x.d.(curSrc := Wrap(x.d.curSrc + x.d.srcInc * WidthOf(x.d)),
        curDst := Wrap(x.d.curDst + x.d.dstInc * WidthOf(x.d)),
         iterCount := x.d.iterCount - 1, remCount := x.d.remCount - 1, running := 1, burst := burst),
      env.copy(x.bus, x.d.curSrc, x.d.curDst, x.d.cnt.wide),
      x.charged + cycles * env.scale, x.moved + [(x.d.curSrc, x.d.curDst)])
  }

  /** What `Run` does once its loop has ended: the end of a chunk, or of the transfer. */
  function Settle(d: Dma): Dma {
    if d.remCount > 0 then if d.iterCount == 0 then d.(running := 0) else d
    else d.(running := 0, inProgress := false, cnt := if d.cnt.repeating then d.cnt else d.cnt.(enable := false))
  }

  predicate Active(d: Dma) {
    d.inProgress && d.remCount > 0 && d.iterCount <= d.remCount && (d.running > 0 <==> d.iterCount > 0)
  }

  /** A time slice: the clock on entry, the clock to reach, and the units after which a stall is requested. */
  datatype Slice = Slice(now: nat, target: nat, stalls: nat -> bool)

  /** The loop of `Run`, `k` units into the slice. */
  function Loop<S>(env: Env<S>, x: Transfer<S>, burstStart: bool, slice: Slice, k: nat, now: nat): Transfer<S>
    requires 0 < x.d.iterCount <= x.d.remCount
    decreases x.d.iterCount
  {
    var y := Unit(env, x, burstStart);
    var later := now + y.charged - x.charged;
    if y.d.iterCount == 0 || later >= slice.target || slice.stalls(k) then y
    else Loop(env, y, false, slice, k + 1, later)
  }

  function Run<S>(env: Env<S>, x: Transfer<S>, slice: Slice): Transfer<S>
    requires Active(x.d)
  {
    if x.d.running == 0 || slice.now >= slice.target then x
    else
      var y := Loop(env, x, x.d.running == 2, slice, 0, slice.now);
      y.(d := Settle(y.d))
  }
}
