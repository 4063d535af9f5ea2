/** A DMA channel as the object the emulator updates in place, proved against `DmaTransfer`. */
module DmaChannel {
  import opened Basics
  import opened DmaTransfer
  import opened DmaTheorems

  class DmaChannel<S(!new)> {
    const env: Env<S>

    var srcAddr: u32
    var dstAddr: u32
    var cnt: Control
    var startMode: int
    var curSrc: u32
    var curDst: u32
    var remCount: nat
    var iterCount: nat
    var srcInc: Step
    var dstInc: Step
    var running: Phase
    var inProgress: bool
    var burst: Burst

    // memory, the cycles charged to the clock, and the units moved
    var bus: S
    var charged: nat
    ghost var moved: seq<(u32, u32)>

    constructor (env: Env<S>, bus: S)
      ensures this.env == env && this.bus == bus && running == 0 && !inProgress && !cnt.enable && cnt.Valid()
      ensures InTable(burst) && charged == 0 && moved == []
    {
      this.env, this.bus, charged, moved := env, bus, 0, [];
      srcAddr, dstAddr, cnt := 0, 0, Control(false, false, false, false, 0, 0, 0, 0);
      startMode, curSrc, curDst, remCount, iterCount, srcInc, dstInc := 0, 0, 0, 0, 0, 0, 0;
      running, inProgress, burst := 0, false, Burst(0, DUMMY);
    }

    ghost function Registers(): Dma
      reads this
    {
      Dma(srcAddr, dstAddr, cnt, startMode, curSrc, curDst, remCount, iterCount, srcInc, dstInc,
              running, inProgress, burst)
    }

    ghost function State(): Transfer<S>
      reads this
    {
      Transfer(Registers(), bus, charged, moved)
    }

    /** The count field, where zero stands for one more than the largest count. */
    method ProgrammedCount() returns (n: nat)
      ensures n == UnitsOf(env.ch, cnt)
    {
      n := cnt.count % (env.ch.CountMask() + 1);
      if n == 0 {
        n := env.ch.CountMask() + 1;
      }
    }

    method Start()
      modifies this`remCount, this`iterCount, this`curSrc, this`curDst, this`running, this`burst, this`inProgress
      ensures Registers() == DmaTransfer.Start(env.ch, old(Registers()))
    {
      hide UnitsOf;
      if running != 0 {
        return;
      }
      if !inProgress {
        remCount := ProgrammedCount();
      }
      iterCount := if startMode == GXFIFO_MODE && remCount > CHUNK then CHUNK else remCount;
      if cnt.srcMode == RELOAD {
        curSrc := srcAddr;
      }
      if cnt.dstMode == RELOAD {
        curDst := dstAddr;
      }
      running, burst, inProgress := 2, burst.(table := DUMMY), true;
    }

    method Program(val: Control)
      modifies this`cnt, this`curSrc, this`curDst, this`srcInc, this`dstInc, this`startMode
      ensures cnt == val && curSrc == srcAddr && curDst == dstAddr && startMode == StartModeOf(env.ch, val)
      ensures srcInc == IncOf(val.srcMode) && dstInc == IncOf(val.dstMode)
    {
      cnt := val;
      curSrc, curDst := srcAddr, dstAddr;
      dstInc := if val.dstMode == 1 then -1 else if val.dstMode == 2 then 0 else 1;
      srcInc := if val.srcMode == 1 then -1 else if val.srcMode == 2 then 0 else 1;
      startMode := if env.ch.arm7 then val.startBits / 2 + 0x10 else val.startBits;
    }

    method WriteCnt(val: Control)
      modifies this
      ensures Registers() == DmaTransfer.WriteCnt(env.ch, old(Registers()), val)
      ensures bus == old(bus) && charged == old(charged) && moved == old(moved)
    {
      hide DmaTransfer.Start, IncOf, StartModeOf;
      if !cnt.enable && val.enable {
        Program(val);
        if startMode % 8 == 0 {
          Start();
        }
      } else {
        cnt := val;
      }
    }

    /** Charge for a unit at the current addresses. */
    method Charge(burstStart: bool) returns (cycles: nat)
      modifies this`burst, this`charged
      ensures var (units, next) := UnitTimings(env.ch, env.places, old(Registers()), burstStart);
              cycles == units * env.scale && burst == next && charged == old(charged) + cycles
    {
      hide UnitTimings;
      var d := Dma(srcAddr, dstAddr, cnt, startMode, curSrc, curDst, remCount, iterCount, srcInc, dstInc,
                   running, inProgress, burst);
      var (units, next) := UnitTimings(env.ch, env.places, d, burstStart);
      Product(units, env.scale);
      cycles := units * env.scale;
      charged, burst := charged + cycles, next;
    }

    method Advance()
      requires iterCount > 0 && remCount > 0
      modifies this`curSrc, this`curDst, this`iterCount, this`remCount, this`running
      ensures curSrc == Wrap(old(curSrc) + srcInc * WidthOf(old(Registers())))
      ensures curDst == Wrap(old(curDst) + dstInc * WidthOf(old(Registers())))
      ensures iterCount == old(iterCount) - 1 && remCount == old(remCount) - 1 && running == 1
    {
      hide Wrap;
      var width := if cnt.wide then 4 else 2;
      curSrc := Wrap(curSrc + srcInc * width);
      curDst := Wrap(curDst + dstInc * width);
      iterCount := iterCount - 1;
      remCount := remCount - 1;
      running := 1;
    }

    /** One turn of the loop of `Run`. */
    method MoveUnit(burstStart: bool) returns (cycles: nat)
      requires iterCount > 0 && remCount > 0
      modifies this
      ensures State() == Unit(env, old(State()), burstStart) && charged == old(charged) + cycles
    {
      hide UnitTimings, Wrap, WidthOf;
      ghost var d := Registers();
      cycles := Charge(burstStart);
      bus := env.copy(bus, curSrc, curDst, cnt.wide);
      moved := moved + [(curSrc, curDst)];
      SameWidth(d, Registers());
      Advance();
    }

    /** The end of `Run`: of a chunk, or of the transfer. */
    method EndSlice()
      modifies this`cnt, this`running, this`inProgress
      ensures Registers() == Settle(old(Registers()))
    {
      if remCount > 0 {
        if iterCount == 0 {
          running := 0;
        }
        return;
      }
      if !cnt.repeating {
        cnt := cnt.(enable := false);
      }
      running, inProgress := 0, false;
    }

    /** The loop of `Run`. */
    method RunUnits(slice: Slice)
      requires 0 < iterCount <= remCount
      modifies this
      ensures State() == Loop(env, old(State()), old(running) == 2, slice, 0, slice.now)
    {
      hide Unit, Loop;
      ghost var x := State();
      var burstStart, now: nat, k: nat, more := running == 2, slice.now, 0, true;
      assert FromHere(env, x, burstStart, slice, k, now, more) == Loop(env, x, running == 2, slice, 0, slice.now);
      while more
        invariant more ==> 0 < iterCount <= remCount
        invariant FromHere(env, State(), burstStart, slice, k, now, more)
                  == FromHere(env, x, x.d.running == 2, slice, 0, slice.now, true)
        decreases iterCount, more
      {
        LoopTurn(env, State(), burstStart, slice, k, now);
        var cycles := MoveUnit(burstStart);
        now := now + cycles;
        more := MoreToDo(iterCount, slice, k, now);
        burstStart, k := false, k + 1;
      }
    }

    /** One slice of time: units until the chunk ends, the clock reaches the target, or a stall is requested. */
    method Run(slice: Slice)
      requires Active(Registers())
      modifies this
      ensures State() == DmaTransfer.Run(env, old(State()), slice)
    {
      hide Loop, Settle;
      if running == 0 || slice.now >= slice.target {
        return;
      }
      RunUnits(slice);
      EndSlice();
    }
  }

  /** What the loop still does from x, if it goes on. */
  ghost function FromHere<S>(
    env: Env<S>, x: Transfer<S>, burstStart: bool, slice: Slice, k: nat, now: nat, more: bool): Transfer<S>
    requires more ==> 0 < x.d.iterCount <= x.d.remCount
  {
    if more then Loop(env, x, burstStart, slice, k, now) else x
  }

  predicate MoreToDo(iterCount: nat, slice: Slice, k: nat, now: nat) {
    iterCount > 0 && now < slice.target && !slice.stalls(k)
  }

  lemma LoopTurn<S>(env: Env<S>, x: Transfer<S>, burstStart: bool, slice: Slice, k: nat, now: nat)
    requires 0 < x.d.iterCount <= x.d.remCount
    ensures var y := Unit(env, x, burstStart);
            var later := now + y.charged - x.charged;
            && later >= 0 && y.d.iterCount == x.d.iterCount - 1 && y.d.iterCount <= y.d.remCount
            && Loop(env, x, burstStart, slice, k, now)
               == FromHere(env, y, false, slice, k + 1, later, MoreToDo(y.d.iterCount, slice, k, later))
  {
    hide Unit, UnitTimings, Wrap;
    UnitActive(env, x, burstStart);
  }

  lemma SameWidth(d: Dma, e: Dma)
    requires d.cnt == e.cnt
    ensures WidthOf(d) == WidthOf(e)
  {
  }
}
