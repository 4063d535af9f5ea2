/**
 * Which frames are checkpoints, and what a session has compared by when: stated
 * by the interval and the limit of the configuration alone.
 */
module LockstepCheckpoints {
  import opened Basics
  import opened Messages
  import opened Session
  import opened Lockstep
  import opened LockstepTheorems

  /** The controller's emulator after n frames, asked for a digest at multiples of the interval and at the limit. */
  function ControllerAfter<S>(w: World<S>, n: nat): S {
    if n == 0 then w.initC
    else
      var asked := n % w.cfgC.checkpointInterval == 0 || w.cfgC.testFrameLimit == Some(n);
      w.stepC(ControllerAfter(w, n - 1), w.input(n), asked).0
  }

  /** The display's, from the same snapshot. */
  function DisplayAfter<S>(w: World<S>, n: nat): S {
    if n == 0 then w.initC
    else
      var asked := n % w.cfgD.checkpointInterval == 0 || w.cfgD.testFrameLimit == Some(n);
      w.stepD(DisplayAfter(w, n - 1), w.input(n), asked).0
  }

  /** Asked for a digest at frame n, both phones give one, the same. */
  predicate DigestsAgree<S>(w: World<S>, n: nat)
    requires n >= 1
  {
    var c := w.stepC(ControllerAfter(w, n - 1), w.input(n), true).1;
    var d := w.stepD(DisplayAfter(w, n - 1), w.input(n), true).1;
    c.Some? && d.Some? && c == d
  }

  lemma {:induction false} SameStates<S>(w: World<S>, n: nat)
    ensures StateC(w, n) == ControllerAfter(w, n) && StateD(w, n) == DisplayAfter(w, n)
  {
    if n > 0 {
      SameStates(w, n - 1);
    }
  }

  lemma MatchMeansAgree<S>(w: World<S>, n: nat)
    requires w.cfgC == w.cfgD && n >= 1
    requires n % w.cfgC.checkpointInterval == 0 || w.cfgC.testFrameLimit == Some(n)
    ensures NeedsDigest(w.cfgC, n) && Matches(w, n) == DigestsAgree(w, n)
  {
    hide StateC, StateD, ControllerAfter, DisplayAfter;
    SameStates(w, n - 1);
  }

  lemma MultipleOf(k: nat, interval: Interval)
    requires k >= 1
    ensures k * interval >= 1 && k * interval % interval == 0
  {
    DivisionUnique(k * interval, interval, k, 0);
  }

  /**
   * In every reachable state that is about to send the next input, the digests
   * of both phones exist and agree at every multiple of the interval up to the
   * last frame sent.
   */
  lemma NothingSentPastADifference<S(!new)>(w: World<S>, schedule: seq<Process>, k: nat)
    requires Compatible(w) && Run(w, schedule).cpc.CSendInput?
    requires k >= 1 && k * w.cfgC.checkpointInterval <= Run(w, schedule).frame
    ensures k * w.cfgC.checkpointInterval >= 1 && DigestsAgree(w, k * w.cfgC.checkpointInterval)
  {
    hide Run, Matches, DigestsAgree, NeedsDigest, Inv;
    var f := k * w.cfgC.checkpointInterval;
    RunInv(w, schedule);
    BarrierHolds(w, Run(w, schedule));
    MultipleOf(k, w.cfgC.checkpointInterval);
    MatchMeansAgree(w, f);
  }

  lemma EarlierMatched<S(!new)>(w: World<S>, g: Global<S>)
    requires Inv(w, g)
    ensures AllMatched(w, g.frame - 1)
  {
    hide ChannelsInv, ControllerInv, DisplayInv, Matches, NeedsDigest;
    forall f: nat | 1 <= f <= g.frame - 1 && NeedsDigest(w.cfgC, f)
      ensures Matches(w, f)
    {
      if !Finishing(g.cpc) && f > Acknowledged(g) {
        PendingAt(w, g, f);
      }
    }
  }

  /**
   * A difference stops the session for good: no reachable state, with or without
   * a limit, has gone beyond a multiple of the interval whose digests are missing
   * or differ.
   */
  lemma NeverBeyondADifference<S(!new)>(w: World<S>, schedule: seq<Process>, k: nat)
    requires Compatible(w) && k >= 1 && !DigestsAgreeAt(w, k)
    ensures Run(w, schedule).frame <= k * w.cfgC.checkpointInterval
  {
    hide Run, Matches, DigestsAgree, NeedsDigest, Inv;
    RunInv(w, schedule);
    EarlierMatched(w, Run(w, schedule));
    MultipleOf(k, w.cfgC.checkpointInterval);
    MatchMeansAgree(w, k * w.cfgC.checkpointInterval);
  }

  /** The digests at the k-th multiple of the interval. */
  predicate DigestsAgreeAt<S>(w: World<S>, k: nat)
    requires k >= 1
  {
    MultipleOf(k, w.cfgC.checkpointInterval);
    DigestsAgree(w, k * w.cfgC.checkpointInterval)
  }

  /** The controller drains its window only after a multiple of the interval or at the limit. */
  lemma DrainsOnlyAtCheckpoints<S(!new)>(w: World<S>, schedule: seq<Process>)
    requires Compatible(w) && Run(w, schedule).cpc.CDrain?
    ensures var f := Run(w, schedule).frame;
            f >= 1 && (f % w.cfgC.checkpointInterval == 0 || w.cfgC.testFrameLimit == Some(f))
  {
    hide Run, Matches, AllMatched;
    RunInv(w, schedule);
  }

  /** And at each of these it does, with the frame among the pending ones. */
  lemma DrainsAtEveryCheckpoint<S(!new)>(w: World<S>, g: Global<S>)
    requires g.cpc.CStepFrame?
    ensures var h := Step(w, g, Controller);
            var asked := g.frame % w.cfgC.checkpointInterval == 0 || w.cfgC.testFrameLimit == Some(g.frame);
            && h.cpc == (if asked then CDrain else CLoopHead)
            && h.pending
               == g.pending + [Pending(g.frame, asked, w.stepC(g.stateC, w.input(g.frame), asked).1)]
  {
  }

  /** Quotient and remainder of the next number. */
  lemma NextQuotient(f: nat, i: int)
    requires f >= 1 && i >= 1
    ensures f / i == (f - 1) / i + if f % i == 0 then 1 else 0
  {
    var (q, r) := ((f - 1) / i, (f - 1) % i);
    assert f - 1 == q * i + r;
    if r == i - 1 {
      assert f == (q + 1) * i + 0;
      DivisionUnique(f, i, q + 1, 0);
    } else {
      DivisionUnique(f, i, q, r + 1);
    }
  }

  /** The checkpoints up to a frame below the limit are the multiples of the interval. */
  lemma {:induction false} CountBelowLimit(cfg: Config, f: nat)
    requires cfg.testFrameLimit.Some? ==> f < cfg.testFrameLimit.value
    ensures CheckpointsUpTo(cfg, f) == f / cfg.checkpointInterval
  {
    if f > 0 {
      CountBelowLimit(cfg, f - 1);
      NextQuotient(f, cfg.checkpointInterval);
    } else {
      DivisionUnique(0, cfg.checkpointInterval, 0, 0);
    }
  }

  lemma CountAtLimit(cfg: Config, n: nat)
    requires cfg.testFrameLimit == Some(n)
    ensures CheckpointsUpTo(cfg, n)
            == n / cfg.checkpointInterval + if n % cfg.checkpointInterval == 0 then 0 else 1
  {
    if n > 0 {
      CountBelowLimit(cfg, n - 1);
      NextQuotient(n, cfg.checkpointInterval);
    } else {
      DivisionUnique(0, cfg.checkpointInterval, 0, 0);
    }
  }

  /**
   * How a maximal session limited to n frames ends, by the configuration alone.
   * Success: it has compared one checkpoint per interval, and one more if the
   * limit is not one of them, and all of them agree.  Failure: it stopped at the
   * first frame among them whose digests are missing or differ.
   */
  lemma VerdictByInterval<S(!new)>(w: World<S>, n: nat, schedule: seq<Process>)
    requires Compatible(w) && w.cfgC.testFrameLimit == Some(n)
    requires forall p :: TryStep(w, Run(w, schedule), p).None?
    ensures var (g, i) := (Run(w, schedule), w.cfgC.checkpointInterval);
            && g.cpc.CCompleted? && g.dpc.DCompleted? && g.cpc.success == g.dpc.success
            && (g.cpc.success ==>
                  && g.frame == n && g.checkpoints == g.checkpointsD == n / i + (if n % i == 0 then 0 else 1)
                  && (forall f: nat :: 1 <= f <= n && (f % i == 0 || f == n) ==> DigestsAgree(w, f)))
            && (!g.cpc.success ==>
                  && 1 <= g.frame <= n && (g.frame % i == 0 || g.frame == n) && !DigestsAgree(w, g.frame)
                  && (forall f: nat :: 1 <= f < g.frame && f % i == 0 ==> DigestsAgree(w, f)))
  {
    hide Run, TryStep, Matches, DigestsAgree, CheckpointsUpTo;
    MaximalRunVerdict(w, n, schedule);
    CountAtLimit(w.cfgC, n);
    var g := Run(w, schedule);
    forall f: nat | f >= 1 && (f % w.cfgC.checkpointInterval == 0 || f == n)
      ensures NeedsDigest(w.cfgC, f) && Matches(w, f) == DigestsAgree(w, f)
    {
      MatchMeansAgree(w, f);
    }
  }
}
