/** The promises of the two-phone session, for every schedule of its processes. */
module LockstepTheorems {
  import opened Basics
  import opened Messages
  import opened Session
  import opened Lockstep

  // ---------------------------------------------------------------- agreement

  /** Two emulators that step alike go through the same states. */
  lemma {:induction false} EqualSteps<S(!new)>(w: World<S>, n: nat)
    requires w.stepC == w.stepD && w.cfgC == w.cfgD
    ensures StateC(w, n) == StateD(w, n)
    ensures n >= 1 ==> DigestC(w, n) == DigestD(w, n)
  {
    if n > 0 {
      EqualSteps(w, n - 1);
    }
  }

  /**
   * In every reachable state both phones have applied a prefix of the one sent
   * sequence, the display is at most one frame ahead and at most the window
   * behind; and at equal frame numbers deterministic emulators are in equal states.
   */
  lemma Agreement<S(!new)>(w: World<S>, schedule: seq<Process>)
    requires Compatible(w)
    ensures var g := Run(w, schedule);
            && g.appliedC <= g.sent && g.appliedD <= g.sent
            && |g.appliedD| <= |g.appliedC| + 1
            && |g.appliedC| - |g.appliedD| <= w.cfgC.frameWindow
            && (w.stepC == w.stepD && |g.appliedC| == |g.appliedD| && !Handshaking(g.dpc) ==> g.stateC == g.stateD)
  {
    var g := Run(w, schedule);
    RunInv(w, schedule);
    assert g.completed <= g.frame && Acknowledged(g) <= g.completed by {
      hide ControllerStream, DisplayStream, BarrierInv, NeedsDigest;
    }
    if w.stepC == w.stepD {
      EqualSteps(w, g.completed);
    }
  }

  // ---------------------------------------------------------------- window and barrier

  lemma PendingAt<S(!new)>(w: World<S>, g: Global<S>, f: nat)
    requires WindowInv(w, g) && Acknowledged(g) < f <= SteppedC(g)
    ensures g.pending[f - Acknowledged(g) - 1] == Pending(f, NeedsDigest(w.cfgC, f), DigestC(w, f))
  {
  }

  /** Before an input is sent, every checkpoint among the frames already sent has matched. */
  lemma BarrierHolds<S(!new)>(w: World<S>, g: Global<S>)
    requires Inv(w, g) && (g.cpc.CSendInput? || g.cpc.CAwaitWindow?)
    ensures AllMatched(w, g.frame)
  {
    hide ChannelsInv, ControllerInv, DisplayInv, Matches, NeedsDigest;
    forall f: nat | 1 <= f <= g.frame && NeedsDigest(w.cfgC, f)
      ensures Matches(w, f)
    {
      if f > Acknowledged(g) {
        PendingAt(w, g, f);
        assert false;
      }
    }
  }

  /** The failure return inside the window-full loop is never taken. */
  lemma NoFailureInWindowLoop<S(!new)>(w: World<S>, g: Global<S>)
    requires Inv(w, g) && g.cpc.CAwaitWindow? && g.pending != []
    ensures TakeAck(g).Some? ==> TakeAck(g).value.cpc.CAwaitWindow?
  {
    hide NeedsDigest, DigestC, DigestD, LastDigestC, CheckpointsUpTo;
    InboxHead(w, g);
    assert !g.pending[0].needsDigest;
  }

  /**
   * The pending frames are consecutive, end at the last frame the controller has
   * run and never exceed the window; no input leaves before every earlier
   * checkpoint has matched; and a full window can only be emptied, never failed.
   */
  lemma WindowAndBarrier<S(!new)>(w: World<S>, schedule: seq<Process>)
    requires Compatible(w)
    ensures var g := Run(w, schedule);
            && |g.pending| <= w.cfgC.frameWindow
            && |g.pending| <= |g.appliedC|
            && (forall k :: 0 <= k < |g.pending| ==> g.pending[k].frame == |g.appliedC| - |g.pending| + 1 + k)
            && (g.cpc.CSendInput? ==> AllMatched(w, g.frame) && |g.pending| < w.cfgC.frameWindow)
            && (g.cpc.CAwaitWindow? && |g.pending| >= w.cfgC.frameWindow && TakeAck(g).Some? ==>
                  TakeAck(g).value.cpc.CAwaitWindow?)
  {
    hide ChannelsInv, BarrierInv, AllMatched, TakeAck, NeedsDigest, DigestC;
    var g := Run(w, schedule);
    RunInv(w, schedule);
    if g.cpc.CSendInput? {
      BarrierHolds(w, g);
    }
    if g.cpc.CAwaitWindow? && g.pending != [] {
      NoFailureInWindowLoop(w, g);
    }
  }

  /**
   * When the controller announces the end, successful or not, no acknowledgement
   * is outstanding anywhere, so the next message its inbox can deliver is the
   * acknowledgement of that announcement.
   */
  lemma NothingOutstandingAtFinish<S(!new)>(w: World<S>, schedule: seq<Process>)
    requires Compatible(w) && Run(w, schedule).cpc.CSendFinish?
    ensures var g := Run(w, schedule); g.pending == [] && g.inbox.messages == [] && g.d2c == []
  {
    hide NeedsDigest, ControllerStream, CheckpointsUpTo, AllMatched, Matches;
    RunInv(w, schedule);
  }

  // ---------------------------------------------------------------- no protocol error, no deadlock

  /** Some process can move unless both phones have completed with the same verdict. */
  lemma SomeoneCanMove<S(!new)>(w: World<S>, g: Global<S>)
    requires Compatible(w) && Inv(w, g)
    ensures (exists p :: TryStep(w, g, p).Some?)
            || (g.cpc.CCompleted? && g.dpc.DCompleted? && g.cpc.success == g.dpc.success && g.completed == g.frame)
  {
    hide NeedsDigest, ControllerMessage, DisplayMessage, CheckpointsUpTo, AllMatched, Matches, StateC, StateD;
    assert TryStep(w, g, Controller).Some? || TryStep(w, g, Reader).Some? || TryStep(w, g, Display).Some?
           || (g.cpc.CCompleted? && g.dpc.DCompleted?);
  }

  /** With equal configurations and reliable channels nothing ever throws and nothing deadlocks. */
  lemma HonestRunsNeverFail<S(!new)>(w: World<S>, schedule: seq<Process>)
    requires Compatible(w)
    ensures var g := Run(w, schedule);
            && !g.cpc.CFailed? && !g.dpc.DFailed? && !g.dpc.DSendFailure? && !g.inbox.terminalError
            && ((exists p :: TryStep(w, g, p).Some?)
                || (g.cpc.CCompleted? && g.dpc.DCompleted? && g.cpc.success == g.dpc.success
                    && g.completed == g.frame))
  {
    RunInv(w, schedule);
    SomeoneCanMove(w, Run(w, schedule));
  }

  // ---------------------------------------------------------------- termination and verdict

  function Rank(pc: ControllerPc): nat {
    match pc
    case CAwaitHello => 10
    case CSendHello => 9
    case CSendSnapshot => 8
    case CAwaitReady => 7
    case CSendStart => 6
    case CStepFrame => 7
    case CDrain => 6
    case CLoopHead => 5
    case CAwaitWindow => 4
    case CSendInput => 3
    case CSendFinish(_) => 2
    case CAwaitFinishAck(_) => 1
    case CCompleted(_) => 0
    case CFailed => 0
  }

  /** Twice the frames still to run on the display, and the handshake turns it has left. */
  function DisplayMoves(pc: DisplayPc, completed: nat, n: nat): int {
    2 * (n - completed)
    + match pc
      case DSendHello => 7
      case DAwaitHello => 6
      case DAwaitSnapshot => 5
      case DSendReady => 4
      case DAwaitStart => 3
      case DReceive => 2
      case DSendAck(_) => 3
      case DSendFinishAck(_) => 1
      case _ => 0
  }

  /** An upper bound on the moves left in a session limited to n frames. */
  function Measure<S>(g: Global<S>, n: nat): int {
    DisplayMoves(g.dpc, g.completed, n) + (3 + n - ReceivedByController(g))
    + (n - Acknowledged(g)) + 5 * (n - g.frame) + Rank(g.cpc)
  }

  lemma MeasureIsNatural<S(!new)>(w: World<S>, g: Global<S>, n: nat)
    requires Inv(w, g) && w.cfgC.testFrameLimit == Some(n)
    ensures Measure(g, n) >= 0
  {
    hide ControllerStream, DisplayStream, NeedsDigest, BarrierInv;
  }

  lemma ControllerDecreases<S(!new)>(w: World<S>, g: Global<S>, n: nat)
    requires ControllerInv(w, g) && ControllerStep(w, g).Some? && !ControllerStep(w, g).value.cpc.CFailed?
    ensures Measure(ControllerStep(w, g).value, n) < Measure(g, n)
  {
    hide NeedsDigest, StateC, LimitReached, DisplayMoves;
  }

  lemma HandleDecreases<S(!new)>(w: World<S>, g: Global<S>, n: nat)
    requires (Handshaking(g.dpc) ==> g.completed == 0) && g.c2d != []
    requires g.dpc.DAwaitHello? || g.dpc.DAwaitSnapshot? || g.dpc.DAwaitStart? || g.dpc.DReceive?
    requires var h := DisplayHandle(w, g.(c2d := g.c2d[1..]), g.c2d[0]); !h.dpc.DFailed? && !h.dpc.DSendFailure?
    ensures Measure(DisplayHandle(w, g.(c2d := g.c2d[1..]), g.c2d[0]), n) < Measure(g, n)
  {
    hide NeedsDigest, Rank, ValidHello;
  }

  lemma DisplayDecreases<S(!new)>(w: World<S>, g: Global<S>, n: nat)
    requires Handshaking(g.dpc) ==> g.completed == 0
    requires DisplayStep(w, g).Some? && !DisplayStep(w, g).value.dpc.DFailed? && !g.dpc.DSendFailure?
    requires !DisplayStep(w, g).value.dpc.DSendFailure?
    ensures Measure(DisplayStep(w, g).value, n) < Measure(g, n)
  {
    hide NeedsDigest, DisplayHandle, Rank;
    if g.c2d != [] && (g.dpc.DAwaitHello? || g.dpc.DAwaitSnapshot? || g.dpc.DAwaitStart? || g.dpc.DReceive?) {
      HandleDecreases(w, g, n);
    }
  }

  lemma ReaderDecreases<S(!new)>(g: Global<S>, n: nat)
    requires ReaderStep(g).Some? && !ReaderStep(g).value.inbox.terminalError
    ensures Measure(ReaderStep(g).value, n) < Measure(g, n)
  {
  }

  lemma StepDecreases<S(!new)>(w: World<S>, g: Global<S>, n: nat, p: Process)
    requires Compatible(w) && Inv(w, g) && TryStep(w, g, p).Some?
    ensures Measure(Step(w, g, p), n) < Measure(g, n)
  {
    StepKeeps(w, g, p);
    hide WindowInv, BarrierInv, ControllerStream, DisplayStream, StateC, StateD, Measure;
    hide ControllerStep, DisplayStep, ReaderStep;
    match p
    case Controller => ControllerDecreases(w, g, n);
    case Reader => ReaderDecreases(g, n);
    case Display => DisplayDecreases(w, g, n);
  }

  /** A session limited to n frames makes at most 9n + 20 moves, however it is scheduled. */
  lemma {:induction false} BoundedMoves<S(!new)>(w: World<S>, n: nat, schedule: seq<Process>)
    requires Compatible(w) && w.cfgC.testFrameLimit == Some(n)
    ensures EffectiveSteps(w, schedule) + Measure(Run(w, schedule), n) <= 9 * n + 20
    ensures EffectiveSteps(w, schedule) <= 9 * n + 20
  {
    if schedule != [] {
      var front, p := schedule[..|schedule| - 1], schedule[|schedule| - 1];
      var g := Run(w, front);
      BoundedMoves(w, n, front);
      RunInv(w, front);
      hide Inv, Measure, TryStep;
      if TryStep(w, g, p).Some? {
        StepDecreases(w, g, n, p);
      }
    }
    RunInv(w, schedule);
    MeasureIsNatural(w, Run(w, schedule), n);
  }

  /**
   * How every maximal run of a session limited to n frames ends: both phones
   * complete with the same verdict and frame count, having applied the same
   * inputs.  The verdict is success exactly when every checkpoint up to n
   * matched; a failure stops at the first checkpoint that did not.
   */
  lemma MaximalRunVerdict<S(!new)>(w: World<S>, n: nat, schedule: seq<Process>)
    requires Compatible(w) && w.cfgC.testFrameLimit == Some(n)
    requires forall p :: TryStep(w, Run(w, schedule), p).None?
    ensures var g := Run(w, schedule);
            && g.cpc.CCompleted? && g.dpc.DCompleted? && g.cpc.success == g.dpc.success
            && g.frame == g.completed && g.appliedC == g.appliedD == g.sent == Inputs(w, g.frame)
            && (g.cpc.success <==> AllMatched(w, n))
            && (g.cpc.success ==> g.frame == n)
            && (!g.cpc.success ==>
                  1 <= g.frame <= n && NeedsDigest(w.cfgC, g.frame) && !Matches(w, g.frame)
                  && AllMatched(w, g.frame - 1))
            && g.checkpoints == g.checkpointsD == CheckpointsUpTo(w.cfgC, g.frame)
            && g.lastDigest == LastDigestC(w, g.frame) && g.lastDigestD == LastDigestD(w, g.frame)
  {
    hide TryStep, ChannelsInv, NeedsDigest, Matches, CheckpointsUpTo, LastDigestC, LastDigestD, StateC, StateD;
    var g := Run(w, schedule);
    RunInv(w, schedule);
    SomeoneCanMove(w, g);
  }

  /** A successful session reports the same final digest on both phones. */
  lemma {:induction false} SuccessMeansEqualDigests<S(!new)>(w: World<S>, n: nat)
    requires w.cfgC == w.cfgD && AllMatched(w, n)
    ensures LastDigestC(w, n) == LastDigestD(w, n)
  {
    if n > 0 && !NeedsDigest(w.cfgC, n) {
      SuccessMeansEqualDigests(w, n - 1);
    } else if n > 0 {
      assert Matches(w, n);
    }
  }

  /** Deterministic emulators that always produce their digests always succeed. */
  lemma DeterministicRunsSucceed<S(!new)>(w: World<S>, n: nat, schedule: seq<Process>)
    requires Compatible(w) && w.cfgC.testFrameLimit == Some(n) && w.stepC == w.stepD
    requires forall s, i :: w.stepC(s, i, true).1.Some?
    requires forall p :: TryStep(w, Run(w, schedule), p).None?
    ensures var g := Run(w, schedule); g.cpc == CCompleted(true) && g.dpc == DCompleted(true) && g.frame == n
  {
    hide NeedsDigest;
    forall f: nat | 1 <= f <= n && NeedsDigest(w.cfgC, f)
      ensures Matches(w, f)
    {
      EqualSteps(w, f);
      EqualSteps(w, f - 1);
    }
    MaximalRunVerdict(w, n, schedule);
  }
}
