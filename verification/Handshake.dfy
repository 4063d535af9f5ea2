/** The handshake admits exactly the sessions it should, for arbitrary phones. */
module Handshake {
  import opened Basics
  import opened Messages
  import opened Session

  /** Both phones hold the same ROM and the display reloaded the controller's exact state. */
  predicate Verified<S>(w: World<S>) {
    && w.cfgC.romSHA256 == w.cfgD.romSHA256
    && w.load(w.save(w.initC)).Some?
    && w.hash(w.load(w.save(w.initC)).value) == w.hash(w.initC)
  }

  predicate FromController<S>(w: World<S>, m: TwoPhoneMessage) {
    && (m.Hello? ==> m.romSHA256 == w.cfgC.romSHA256)
    && (m.Snapshot? ==> m.state == w.save(w.initC) && m.stateHash == w.hash(w.initC))
  }

  predicate FromDisplay<S>(w: World<S>, m: TwoPhoneMessage) {
    && (m.Hello? ==> m.romSHA256 == w.cfgD.romSHA256)
    && (m.Ready? ==> Verified(w))
  }

  predicate SameRom<S>(w: World<S>) { w.cfgC.romSHA256 == w.cfgD.romSHA256 }

  predicate AllFromController<S>(w: World<S>, queue: seq<TwoPhoneMessage>) {
    forall k :: 0 <= k < |queue| ==> FromController(w, queue[k])
  }

  predicate AllFromDisplay<S>(w: World<S>, queue: seq<TwoPhoneMessage>) {
    forall k :: 0 <= k < |queue| ==> FromDisplay(w, queue[k])
  }

  ghost predicate GuardInv<S(!new)>(w: World<S>, g: Global<S>) {
    && (!ReaderStarted(g.cpc) ==> g.stateC == w.initC)
    && AllFromController(w, g.c2d)
    && AllFromDisplay(w, g.d2c)
    && (!g.dpc.DSendHello? && !g.dpc.DAwaitHello? && !g.dpc.DFailed? ==> SameRom(w))
    && (!g.dpc.DSendHello? && !g.dpc.DAwaitHello? && !g.dpc.DAwaitSnapshot? && !g.dpc.DSendFailure? && !g.dpc.DFailed?
        ==> Verified(w))
    && (g.cpc.CSendStart? || (ReaderStarted(g.cpc) && !g.cpc.CFailed?) ==> Verified(w))
    && (g.sent != [] || g.appliedC != [] || g.appliedD != [] ==> Verified(w))
  }

  lemma ControllerSends<S>(w: World<S>, queue: seq<TwoPhoneMessage>, m: TwoPhoneMessage)
    requires AllFromController(w, queue) && FromController(w, m)
    ensures AllFromController(w, queue + [m])
  {
    hide FromController;
  }

  lemma DisplaySends<S>(w: World<S>, queue: seq<TwoPhoneMessage>, m: TwoPhoneMessage)
    requires AllFromDisplay(w, queue) && FromDisplay(w, m)
    ensures AllFromDisplay(w, queue + [m])
  {
    hide FromDisplay;
  }

  lemma HeadFromController<S>(w: World<S>, queue: seq<TwoPhoneMessage>)
    requires AllFromController(w, queue) && queue != []
    ensures FromController(w, queue[0]) && AllFromController(w, queue[1..])
  {
    hide FromController;
  }

  lemma HeadFromDisplay<S>(w: World<S>, queue: seq<TwoPhoneMessage>)
    requires AllFromDisplay(w, queue) && queue != []
    ensures FromDisplay(w, queue[0]) && AllFromDisplay(w, queue[1..])
  {
    hide FromDisplay;
  }

  lemma GuardControllerStep<S(!new)>(w: World<S>, g: Global<S>)
    requires GuardInv(w, g) && ControllerStep(w, g).Some?
    ensures GuardInv(w, ControllerStep(w, g).value)
  {
    hide NeedsDigest, ReceiveAcknowledgement, LimitReached, InboxNext, AllFromController, AllFromDisplay, Verified,
      SameRom;
    if g.d2c != [] {
      HeadFromDisplay(w, g.d2c);
    }
    match g.cpc
    case CSendHello => ControllerSends(w, g.c2d, Hello(PROTOCOL_VERSION, w.cfgC.romSHA256));
    case CSendSnapshot => ControllerSends(w, g.c2d, Snapshot(w.save(g.stateC), w.hash(g.stateC)));
    case CSendStart => ControllerSends(w, g.c2d, Start);
    case CSendInput => ControllerSends(w, g.c2d, Input(w.input(g.frame + 1)));
    case CSendFinish(success) => ControllerSends(w, g.c2d, Finish(g.frame, success, []));
    case _ =>
  }

  lemma GuardReaderStep<S(!new)>(w: World<S>, g: Global<S>)
    requires GuardInv(w, g) && ReaderStep(g).Some?
    ensures GuardInv(w, ReaderStep(g).value)
  {
    hide Verified, AllFromController, AllFromDisplay, InboxDeliver;
    if g.d2c != [] {
      HeadFromDisplay(w, g.d2c);
    }
  }

  lemma GuardHandle<S(!new)>(w: World<S>, g: Global<S>)
    requires GuardInv(w, g) && g.c2d != []
    ensures GuardInv(w, DisplayHandle(w, g.(c2d := g.c2d[1..]), g.c2d[0]))
  {
    hide NeedsDigest, AllFromController, AllFromDisplay;
    HeadFromController(w, g.c2d);
  }

  lemma GuardDisplayStep<S(!new)>(w: World<S>, g: Global<S>)
    requires GuardInv(w, g) && DisplayStep(w, g).Some?
    ensures GuardInv(w, DisplayStep(w, g).value)
  {
    hide DisplayHandle, AllFromController, AllFromDisplay, Verified, SameRom;
    if g.c2d != [] {
      GuardHandle(w, g);
    }
    match g.dpc
    case DSendHello => DisplaySends(w, g.d2c, Hello(PROTOCOL_VERSION, w.cfgD.romSHA256));
    case DSendReady => DisplaySends(w, g.d2c, Ready);
    case DSendFailure => DisplaySends(w, g.d2c, Failure([]));
    case DSendAck(digest) =>
      DisplaySends(w, g.d2c, Acknowledgement(FrameAcknowledgement(g.completed, digest, w.nanoseconds(g.completed))));
    case DSendFinishAck(_) => DisplaySends(w, g.d2c, FinishAcknowledgement);
    case _ =>
  }

  lemma GuardStep<S(!new)>(w: World<S>, g: Global<S>, p: Process)
    requires GuardInv(w, g)
    ensures GuardInv(w, Step(w, g, p))
  {
    hide GuardInv, ControllerStep, ReaderStep, DisplayStep;
    if TryStep(w, g, p).Some? {
      match p
      case Controller => GuardControllerStep(w, g);
      case Reader => GuardReaderStep(w, g);
      case Display => GuardDisplayStep(w, g);
    }
  }

  lemma {:induction false} GuardRun<S(!new)>(w: World<S>, schedule: seq<Process>)
    ensures GuardInv(w, Run(w, schedule))
  {
    if schedule != [] {
      GuardRun(w, schedule[..|schedule| - 1]);
      GuardStep(w, Run(w, schedule[..|schedule| - 1]), schedule[|schedule| - 1]);
    }
  }

  /**
   * Whatever the two phones are configured with, no input is ever sent and no
   * frame is ever run on either phone unless the ROM hashes agree and the
   * reloaded snapshot hashes to the controller's state.
   */
  lemma NoFrameBeforeVerification<S(!new)>(w: World<S>, schedule: seq<Process>)
    ensures var g := Run(w, schedule); g.sent != [] || g.appliedC != [] || g.appliedD != [] ==> Verified(w)
  {
    GuardRun(w, schedule);
  }
}
