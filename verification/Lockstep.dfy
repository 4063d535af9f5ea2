/** What every run of a two-phone session keeps, and how every run ends. */
module Lockstep {
  import opened Basics
  import opened Messages
  import opened Session

  /** Equal configurations, an exact snapshot, and inputs tagged with their own frame. */
  ghost predicate Compatible<S(!new)>(w: World<S>) {
    && w.cfgC == w.cfgD
    && w.load(w.save(w.initC)) == Some(w.initC)
    && forall f: nat :: w.input(f).frame == f
  }

  // ---------------------------------------------------------------- reference behaviour

  function StateC<S>(w: World<S>, n: nat): S {
    if n == 0 then w.initC else w.stepC(StateC(w, n - 1), w.input(n), NeedsDigest(w.cfgC, n)).0
  }

  /** The display starts from the controller's snapshot. */
  function StateD<S>(w: World<S>, n: nat): S {
    if n == 0 then w.initC else w.stepD(StateD(w, n - 1), w.input(n), NeedsDigest(w.cfgD, n)).0
  }

  function DigestC<S>(w: World<S>, n: nat): Option<EmulatorDigest>
    requires n >= 1
  {
    w.stepC(StateC(w, n - 1), w.input(n), NeedsDigest(w.cfgC, n)).1
  }

  function DigestD<S>(w: World<S>, n: nat): Option<EmulatorDigest>
    requires n >= 1
  {
    w.stepD(StateD(w, n - 1), w.input(n), NeedsDigest(w.cfgD, n)).1
  }

  /** Both phones produced a digest for frame n and the digests are equal. */
  predicate Matches<S>(w: World<S>, n: nat)
    requires n >= 1
  {
    DigestC(w, n).Some? && DigestD(w, n).Some? && DigestC(w, n) == DigestD(w, n)
  }

  ghost predicate AllMatched<S>(w: World<S>, n: int) {
    forall f: nat :: 1 <= f <= n && NeedsDigest(w.cfgC, f) ==> Matches(w, f)
  }

  function Inputs<S>(w: World<S>, n: nat): seq<DSInputFrame> {
    seq(n, i requires 0 <= i => w.input(i + 1))
  }

  function CheckpointsUpTo(cfg: Config, n: nat): nat {
    if n == 0 then 0 else CheckpointsUpTo(cfg, n - 1) + if NeedsDigest(cfg, n) then 1 else 0
  }

  /** The controller's digest at the last checkpoint up to frame n. */
  function LastDigestC<S>(w: World<S>, n: nat): Option<EmulatorDigest> {
    if n == 0 then None else if NeedsDigest(w.cfgC, n) then DigestC(w, n) else LastDigestC(w, n - 1)
  }

  function LastDigestD<S>(w: World<S>, n: nat): Option<EmulatorDigest> {
    if n == 0 then None else if NeedsDigest(w.cfgD, n) then DigestD(w, n) else LastDigestD(w, n - 1)
  }

  // ---------------------------------------------------------------- message streams

  predicate Finishing(pc: ControllerPc) { pc.CSendFinish? || pc.CAwaitFinishAck? || pc.CCompleted? }

  predicate Handshaking(pc: DisplayPc) {
    pc.DSendHello? || pc.DAwaitHello? || pc.DAwaitSnapshot? || pc.DSendReady? || pc.DAwaitStart?
  }

  predicate Succeeding(pc: ControllerPc) { Finishing(pc) && pc.success }

  /** The i-th message the controller ever sends. */
  function ControllerMessage<S>(w: World<S>, frame: nat, success: bool, i: int): TwoPhoneMessage {
    if i <= 0 then Hello(PROTOCOL_VERSION, w.cfgC.romSHA256)
    else if i == 1 then Snapshot(w.save(w.initC), w.hash(w.initC))
    else if i == 2 then Start
    else if i - 2 <= frame then Input(w.input(i - 2))
    else Finish(frame, success, [])
  }

  /** The i-th message the display ever sends. */
  function DisplayMessage<S>(w: World<S>, completed: nat, i: int): TwoPhoneMessage {
    if i <= 0 then Hello(PROTOCOL_VERSION, w.cfgD.romSHA256)
    else if i == 1 then Ready
    else if i - 1 <= completed then
      Acknowledgement(FrameAcknowledgement(i - 1, DigestD(w, i - 1), w.nanoseconds(i - 1)))
    else FinishAcknowledgement
  }

  function ControllerStream<S>(w: World<S>, frame: nat, success: bool, lo: int, hi: int): seq<TwoPhoneMessage>
    decreases hi - lo
  {
    if lo >= hi then []
    else [ControllerMessage(w, frame, success, lo)] + ControllerStream(w, frame, success, lo + 1, hi)
  }

  function DisplayStream<S>(w: World<S>, completed: nat, lo: int, hi: int): seq<TwoPhoneMessage>
    decreases hi - lo
  {
    if lo >= hi then [] else [DisplayMessage(w, completed, lo)] + DisplayStream(w, completed, lo + 1, hi)
  }

  lemma {:induction false} ControllerStreamExtend<S>(w: World<S>, frame: nat, success: bool, lo: int, hi: int)
    requires lo <= hi
    ensures ControllerStream(w, frame, success, lo, hi + 1)
            == ControllerStream(w, frame, success, lo, hi) + [ControllerMessage(w, frame, success, hi)]
    decreases hi - lo
  {
    if lo < hi {
      ControllerStreamExtend(w, frame, success, lo + 1, hi);
    }
  }

  lemma {:induction false} DisplayStreamExtend<S>(w: World<S>, completed: nat, lo: int, hi: int)
    requires lo <= hi
    ensures DisplayStream(w, completed, lo, hi + 1)
            == DisplayStream(w, completed, lo, hi) + [DisplayMessage(w, completed, hi)]
    decreases hi - lo
  {
    if lo < hi {
      DisplayStreamExtend(w, completed, lo + 1, hi);
    }
  }

  /** Inputs already in the channel do not depend on what is sent after them. */
  lemma {:induction false} ControllerStreamStable<S>(
    w: World<S>, frame: nat, success: bool, frame': nat, success': bool, lo: int, hi: int)
    requires hi <= frame + 3 && frame <= frame'
    ensures ControllerStream(w, frame, success, lo, hi) == ControllerStream(w, frame', success', lo, hi)
    decreases hi - lo
  {
    if lo < hi {
      ControllerStreamStable(w, frame, success, frame', success', lo + 1, hi);
    }
  }

  lemma {:induction false} DisplayStreamStable<S>(w: World<S>, completed: nat, completed': nat, lo: int, hi: int)
    requires hi <= completed + 2 && completed <= completed'
    ensures DisplayStream(w, completed, lo, hi) == DisplayStream(w, completed', lo, hi)
    decreases hi - lo
  {
    if lo < hi {
      DisplayStreamStable(w, completed, completed', lo + 1, hi);
    }
  }

  function SentByController<S>(g: Global<S>): int {
    match g.cpc
    case CAwaitHello => 0
    case CSendHello => 0
    case CSendSnapshot => 1
    case CAwaitReady => 2
    case CSendStart => 2
    case CAwaitFinishAck(_) => 4 + g.frame
    case CCompleted(_) => 4 + g.frame
    case _ => 3 + g.frame
  }

  function ReceivedByDisplay<S>(g: Global<S>): int {
    match g.dpc
    case DSendHello => 0
    case DAwaitHello => 0
    case DAwaitSnapshot => 1
    case DSendReady => 2
    case DAwaitStart => 2
    case DSendFinishAck(_) => 4 + g.completed
    case DCompleted(_) => 4 + g.completed
    case _ => 3 + g.completed
  }

  function SentByDisplay<S>(g: Global<S>): int {
    match g.dpc
    case DSendHello => 0
    case DAwaitHello => 1
    case DAwaitSnapshot => 1
    case DSendReady => 1
    case DAwaitStart => 2
    case DSendAck(_) => 1 + g.completed
    case DCompleted(_) => 3 + g.completed
    case _ => 2 + g.completed
  }

  /** Frames the controller's own emulator has run. */
  function SteppedC<S>(g: Global<S>): int { g.frame - if g.cpc.CStepFrame? then 1 else 0 }

  function Acknowledged<S>(g: Global<S>): int { SteppedC(g) - |g.pending| }

  /** Messages taken off the display's channel, by the controller or by its inbox reader. */
  function ReceivedByController<S>(g: Global<S>): int {
    match g.cpc
    case CAwaitHello => 0
    case CSendHello => 1
    case CSendSnapshot => 1
    case CAwaitReady => 1
    case CSendStart => 2
    case CCompleted(_) => 3 + Acknowledged(g) + |g.inbox.messages|
    case _ => 2 + Acknowledged(g) + |g.inbox.messages|
  }

  // ---------------------------------------------------------------- invariant

  ghost predicate ChannelsInv<S(!new)>(w: World<S>, g: Global<S>) {
    && ReceivedByDisplay(g) <= SentByController(g)
    && g.c2d == ControllerStream(w, g.frame, Succeeding(g.cpc), ReceivedByDisplay(g), SentByController(g))
    && ReceivedByController(g) <= SentByDisplay(g)
    && g.d2c == DisplayStream(w, g.completed, ReceivedByController(g), SentByDisplay(g))
    && g.inbox.messages
       == DisplayStream(w, g.completed, ReceivedByController(g) - |g.inbox.messages|, ReceivedByController(g))
    && !g.inbox.terminalError
    && (g.inbox.isStopped <==> g.dpc.DCompleted? && ReceivedByController(g) == 3 + g.completed)
  }

  ghost predicate ControllerInv<S(!new)>(w: World<S>, g: Global<S>) {
    && !g.cpc.CFailed?
    && (!ReaderStarted(g.cpc) ==> g.frame == 0 && g.pending == [] && g.inbox == EMPTY_INBOX)
    && (g.cpc.CStepFrame? ==> g.frame >= 1)
    && g.stateC == StateC(w, SteppedC(g))
    && g.sent == Inputs(w, g.frame)
    && g.appliedC == Inputs(w, SteppedC(g))
    && (w.cfgC.testFrameLimit.Some? ==> g.frame <= w.cfgC.testFrameLimit.value)
    && (g.cpc.CAwaitWindow? || g.cpc.CSendInput? ==> !LimitReached(w.cfgC, g.frame))
  }

  ghost predicate DisplayInv<S(!new)>(w: World<S>, g: Global<S>) {
    && !g.dpc.DFailed? && !g.dpc.DSendFailure?
    && (Handshaking(g.dpc) ==> g.completed == 0)
    && (!g.dpc.DSendHello? && !g.dpc.DAwaitHello? && !g.dpc.DAwaitSnapshot? ==> g.stateD == StateD(w, g.completed))
    && g.completed <= g.frame
    && (g.dpc.DSendAck? ==> g.completed >= 1 && g.dpc.digest == DigestD(w, g.completed))
    && (g.dpc.DSendFinishAck? || g.dpc.DCompleted? ==>
          (g.cpc.CAwaitFinishAck? || g.cpc.CCompleted?) && g.cpc.success == g.dpc.success && g.completed == g.frame)
    && (g.cpc.CCompleted? ==> g.dpc.DCompleted?)
    && g.appliedD == Inputs(w, g.completed)
    && g.checkpointsD == CheckpointsUpTo(w.cfgD, g.completed)
    && g.lastDigestD == LastDigestD(w, g.completed)
  }

  /** The pending list is the run of frames after the last acknowledged one, within the window. */
  ghost predicate WindowInv<S(!new)>(w: World<S>, g: Global<S>) {
    && 0 <= Acknowledged(g)
    && |g.pending| <= w.cfgC.frameWindow
    && (g.cpc.CSendInput? || g.cpc.CStepFrame? ==> |g.pending| < w.cfgC.frameWindow)
    && (forall k :: 0 <= k < |g.pending| ==>
          var f := Acknowledged(g) + 1 + k;
          g.pending[k] == Pending(f, NeedsDigest(w.cfgC, f), DigestC(w, f)))
    && g.checkpoints == CheckpointsUpTo(w.cfgC, Acknowledged(g))
    && g.lastDigest == LastDigestC(w, Acknowledged(g))
  }

  /** No frame follows a checkpoint frame before that checkpoint has matched. */
  ghost predicate BarrierInv<S(!new)>(w: World<S>, g: Global<S>) {
    && (forall k :: 0 <= k < |g.pending| && g.pending[k].needsDigest ==> g.cpc.CDrain? && k == |g.pending| - 1)
    && (g.cpc.CDrain? ==> NeedsDigest(w.cfgC, g.frame) && g.frame >= 1)
    && (if Finishing(g.cpc) then
          g.pending == []
          && if g.cpc.success then LimitReached(w.cfgC, g.frame) && AllMatched(w, g.frame)
             else g.frame >= 1 && NeedsDigest(w.cfgC, g.frame) && !Matches(w, g.frame) && AllMatched(w, g.frame - 1)
        else AllMatched(w, Acknowledged(g)))
  }

  ghost predicate PhonesInv<S(!new)>(w: World<S>, g: Global<S>) {
    ControllerInv(w, g) && DisplayInv(w, g) && WindowInv(w, g) && BarrierInv(w, g)
  }

  ghost predicate Inv<S(!new)>(w: World<S>, g: Global<S>) {
    PhonesInv(w, g) && ChannelsInv(w, g)
  }

  lemma InitialInv<S(!new)>(w: World<S>)
    requires Compatible(w)
    ensures Inv(w, Initial(w))
  {
  }

  lemma InputsExtend<S>(w: World<S>, n: nat)
    ensures Inputs(w, n + 1) == Inputs(w, n) + [w.input(n + 1)]
  {
  }

  // ---------------------------------------------------------------- what the queues hold

  lemma InboxHead<S(!new)>(w: World<S>, g: Global<S>)
    requires ChannelsInv(w, g)
    ensures g.inbox.messages != [] ==>
              g.inbox.messages[0] == DisplayMessage(w, g.completed, ReceivedByController(g) - |g.inbox.messages|)
    ensures ReceivedByController(g) <= SentByDisplay(g)
    ensures !g.inbox.terminalError && (g.inbox.isStopped ==> g.dpc.DCompleted?)
  {
    hide DisplayMessage;
  }

  lemma ControllerChannelHead<S(!new)>(w: World<S>, g: Global<S>)
    requires ChannelsInv(w, g) && g.c2d != []
    ensures g.c2d[0] == ControllerMessage(w, g.frame, Succeeding(g.cpc), ReceivedByDisplay(g))
    ensures ReceivedByDisplay(g) < SentByController(g)
  {
    hide ControllerMessage;
  }

  lemma DisplayChannelHead<S(!new)>(w: World<S>, g: Global<S>)
    requires ChannelsInv(w, g) && g.d2c != []
    ensures g.d2c[0] == DisplayMessage(w, g.completed, ReceivedByController(g))
    ensures ReceivedByController(g) < SentByDisplay(g)
  {
    hide DisplayMessage;
  }

  // ---------------------------------------------------------------- steps of the controller

  lemma HandshakeKeepsPhones<S(!new)>(w: World<S>, g: Global<S>)
    requires Compatible(w) && Inv(w, g) && !ReaderStarted(g.cpc)
    ensures PhonesInv(w, Step(w, g, Controller))
  {
    hide NeedsDigest, DigestC, DigestD;
    if g.d2c != [] {
      DisplayChannelHead(w, g);
    }
  }

  lemma HandshakeKeepsChannels<S(!new)>(w: World<S>, g: Global<S>)
    requires Compatible(w) && Inv(w, g) && !ReaderStarted(g.cpc)
    ensures ChannelsInv(w, Step(w, g, Controller))
  {
    hide NeedsDigest, StateD, DigestC, DigestD, Matches, AllMatched, CheckpointsUpTo, LastDigestC, LastDigestD;
    if g.d2c != [] {
      DisplayChannelHead(w, g);
    }
    ControllerStreamExtend(w, 0, false, ReceivedByDisplay(g), SentByController(g));
  }

  lemma LoopHeadKeepsPhones<S(!new)>(w: World<S>, g: Global<S>)
    requires Compatible(w) && Inv(w, g) && g.cpc.CLoopHead?
    ensures PhonesInv(w, Step(w, g, Controller))
  {
    hide ChannelsInv, StateC, StateD, DigestC, DigestD, Matches, CheckpointsUpTo, LastDigestC, LastDigestD;
    assert g.pending != [] ==> !g.pending[|g.pending| - 1].needsDigest;
  }

  lemma LoopHeadKeepsChannels<S(!new)>(w: World<S>, g: Global<S>)
    requires Compatible(w) && Inv(w, g) && g.cpc.CLoopHead?
    ensures ChannelsInv(w, Step(w, g, Controller))
  {
    hide NeedsDigest, StateC, StateD, DigestC, DigestD, Matches, AllMatched, CheckpointsUpTo, LastDigestC, LastDigestD,
      WindowInv, BarrierInv, ControllerStream, DisplayStream, ControllerMessage, DisplayMessage;
    ControllerStreamStable(w, g.frame, false, g.frame, true, ReceivedByDisplay(g), SentByController(g));
  }

  lemma SendInputKeepsPhones<S(!new)>(w: World<S>, g: Global<S>)
    requires Compatible(w) && Inv(w, g) && g.cpc.CSendInput?
    ensures PhonesInv(w, SendInput(w, g))
  {
    hide ChannelsInv, NeedsDigest, StateC, StateD, DigestC, DigestD, Matches, CheckpointsUpTo, LastDigestC, LastDigestD;
    InputsExtend(w, g.frame);
  }

  lemma SendInputKeepsChannels<S(!new)>(w: World<S>, g: Global<S>)
    requires Compatible(w) && Inv(w, g) && g.cpc.CSendInput?
    ensures ChannelsInv(w, SendInput(w, g))
  {
    hide NeedsDigest, StateC, StateD, DigestC, DigestD, Matches, AllMatched, CheckpointsUpTo, LastDigestC, LastDigestD,
      WindowInv, BarrierInv, DisplayInv, ControllerStream, DisplayStream, DisplayMessage;
    var lo, hi := ReceivedByDisplay(g), SentByController(g);
    ControllerStreamStable(w, g.frame, false, g.frame + 1, false, lo, hi);
    ControllerStreamExtend(w, g.frame + 1, false, lo, hi);
  }

  lemma StepFrameKeepsPhones<S(!new)>(w: World<S>, g: Global<S>)
    requires Compatible(w) && Inv(w, g) && g.cpc.CStepFrame?
    ensures PhonesInv(w, StepFrame(w, g))
  {
    hide ChannelsInv, Inputs, NeedsDigest, StateD, DigestD, Matches, AllMatched, CheckpointsUpTo,
      LastDigestC, LastDigestD;
    InputsExtend(w, g.frame - 1);
  }

  lemma StepFrameKeepsChannels<S(!new)>(w: World<S>, g: Global<S>)
    requires Compatible(w) && Inv(w, g) && g.cpc.CStepFrame?
    ensures ChannelsInv(w, StepFrame(w, g))
  {
    hide NeedsDigest, StateC, StateD, DigestC, DigestD, Matches, AllMatched, CheckpointsUpTo, LastDigestC, LastDigestD;
  }

  lemma TakeAckKeepsPhones<S(!new)>(w: World<S>, g: Global<S>)
    requires Compatible(w) && Inv(w, g) && g.pending != []
    requires g.cpc.CDrain? || g.cpc.CAwaitWindow?
    ensures TakeAck(g).Some? ==> PhonesInv(w, TakeAck(g).value)
  {
    hide ChannelsInv, NeedsDigest, StateC, StateD, DigestC, DigestD;
    InboxHead(w, g);
  }

  lemma TakeAckKeepsChannels<S(!new)>(w: World<S>, g: Global<S>)
    requires Compatible(w) && Inv(w, g) && g.pending != []
    requires g.cpc.CDrain? || g.cpc.CAwaitWindow?
    ensures TakeAck(g).Some? ==> ChannelsInv(w, TakeAck(g).value)
  {
    hide NeedsDigest, StateC, StateD, DigestC, DigestD, Matches, AllMatched, CheckpointsUpTo, LastDigestC, LastDigestD;
    InboxHead(w, g);
  }

  lemma FinishKeepsPhones<S(!new)>(w: World<S>, g: Global<S>)
    requires Compatible(w) && Inv(w, g) && Finishing(g.cpc)
    ensures PhonesInv(w, Step(w, g, Controller))
  {
    hide NeedsDigest, StateC, StateD, DigestC, DigestD, Matches, AllMatched, CheckpointsUpTo, LastDigestC, LastDigestD;
    InboxHead(w, g);
  }

  lemma SendFinishKeepsChannels<S(!new)>(w: World<S>, g: Global<S>)
    requires Compatible(w) && Inv(w, g) && g.cpc.CSendFinish?
    ensures ChannelsInv(w, Step(w, g, Controller))
  {
    hide NeedsDigest, StateC, StateD, DigestC, DigestD, Matches, AllMatched, CheckpointsUpTo, LastDigestC, LastDigestD;
    hide WindowInv, BarrierInv, ControllerStream, DisplayStream, DisplayMessage;
    ControllerStreamStable(w, g.frame, false, g.frame, Succeeding(g.cpc), ReceivedByDisplay(g), 3 + g.frame);
    ControllerStreamExtend(w, g.frame, Succeeding(g.cpc), ReceivedByDisplay(g), 3 + g.frame);
  }

  lemma FinishKeepsChannels<S(!new)>(w: World<S>, g: Global<S>)
    requires Compatible(w) && Inv(w, g) && Finishing(g.cpc)
    ensures ChannelsInv(w, Step(w, g, Controller))
  {
    hide NeedsDigest, StateC, StateD, DigestC, DigestD, Matches, AllMatched, CheckpointsUpTo, LastDigestC, LastDigestD;
    hide WindowInv, ControllerMessage, ControllerStream;
    InboxHead(w, g);
    if g.cpc.CSendFinish? {
      SendFinishKeepsChannels(w, g);
    }
  }

  lemma ControllerKeeps<S(!new)>(w: World<S>, g: Global<S>)
    requires Compatible(w) && Inv(w, g)
    ensures Inv(w, Step(w, g, Controller))
  {
    hide ControllerInv, DisplayInv, ChannelsInv, NeedsDigest;
    match g.cpc
    case CLoopHead => LoopHeadKeepsPhones(w, g); LoopHeadKeepsChannels(w, g);
    case CSendInput => SendInputKeepsPhones(w, g); SendInputKeepsChannels(w, g);
    case CStepFrame => StepFrameKeepsPhones(w, g); StepFrameKeepsChannels(w, g);
    case CAwaitWindow => WindowKeeps(w, g);
    case CDrain => DrainKeeps(w, g);
    case CSendFinish(_) => FinishKeepsPhones(w, g); FinishKeepsChannels(w, g);
    case CAwaitFinishAck(_) => FinishKeepsPhones(w, g); FinishKeepsChannels(w, g);
    case CCompleted(_) =>
    case CFailed =>
    case _ => HandshakeKeepsPhones(w, g); HandshakeKeepsChannels(w, g);
  }

  lemma WindowOpenKeeps<S(!new)>(w: World<S>, g: Global<S>)
    requires Compatible(w) && Inv(w, g) && g.cpc.CAwaitWindow? && |g.pending| < w.cfgC.frameWindow
    ensures Inv(w, g.(cpc := CSendInput))
  {
    hide ControllerStream, DisplayStream, NeedsDigest, StateC, StateD, DigestC, DigestD, Matches, CheckpointsUpTo,
      LastDigestC, LastDigestD;
  }

  lemma WindowKeeps<S(!new)>(w: World<S>, g: Global<S>)
    requires Compatible(w) && Inv(w, g) && g.cpc.CAwaitWindow?
    ensures Inv(w, Step(w, g, Controller))
  {
    hide ControllerInv, DisplayInv, BarrierInv, ChannelsInv, NeedsDigest, TakeAck;
    if |g.pending| >= w.cfgC.frameWindow {
      TakeAckKeepsPhones(w, g);
      TakeAckKeepsChannels(w, g);
    } else {
      WindowOpenKeeps(w, g);
    }
  }

  lemma DrainKeeps<S(!new)>(w: World<S>, g: Global<S>)
    requires Compatible(w) && Inv(w, g) && g.cpc.CDrain?
    ensures Inv(w, Step(w, g, Controller))
  {
    hide NeedsDigest, StateC, StateD, DigestC, DigestD, Matches, AllMatched, CheckpointsUpTo, LastDigestC, LastDigestD;
    if g.pending != [] {
      TakeAckKeepsPhones(w, g);
      TakeAckKeepsChannels(w, g);
    }
  }

  // ---------------------------------------------------------------- steps of the reader and the display

  lemma ReaderKeepsPhones<S(!new)>(w: World<S>, g: Global<S>)
    requires Compatible(w) && Inv(w, g)
    ensures PhonesInv(w, Step(w, g, Reader))
  {
    hide ChannelsInv, NeedsDigest, StateC, StateD, DigestC, DigestD, Matches, CheckpointsUpTo, LastDigestC, LastDigestD;
  }

  lemma ReaderKeepsChannels<S(!new)>(w: World<S>, g: Global<S>)
    requires Compatible(w) && Inv(w, g) && ReaderStep(g).Some?
    ensures ChannelsInv(w, ReaderStep(g).value)
  {
    hide ControllerStream, WindowInv, BarrierInv, NeedsDigest, StateC, StateD, DigestC, DigestD, CheckpointsUpTo,
      LastDigestC, LastDigestD;
    if g.d2c != [] {
      DisplayChannelHead(w, g);
      var mid := ReceivedByController(g);
      DisplayStreamExtend(w, g.completed, mid - |g.inbox.messages|, mid);
    }
  }

  lemma DisplaySendKeepsPhones<S(!new)>(w: World<S>, g: Global<S>)
    requires Compatible(w) && Inv(w, g)
    requires g.dpc.DSendHello? || g.dpc.DSendReady? || g.dpc.DSendAck? || g.dpc.DSendFinishAck?
    ensures PhonesInv(w, Step(w, g, Display))
  {
    hide ChannelsInv, NeedsDigest, StateC, StateD, DigestC, DigestD, Matches, CheckpointsUpTo, LastDigestC, LastDigestD;
  }

  lemma DisplaySendKeepsChannels<S(!new)>(w: World<S>, g: Global<S>)
    requires Compatible(w) && Inv(w, g)
    requires g.dpc.DSendHello? || g.dpc.DSendReady? || g.dpc.DSendAck? || g.dpc.DSendFinishAck?
    ensures ChannelsInv(w, Step(w, g, Display))
  {
    hide WindowInv, BarrierInv, ControllerInv, NeedsDigest, StateC, StateD, DigestC, DigestD, Matches, AllMatched,
      CheckpointsUpTo, LastDigestC, LastDigestD, ControllerStream, DisplayStream, ControllerMessage;
    DisplayStreamExtend(w, g.completed, ReceivedByController(g), SentByDisplay(g));
  }

  lemma DisplayHandshakeKeepsPhones<S(!new)>(w: World<S>, g: Global<S>)
    requires Compatible(w) && Inv(w, g)
    requires g.dpc.DAwaitHello? || g.dpc.DAwaitSnapshot? || g.dpc.DAwaitStart?
    ensures PhonesInv(w, Step(w, g, Display))
  {
    hide ChannelsInv, NeedsDigest, StateC, DigestC, Matches, AllMatched, LastDigestC, LastDigestD;
    if g.c2d != [] {
      ControllerChannelHead(w, g);
    }
  }

  /** What the display takes off the channel in its receiving loop. */
  lemma DisplayReceives<S(!new)>(w: World<S>, g: Global<S>)
    requires Compatible(w) && Inv(w, g) && g.dpc.DReceive? && g.c2d != []
    ensures ReceivedByDisplay(g) < SentByController(g)
    ensures if g.completed < g.frame then
              g.c2d[0] == Input(w.input(g.completed + 1)) && w.input(g.completed + 1).frame == g.completed + 1
            else Finishing(g.cpc) && g.c2d[0] == Finish(g.frame, Succeeding(g.cpc), [])
  {
    hide WindowInv, BarrierInv, NeedsDigest, StateC, StateD, DigestC, DigestD, CheckpointsUpTo, LastDigestC,
      LastDigestD;
    ControllerChannelHead(w, g);
  }

  lemma ApplyInputKeepsPhones<S(!new)>(w: World<S>, g: Global<S>)
    requires Compatible(w) && PhonesInv(w, g) && g.dpc.DReceive? && g.completed < g.frame
             && w.input(g.completed + 1).frame == g.completed + 1
    ensures PhonesInv(w, ApplyInput(w, g, w.input(g.completed + 1)))
  {
    hide NeedsDigest, StateC, DigestC, Matches, AllMatched, LastDigestC;
    InputsExtend(w, g.completed);
  }

  lemma DisplayReceiveKeepsPhones<S(!new)>(w: World<S>, g: Global<S>)
    requires Compatible(w) && Inv(w, g) && g.dpc.DReceive? && g.c2d != []
    ensures PhonesInv(w, DisplayHandle(w, g.(c2d := g.c2d[1..]), g.c2d[0]))
  {
    hide ChannelsInv, ApplyInput, NeedsDigest, StateC, StateD, DigestC, DigestD, Matches, AllMatched, LastDigestC,
      LastDigestD, CheckpointsUpTo;
    DisplayReceives(w, g);
    if g.completed < g.frame {
      ApplyInputKeepsPhones(w, g.(c2d := g.c2d[1..]));
    }
  }

  lemma DisplayHandshakeKeepsChannels<S(!new)>(w: World<S>, g: Global<S>)
    requires Compatible(w) && Inv(w, g)
    requires g.dpc.DAwaitHello? || g.dpc.DAwaitSnapshot? || g.dpc.DAwaitStart?
    ensures ChannelsInv(w, Step(w, g, Display))
  {
    hide WindowInv, BarrierInv, NeedsDigest, StateC, StateD, DigestC, DigestD, CheckpointsUpTo, LastDigestC,
      LastDigestD;
    if g.c2d != [] {
      ControllerChannelHead(w, g);
    }
  }

  lemma ApplyInputKeepsChannels<S(!new)>(w: World<S>, g: Global<S>)
    requires Inv(w, g) && g.dpc.DReceive? && g.c2d != [] && g.completed < g.frame
    requires w.input(g.completed + 1).frame == g.completed + 1 && ReceivedByDisplay(g) < SentByController(g)
    ensures ChannelsInv(w, ApplyInput(w, g.(c2d := g.c2d[1..]), w.input(g.completed + 1)))
  {
    hide WindowInv, BarrierInv, NeedsDigest, StateC, StateD, DigestC, DigestD, CheckpointsUpTo, LastDigestC,
      LastDigestD;
    hide ControllerMessage, DisplayMessage;
    var mid := ReceivedByController(g);
    DisplayStreamStable(w, g.completed, g.completed + 1, mid, SentByDisplay(g));
    DisplayStreamStable(w, g.completed, g.completed + 1, mid - |g.inbox.messages|, mid);
  }

  lemma DisplayReceiveKeepsChannels<S(!new)>(w: World<S>, g: Global<S>)
    requires Compatible(w) && Inv(w, g) && g.dpc.DReceive? && g.c2d != []
    ensures ChannelsInv(w, DisplayHandle(w, g.(c2d := g.c2d[1..]), g.c2d[0]))
  {
    hide WindowInv, BarrierInv, NeedsDigest, ApplyInput, StateC, StateD, DigestC, DigestD, CheckpointsUpTo,
      LastDigestC, LastDigestD;
    hide ControllerMessage, DisplayMessage;
    DisplayReceives(w, g);
    if g.completed < g.frame {
      ApplyInputKeepsChannels(w, g);
    }
  }

  lemma DisplayReceiveKeeps<S(!new)>(w: World<S>, g: Global<S>)
    requires Compatible(w) && Inv(w, g) && g.dpc.DReceive?
    ensures Inv(w, Step(w, g, Display))
  {
    hide WindowInv, BarrierInv, ChannelsInv, DisplayHandle, NeedsDigest;
    if g.c2d != [] {
      DisplayReceiveKeepsPhones(w, g);
      DisplayReceiveKeepsChannels(w, g);
    }
  }

  lemma StepKeeps<S(!new)>(w: World<S>, g: Global<S>, p: Process)
    requires Compatible(w) && Inv(w, g)
    ensures Inv(w, Step(w, g, p))
  {
    hide NeedsDigest, ChannelsInv;
    match p
    case Controller => ControllerKeeps(w, g);
    case Reader =>
      ReaderKeepsPhones(w, g);
      if ReaderStep(g).Some? {
        ReaderKeepsChannels(w, g);
      }
    case Display =>
        match g.dpc
      case DCompleted(_) =>
      case DFailed =>
      case DSendFailure =>
      case DAwaitHello => DisplayHandshakeKeepsPhones(w, g); DisplayHandshakeKeepsChannels(w, g);
      case DAwaitSnapshot => DisplayHandshakeKeepsPhones(w, g); DisplayHandshakeKeepsChannels(w, g);
      case DAwaitStart => DisplayHandshakeKeepsPhones(w, g); DisplayHandshakeKeepsChannels(w, g);
      case DReceive => DisplayReceiveKeeps(w, g);
      case _ => DisplaySendKeepsPhones(w, g); DisplaySendKeepsChannels(w, g);
  }

  /** Every state of every run satisfies the invariant, whatever the two emulators compute. */
  lemma {:induction false} RunInv<S(!new)>(w: World<S>, schedule: seq<Process>)
    requires Compatible(w)
    ensures Inv(w, Run(w, schedule))
  {
    hide Inv;
    if schedule == [] {
      InitialInv(w);
    } else {
      RunInv(w, schedule[..|schedule| - 1]);
      StepKeeps(w, Run(w, schedule[..|schedule| - 1]), schedule[|schedule| - 1]);
    }
  }
}
