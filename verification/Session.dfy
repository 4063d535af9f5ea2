/**
 * The two-phone lockstep session as a transition system.
 *
 * Three processes run concurrently: the controller, the controller's inbox
 * reader thread, and the display.  Each has a program counter; two unbounded
 * FIFO channels connect the phones.  A run is a schedule, that is, a list of
 * the processes that get the next turn; a process that is blocked when its turn
 * comes leaves the state unchanged, so the schedules are all interleavings.
 */
module Session {
  import opened Basics
  import opened Messages

  /** The configuration clamps the window to 1..8 and the interval to at least 1. */
  type Window = n: int | 1 <= n <= 8 witness 1

  type Interval = n: int | 1 <= n witness 1

  datatype Config = Config(
    frameWindow: Window, checkpointInterval: Interval, testFrameLimit: Option<nat>, romSHA256: seq<byte>)

  /**
   * Everything a session is a function of.  The two emulators may behave
   * differently: `stepC` and `stepD` are unrelated until a lemma relates them.
   */
  datatype World<!S> = World(
    cfgC: Config,
    cfgD: Config,
    initC: S,
    initD: S,
    input: nat -> DSInputFrame,
    stepC: (S, DSInputFrame, bool) -> (S, Option<EmulatorDigest>),
    stepD: (S, DSInputFrame, bool) -> (S, Option<EmulatorDigest>),
    save: S -> seq<byte>,
    load: seq<byte> -> Option<S>,
    hash: S -> nat,
    nanoseconds: nat -> nat)

  datatype Pending = Pending(frame: nat, needsDigest: bool, digest: Option<EmulatorDigest>)

  // ---------------------------------------------------------------- inbox

  /** The fields of the inbox that the reader thread and the controller share. */
  datatype InboxState = InboxState(
    messages: seq<TwoPhoneMessage>, isStopped: bool, terminalError: bool)

  const EMPTY_INBOX := InboxState([], false, false)

  datatype NextResult = Blocked | Throws | Got(message: TwoPhoneMessage, rest: InboxState)

  function InboxNext(ib: InboxState): NextResult {
    if ib.messages != [] then Got(ib.messages[0], ib.(messages := ib.messages[1..]))
    else if ib.terminalError || ib.isStopped then Throws
    else Blocked
  }

  function InboxDeliver(ib: InboxState, m: TwoPhoneMessage): InboxState {
    InboxState(ib.messages + [m], m.FinishAcknowledgement?, ib.terminalError)
  }

  // ---------------------------------------------------------------- acknowledgements

  datatype AckResult =
    | AckBlocked
    | AckThrows
    | AckTaken(rest: InboxState, pending: seq<Pending>, checkpoints: nat,
               lastDigest: Option<EmulatorDigest>, failed: bool)

  function ReceiveAcknowledgement(
    ib: InboxState, pending: seq<Pending>, checkpoints: nat, lastDigest: Option<EmulatorDigest>): AckResult
  {
    if pending == [] then AckThrows
    else
      match InboxNext(ib)
      case Blocked => AckBlocked
      case Throws => AckThrows
      case Got(m, rest) =>
        if !m.Acknowledgement? || m.ack.frame != pending[0].frame then AckThrows
        else if !pending[0].needsDigest then AckTaken(rest, pending[1..], checkpoints, lastDigest, false)
        else
          AckTaken(rest, pending[1..], checkpoints + 1, pending[0].digest,
                   pending[0].digest.None? || m.ack.digest.None? || pending[0].digest != m.ack.digest)
  }

  // ---------------------------------------------------------------- processes

  datatype ControllerPc =
    | CAwaitHello | CSendHello | CSendSnapshot | CAwaitReady | CSendStart
    | CLoopHead | CAwaitWindow | CSendInput | CStepFrame | CDrain
    | CSendFinish(success: bool) | CAwaitFinishAck(success: bool)
    | CCompleted(success: bool) | CFailed

  datatype DisplayPc =
    | DSendHello | DAwaitHello | DAwaitSnapshot | DSendReady | DAwaitStart
    | DReceive | DSendAck(digest: Option<EmulatorDigest>)
    | DSendFinishAck(success: bool) | DCompleted(success: bool)
    | DSendFailure | DFailed

  datatype Global<!S> = Global(
    cpc: ControllerPc, stateC: S, frame: nat, pending: seq<Pending>,
    checkpoints: nat, lastDigest: Option<EmulatorDigest>, inbox: InboxState,
    dpc: DisplayPc, stateD: S, completed: nat,
    checkpointsD: nat, lastDigestD: Option<EmulatorDigest>,
    c2d: seq<TwoPhoneMessage>, d2c: seq<TwoPhoneMessage>,
    sent: seq<DSInputFrame>, appliedC: seq<DSInputFrame>, appliedD: seq<DSInputFrame>)

  datatype Process = Controller | Reader | Display

  function Initial<S>(w: World<S>): Global<S> {
    Global(CAwaitHello, w.initC, 0, [], 0, None, EMPTY_INBOX,
           DSendHello, w.initD, 0, 0, None, [], [], [], [], [])
  }

  predicate NeedsDigest(cfg: Config, frame: nat) {
    frame % cfg.checkpointInterval == 0 || cfg.testFrameLimit == Some(frame)
  }

  predicate ValidHello(cfg: Config, m: TwoPhoneMessage) {
    m.Hello? && m.version == PROTOCOL_VERSION && m.romSHA256 == cfg.romSHA256
  }

  predicate ControllerClosed(pc: ControllerPc) { pc.CCompleted? || pc.CFailed? }

  predicate DisplayClosed(pc: DisplayPc) { pc.DCompleted? || pc.DFailed? }

  predicate ReaderStarted(pc: ControllerPc) {
    !pc.CAwaitHello? && !pc.CSendHello? && !pc.CSendSnapshot? && !pc.CAwaitReady? && !pc.CSendStart?
  }

  predicate LimitReached(cfg: Config, frame: nat) {
    cfg.testFrameLimit.Some? && frame >= cfg.testFrameLimit.value
  }

  /** The outcome of one acknowledgement in either of the controller's two waiting loops. */
  function TakeAck<S>(g: Global<S>): Option<Global<S>> {
    match ReceiveAcknowledgement(g.inbox, g.pending, g.checkpoints, g.lastDigest)
    case AckBlocked => None
    case AckThrows => Some(g.(cpc := CFailed))
    case AckTaken(rest, pending, checkpoints, last, failed) =>
      Some(g.(inbox := rest, pending := pending, checkpoints := checkpoints, lastDigest := last,
              cpc := if failed then CSendFinish(false) else g.cpc))
  }

  /** A direct receive by the controller before the inbox thread is started. */
  function ControllerReceive<S>(g: Global<S>, accept: TwoPhoneMessage -> bool, next: ControllerPc): Option<Global<S>> {
    if g.d2c != [] then
      Some(g.(cpc := if accept(g.d2c[0]) then next else CFailed, d2c := g.d2c[1..]))
    else if DisplayClosed(g.dpc) then Some(g.(cpc := CFailed))
    else None
  }

  function SendInput<S>(w: World<S>, g: Global<S>): Global<S> {
    var input := w.input(g.frame + 1);
    g.(cpc := CStepFrame, frame := g.frame + 1, c2d := g.c2d + [Input(input)], sent := g.sent + [input])
  }

  /** The controller's own emulator runs the frame, and the frame becomes pending. */
  function StepFrame<S>(w: World<S>, g: Global<S>): Global<S> {
    var input := w.input(g.frame);
    var needsDigest := NeedsDigest(w.cfgC, g.frame);
    var (state, digest) := w.stepC(g.stateC, input, needsDigest);
    g.(cpc := if needsDigest then CDrain else CLoopHead, stateC := state,
       pending := g.pending + [Pending(g.frame, needsDigest, digest)],
       appliedC := g.appliedC + [input])
  }

  function ControllerStep<S>(w: World<S>, g: Global<S>): Option<Global<S>> {
    match g.cpc
    case CAwaitHello => ControllerReceive(g, (m: TwoPhoneMessage) => ValidHello(w.cfgC, m), CSendHello)
    case CSendHello =>
      Some(g.(cpc := CSendSnapshot, c2d := g.c2d + [Hello(PROTOCOL_VERSION, w.cfgC.romSHA256)]))
    case CSendSnapshot =>
      Some(g.(cpc := CAwaitReady, c2d := g.c2d + [Snapshot(w.save(g.stateC), w.hash(g.stateC))]))
    case CAwaitReady => ControllerReceive(g, (m: TwoPhoneMessage) => m.Ready?, CSendStart)
    case CSendStart => Some(g.(cpc := CLoopHead, c2d := g.c2d + [Start]))
    case CLoopHead =>
      Some(g.(cpc := if LimitReached(w.cfgC, g.frame) then CSendFinish(true) else CAwaitWindow))
    case CAwaitWindow =>
      if |g.pending| >= w.cfgC.frameWindow then TakeAck(g) else Some(g.(cpc := CSendInput))
    case CSendInput => Some(SendInput(w, g))
    case CStepFrame => Some(StepFrame(w, g))
    case CDrain => if g.pending == [] then Some(g.(cpc := CLoopHead)) else TakeAck(g)
    case CSendFinish(success) =>
      Some(g.(cpc := CAwaitFinishAck(success), c2d := g.c2d + [Finish(g.frame, success, [])]))
    case CAwaitFinishAck(success) =>
      (match InboxNext(g.inbox)
       case Blocked => None
       case Throws => Some(g.(cpc := CFailed))
       case Got(m, rest) =>
         Some(g.(inbox := rest, cpc := if m.FinishAcknowledgement? then CCompleted(success) else CFailed)))
    case CCompleted(_) => None
    case CFailed => None
  }

  /** One turn of the reader thread: receive a message, then append it under the lock. */
  function ReaderStep<S>(g: Global<S>): Option<Global<S>> {
    if !ReaderStarted(g.cpc) || ControllerClosed(g.cpc) || g.inbox.isStopped || g.inbox.terminalError then None
    else if g.d2c != [] then Some(g.(d2c := g.d2c[1..], inbox := InboxDeliver(g.inbox, g.d2c[0])))
    else if DisplayClosed(g.dpc) then Some(g.(inbox := g.inbox.(terminalError := true)))
    else None
  }

  /** The display's emulator runs the frame. */
  function ApplyInput<S>(w: World<S>, g: Global<S>, input: DSInputFrame): Global<S> {
    var needsDigest := NeedsDigest(w.cfgD, input.frame);
    var (state, digest) := w.stepD(g.stateD, input, needsDigest);
    g.(dpc := DSendAck(digest), stateD := state, completed := input.frame,
       checkpointsD := if needsDigest then g.checkpointsD + 1 else g.checkpointsD,
       lastDigestD := if needsDigest then digest else g.lastDigestD,
       appliedD := g.appliedD + [input])
  }

  function DisplayHandle<S>(w: World<S>, g: Global<S>, m: TwoPhoneMessage): Global<S> {
    match g.dpc
    case DAwaitHello => g.(dpc := if ValidHello(w.cfgD, m) then DAwaitSnapshot else DFailed)
    case DAwaitSnapshot =>
      if !m.Snapshot? then g.(dpc := DFailed)
      else
        (match w.load(m.state)
         case None => g.(dpc := DFailed)
         case Some(s) =>
           if w.hash(s) == m.stateHash then g.(dpc := DSendReady, stateD := s)
           else g.(dpc := DSendFailure, stateD := s))
    case DAwaitStart => g.(dpc := if m.Start? then DReceive else DFailed)
    case DReceive =>
      (match m
       case Input(input) => if input.frame != g.completed + 1 then g.(dpc := DFailed) else ApplyInput(w, g, input)
       case Finish(frame, success, _) =>
         g.(dpc := if frame == g.completed then DSendFinishAck(success) else DFailed)
       case _ => g.(dpc := DFailed))
    case _ => g
  }

  function DisplayStep<S>(w: World<S>, g: Global<S>): Option<Global<S>> {
    match g.dpc
    case DSendHello =>
      Some(g.(dpc := DAwaitHello, d2c := g.d2c + [Hello(PROTOCOL_VERSION, w.cfgD.romSHA256)]))
    case DSendReady => Some(g.(dpc := DAwaitStart, d2c := g.d2c + [Ready]))
    case DSendFailure => Some(g.(dpc := DFailed, d2c := g.d2c + [Failure([])]))
    case DSendAck(digest) =>
      Some(g.(dpc := DReceive, d2c := g.d2c
              + [Acknowledgement(FrameAcknowledgement(g.completed, digest, w.nanoseconds(g.completed)))]))
    case DSendFinishAck(success) => Some(g.(dpc := DCompleted(success), d2c := g.d2c + [FinishAcknowledgement]))
    case DCompleted(_) => None
    case DFailed => None
    case _ =>
      if g.c2d != [] then Some(DisplayHandle(w, g.(c2d := g.c2d[1..]), g.c2d[0]))
      else if ControllerClosed(g.cpc) then Some(g.(dpc := DFailed))
      else None
  }

  function TryStep<S>(w: World<S>, g: Global<S>, p: Process): Option<Global<S>> {
    match p
    case Controller => ControllerStep(w, g)
    case Reader => ReaderStep(g)
    case Display => DisplayStep(w, g)
  }

  function Step<S>(w: World<S>, g: Global<S>, p: Process): Global<S> {
    match TryStep(w, g, p)
    case None => g
    case Some(g') => g'
  }

  /** The state after a schedule, last element scheduled last. */
  function Run<S>(w: World<S>, schedule: seq<Process>): Global<S> {
    if schedule == [] then Initial(w)
    else Step(w, Run(w, schedule[..|schedule| - 1]), schedule[|schedule| - 1])
  }

  /** How many turns of a schedule changed the state rather than finding the process blocked. */
  function EffectiveSteps<S>(w: World<S>, schedule: seq<Process>): nat {
    if schedule == [] then 0
    else
      var front := schedule[..|schedule| - 1];
      EffectiveSteps(w, front)
      + if TryStep(w, Run(w, front), schedule[|schedule| - 1]).Some? then 1 else 0
  }
}
