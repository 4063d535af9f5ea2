/**
 * What each side of a session does with every message it may meet, honest or
 * not: which one it goes on with, and that it stops at all others.
 */
module SessionErrors {
  import opened Basics
  import opened Messages
  import opened Session

  /** The handshake goes on exactly with a hello of protocol version 3 and the own ROM. */
  lemma HelloAccepted<S>(w: World<S>, g: Global<S>)
    ensures g.cpc.CAwaitHello? && g.d2c != [] ==>
              var (m, h) := (g.d2c[0], Step(w, g, Controller));
              && h.d2c == g.d2c[1..]
              && h.cpc == if m.Hello? && m.version == 3 && m.romSHA256 == w.cfgC.romSHA256 then CSendHello else CFailed
    ensures g.dpc.DAwaitHello? && g.c2d != [] ==>
              var (m, h) := (g.c2d[0], Step(w, g, Display));
              && h.c2d == g.c2d[1..]
              && h.dpc
                 == if m.Hello? && m.version == 3 && m.romSHA256 == w.cfgD.romSHA256 then DAwaitSnapshot else DFailed
  {
  }

  /** The display loads the sent state, and answers ready exactly if it then hashes to the sent hash. */
  lemma SnapshotVerified<S>(w: World<S>, g: Global<S>)
    requires g.dpc.DAwaitSnapshot? && g.c2d != []
    ensures var (m, h) := (g.c2d[0], Step(w, g, Display));
            && h.c2d == g.c2d[1..]
            && (h.dpc.DSendReady? <==>
                  m.Snapshot? && w.load(m.state).Some? && w.hash(w.load(m.state).value) == m.stateHash)
            && (h.dpc.DSendFailure? <==>
                  m.Snapshot? && w.load(m.state).Some? && w.hash(w.load(m.state).value) != m.stateHash)
            && (h.dpc.DSendReady? ==> h.stateD == w.load(m.state).value)
            && (h.dpc.DSendReady? || h.dpc.DSendFailure? || h.dpc.DFailed?)
  {
  }

  /** A failed verification is reported before the display gives up. */
  lemma FailureReported<S>(w: World<S>, g: Global<S>)
    requires g.dpc.DSendFailure?
    ensures var h := Step(w, g, Display);
            h.dpc.DFailed? && |h.d2c| == |g.d2c| + 1 && h.d2c[..|g.d2c|] == g.d2c && h.d2c[|g.d2c|].Failure?
  {
  }

  /** The controller starts only on ready, the display runs only on start. */
  lemma OnlyReadyAndStart<S>(w: World<S>, g: Global<S>)
    ensures g.cpc.CAwaitReady? && g.d2c != [] ==>
              Step(w, g, Controller).cpc == if g.d2c[0] == Ready then CSendStart else CFailed
    ensures g.dpc.DAwaitStart? && g.c2d != [] ==>
              Step(w, g, Display).dpc == if g.c2d[0] == Start then DReceive else DFailed
  {
  }

  /**
   * The display's loop: the input of the next frame is run and will be
   * acknowledged with its digest; a finish at the frame it has reached is
   * acknowledged; anything else, a gap or a repetition included, fails.
   */
  lemma DisplayLoop<S>(w: World<S>, g: Global<S>)
    requires g.dpc.DReceive? && g.c2d != []
    ensures var (m, h) := (g.c2d[0], Step(w, g, Display));
            && (h.dpc.DSendAck? <==> m.Input? && m.input.frame == g.completed + 1)
            && (h.dpc.DSendAck? ==>
                  var asked := m.input.frame % w.cfgD.checkpointInterval == 0
                               || w.cfgD.testFrameLimit == Some(m.input.frame);
                  var (state, digest) := w.stepD(g.stateD, m.input, asked);
                  && h.completed == g.completed + 1 && h.stateD == state && h.dpc.digest == digest
                  && h.appliedD == g.appliedD + [m.input]
                  && h.checkpointsD == g.checkpointsD + (if asked then 1 else 0)
                  && h.lastDigestD == if asked then digest else g.lastDigestD)
            && (h.dpc.DSendFinishAck? <==> m.Finish? && m.frame == g.completed)
            && (h.dpc.DSendFinishAck? ==> h.dpc.success == m.success)
            && (h.dpc.DSendAck? || h.dpc.DSendFinishAck? || h.dpc.DFailed?)
            && (!h.dpc.DSendAck? ==> h.stateD == g.stateD && h.completed == g.completed && h.appliedD == g.appliedD)
  {
  }

  /** The acknowledgement that is sent for a frame. */
  lemma AcknowledgementSent<S>(w: World<S>, g: Global<S>)
    requires g.dpc.DSendAck?
    ensures var h := Step(w, g, Display);
            && h.dpc.DReceive? && |h.d2c| == |g.d2c| + 1 && h.d2c[..|g.d2c|] == g.d2c
            && h.d2c[|g.d2c|].Acknowledgement?
            && h.d2c[|g.d2c|].ack.frame == g.completed && h.d2c[|g.d2c|].ack.digest == g.dpc.digest
  {
  }

  /**
   * An acknowledgement in the controller's waiting loops.  Only the one of the
   * oldest pending frame is taken; at a checkpoint it is counted, and the
   * session goes on exactly if both digests are there and equal.
   */
  lemma AcknowledgementTaken<S>(w: World<S>, g: Global<S>)
    requires g.pending != [] && g.inbox.messages != []
    requires g.cpc.CDrain? || (g.cpc.CAwaitWindow? && |g.pending| >= w.cfgC.frameWindow)
    ensures var (m, p, h) := (g.inbox.messages[0], g.pending[0], Step(w, g, Controller));
            var taken := m.Acknowledgement? && m.ack.frame == p.frame;
            && (h.cpc.CFailed? <==> !taken)
            && (taken ==>
                  && h.pending == g.pending[1..] && h.inbox.messages == g.inbox.messages[1..]
                  && h.checkpoints == g.checkpoints + (if p.needsDigest then 1 else 0)
                  && h.lastDigest == (if p.needsDigest then p.digest else g.lastDigest)
                  && (h.cpc == CSendFinish(false) <==>
                        p.needsDigest && (p.digest.None? || m.ack.digest.None? || p.digest.value != m.ack.digest.value))
                  && (h.cpc == CSendFinish(false) || h.cpc == g.cpc))
  {
  }

  /** With no message left, an inbox that has an error or has stopped ends the session; else the controller waits. */
  lemma InboxEmpty<S>(w: World<S>, g: Global<S>)
    requires g.inbox.messages == []
    requires (g.cpc.CDrain? && g.pending != []) || g.cpc.CAwaitFinishAck?
             || (g.cpc.CAwaitWindow? && |g.pending| >= w.cfgC.frameWindow)
    ensures TryStep(w, g, Controller).None? <==> !g.inbox.terminalError && !g.inbox.isStopped
    ensures g.inbox.terminalError || g.inbox.isStopped ==> Step(w, g, Controller).cpc.CFailed?
  {
  }

  /** The session completes exactly on the finish acknowledgement, with the verdict it announced. */
  lemma FinishAcknowledged<S>(w: World<S>, g: Global<S>)
    requires g.cpc.CAwaitFinishAck? && g.inbox.messages != []
    ensures Step(w, g, Controller).cpc
            == if g.inbox.messages[0] == FinishAcknowledgement then CCompleted(g.cpc.success) else CFailed
  {
  }

  /** The window is full at exactly its size; below it the next input goes out with the next frame number. */
  lemma WindowOpens<S>(w: World<S>, g: Global<S>)
    requires g.cpc.CAwaitWindow? && |g.pending| < w.cfgC.frameWindow
    ensures var h := Step(w, Step(w, g, Controller), Controller);
            && h.frame == g.frame + 1 && h.sent == g.sent + [w.input(g.frame + 1)]
            && h.c2d == g.c2d + [Input(w.input(g.frame + 1))] && h.cpc.CStepFrame?
  {
  }

  /** The loop ends exactly at the limit, if there is one. */
  lemma LoopEnds<S>(w: World<S>, g: Global<S>)
    requires g.cpc.CLoopHead?
    ensures Step(w, g, Controller).cpc
            == match w.cfgC.testFrameLimit
               case None => CAwaitWindow
               case Some(n) => if g.frame < n then CAwaitWindow else CSendFinish(true)
  {
  }

  /** The reader appends what arrives, in order, stops after the finish acknowledgement, and records a lost peer. */
  lemma ReaderAppends<S>(w: World<S>, g: Global<S>)
    requires ReaderStarted(g.cpc) && !ControllerClosed(g.cpc) && !g.inbox.isStopped && !g.inbox.terminalError
    ensures g.d2c != [] ==>
              var h := Step(w, g, Reader);
              && h.inbox.messages == g.inbox.messages + [g.d2c[0]] && h.d2c == g.d2c[1..]
              && h.inbox.isStopped == (g.d2c[0] == FinishAcknowledgement) && !h.inbox.terminalError
    ensures g.d2c == [] ==>
              (TryStep(w, g, Reader).Some? <==> g.dpc.DCompleted? || g.dpc.DFailed?)
              && (TryStep(w, g, Reader).Some? ==>
                    Step(w, g, Reader).inbox.terminalError && Step(w, g, Reader).inbox.messages == g.inbox.messages)
  {
  }

  /** A peer that closed with nothing left to read fails a direct receive. */
  lemma LostPeer<S>(w: World<S>, g: Global<S>)
    ensures (g.cpc.CAwaitHello? || g.cpc.CAwaitReady?) && g.d2c == [] && (g.dpc.DCompleted? || g.dpc.DFailed?) ==>
              Step(w, g, Controller).cpc.CFailed?
    ensures (g.dpc.DAwaitHello? || g.dpc.DAwaitSnapshot? || g.dpc.DAwaitStart? || g.dpc.DReceive?)
            && g.c2d == [] && (g.cpc.CCompleted? || g.cpc.CFailed?) ==>
              Step(w, g, Display).dpc.DFailed?
  {
  }
}
