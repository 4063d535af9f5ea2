/**
 * The controller's inbox as the object its two threads share, and the
 * acknowledgement handling built on it.  Each method is one critical section
 * under the inbox lock; `next` is called once its wait has ended.
 */
module Inbox {
  import opened Basics
  import opened Messages
  import opened Session

  class ControllerMessageInbox {
    var messages: seq<TwoPhoneMessage>
    var isStopped: bool
    var terminalError: bool

    constructor ()
      ensures State() == EMPTY_INBOX
    {
      messages, isStopped, terminalError := [], false, false;
    }

    function State(): InboxState
      reads this
    {
      InboxState(messages, isStopped, terminalError)
    }

    /** `removeFirst` when a message is there, otherwise the error that ended the inbox. */
    method Next() returns (r: Option<TwoPhoneMessage>)
      requires !InboxNext(State()).Blocked?
      modifies this
      ensures InboxNext(old(State())).Got? ==>
                r == Some(InboxNext(old(State())).message) && State() == InboxNext(old(State())).rest
      ensures InboxNext(old(State())).Throws? ==> r == None && State() == old(State())
    {
      if |messages| > 0 {
        r := Some(messages[0]);
        messages := messages[1..];
      } else {
        r := None;
      }
    }

    /** The reader's critical section after a successful receive. */
    method Deliver(m: TwoPhoneMessage) returns (reachedEnd: bool)
      modifies this
      ensures old(isStopped) ==> reachedEnd && State() == old(State())
      ensures !old(isStopped) ==> reachedEnd == m.FinishAcknowledgement? && State() == InboxDeliver(old(State()), m)
    {
      if isStopped {
        return true;
      }
      messages := messages + [m];
      reachedEnd := m == FinishAcknowledgement;
      if reachedEnd {
        isStopped := true;
      }
    }

    /** The reader's critical section after a failed receive. */
    method Fail()
      modifies this
      ensures State() == if old(isStopped) then old(State()) else old(State()).(terminalError := true)
    {
      if !isStopped {
        terminalError := true;
      }
    }

    method Stop()
      modifies this
      ensures State() == old(State()).(isStopped := true)
    {
      isStopped := true;
    }
  }

  datatype AckOutcome = Accepted | Rejected | Mismatched

  /** How long the display took since the last matched checkpoint: the sum, the longest, the number of frames. */
  datatype FrameTiming = FrameTiming(total: nat, maximum: nat, count: nat)

  const NO_TIMING := FrameTiming(0, 0, 0)

  function Recorded(t: FrameTiming, nanoseconds: nat): FrameTiming {
    FrameTiming(t.total + nanoseconds, if nanoseconds > t.maximum then nanoseconds else t.maximum, t.count + 1)
  }

  /** The loop variables that the acknowledgement handler updates in place. */
  class ControllerProgress {
    var pendingFrames: seq<Pending>
    var checkpoints: nat
    var lastDigest: Option<EmulatorDigest>
    var displayFrameTiming: FrameTiming

    /**
     * `receiveControllerAcknowledgement`: the outcome and every updated variable
     * are those of the transition system's step; a thrown error leaves the
     * progress as it was.
     */
    method ReceiveControllerAcknowledgement(inbox: ControllerMessageInbox) returns (outcome: AckOutcome)
      requires !ReceiveAcknowledgement(inbox.State(), pendingFrames, checkpoints, lastDigest).AckBlocked?
      modifies this, inbox
      ensures var r := old(ReceiveAcknowledgement(inbox.State(), pendingFrames, checkpoints, lastDigest));
              match r
              case AckThrows =>
                outcome.Rejected? && pendingFrames == old(pendingFrames)
                && checkpoints == old(checkpoints) && lastDigest == old(lastDigest)
                && displayFrameTiming == old(displayFrameTiming)
              case AckTaken(rest, pending, count, last, failed) =>
                outcome == (if failed then Mismatched else Accepted)
                && inbox.State() == rest && pendingFrames == pending && checkpoints == count && lastDigest == last
                && old(inbox.messages) != [] && old(inbox.messages[0]).Acknowledgement?
                && displayFrameTiming
                   == if old(pendingFrames[0]).needsDigest && !failed then NO_TIMING
                      else Recorded(old(displayFrameTiming), old(inbox.messages[0]).ack.processingNanoseconds)
    {
      if |pendingFrames| == 0 {
        return Rejected;
      }
      var pending := pendingFrames[0];
      var next := inbox.Next();
      if next.None? || !next.value.Acknowledgement? {
        return Rejected;
      }
      var acknowledgement := next.value.ack;
      if acknowledgement.frame != pending.frame {
        return Rejected;
      }
      pendingFrames := pendingFrames[1..];
      Record(acknowledgement.processingNanoseconds);
      if !pending.needsDigest {
        return Accepted;
      }
      checkpoints := checkpoints + 1;
      lastDigest := pending.digest;
      if pending.digest.None? || acknowledgement.digest.None? {
        return Mismatched;
      }
      if pending.digest.value != acknowledgement.digest.value {
        return Mismatched;
      }
      displayFrameTiming := NO_TIMING;
      return Accepted;
    }

    method Record(nanoseconds: nat)
      modifies this`displayFrameTiming
      ensures displayFrameTiming == Recorded(old(displayFrameTiming), nanoseconds)
    {
      var t := displayFrameTiming;
      t := t.(total := t.total + nanoseconds);
      if nanoseconds > t.maximum {
        t := t.(maximum := nanoseconds);
      }
      displayFrameTiming := t.(count := t.count + 1);
    }
  }
}
