/**
 * Length-prefixed frames over a byte stream whose system calls transfer only
 * part of what they are asked to, or are interrupted.
 */
module Framing {
  import opened Basics
  import opened Messages
  import opened Codec

  /** What one `send` or `recv` call does: transfer at most so many bytes, or return an error. */
  datatype Call = Transfers(limit: nat) | Interrupted | Fails

  /** How a transport operation ends; `Pending` means that the calls given were not enough. */
  datatype Outcome<T> = Done(value: T) | PeerClosed | SystemCall | InvalidFrameLength(length: nat)
    | Refused(error: Error) | Pending

  /** No call fails or reports the end of the stream. */
  predicate Willing(calls: seq<Call>) {
    forall i :: 0 <= i < |calls| ==> calls[i].Interrupted? || (calls[i].Transfers? && calls[i].limit > 0)
  }

  /** How many of the calls transfer something. */
  function Progress(calls: seq<Call>): (n: nat)
    ensures n <= |calls|
  {
    if calls == [] then 0
    else Progress(calls[..|calls| - 1]) + if calls[|calls| - 1].Transfers? then 1 else 0
  }

  lemma {:induction false} ProgressSplits(calls: seq<Call>, k: nat)
    requires k <= |calls|
    ensures Progress(calls) == Progress(calls[..k]) + Progress(calls[k..])
  {
    if k < |calls| {
      var n := |calls| - 1;
      ProgressSplits(calls[..n], k);
      assert calls[..n][..k] == calls[..k] && calls[..n][k..] == calls[k..][..n - k];
    } else {
      assert calls[..k] == calls;
    }
  }

  // ---------------------------------------------------------------- frames as values

  function Frame(payload: seq<byte>): seq<byte> { BigEndian(|payload|, 4) + payload }

  predicate AllEncodable(messages: seq<TwoPhoneMessage>) {
    forall i :: 0 <= i < |messages| ==> EncodedPayload(messages[i]).Ok?
  }

  /** The bytes of some messages that can be encoded, one frame after the other. */
  function Frames(messages: seq<TwoPhoneMessage>): seq<byte>
    requires AllEncodable(messages)
  {
    if messages == [] then []
    else Frame(EncodedPayload(messages[0]).value) + Frames(messages[1..])
  }

  /** The first frame of a stream, and what follows it. */
  datatype Received = Incomplete | BadLength(length: nat) | Payload(payload: seq<byte>, rest: seq<byte>)

  function FirstFrame(stream: seq<byte>): Received {
    if |stream| < 4 then Incomplete
    else
      var length := Value(stream[..4]);
      if length == 0 || length > MAXIMUM_PAYLOAD_LENGTH then BadLength(length)
      else if |stream| < 4 + length then Incomplete
      else Payload(stream[4..4 + length], stream[4 + length..])
  }

  lemma FrameFirst(payload: seq<byte>, rest: seq<byte>)
    requires 0 < |payload| <= MAXIMUM_PAYLOAD_LENGTH
    ensures FirstFrame(Frame(payload) + rest) == Payload(payload, rest)
  {
    hide BigEndian, Value, Power256;
    Widths();
    ValueOfBigEndian(|payload|, 4);
    var stream := Frame(payload) + rest;
    assert stream[..4] == BigEndian(|payload|, 4);
    assert stream[4..4 + |payload|] == payload && stream[4 + |payload|..] == rest;
  }

  lemma EncodedIsNotEmpty(m: TwoPhoneMessage)
    requires EncodedPayload(m).Ok?
    ensures 0 < |EncodedPayload(m).value| <= MAXIMUM_PAYLOAD_LENGTH
  {
    hide BigEndian, DigestBytes, Text, Bit;
  }

  // ---------------------------------------------------------------- the transport

  class TCPSocketTransport {
    // what this end has put into the stream, and what it has not yet taken out
    var outgoing: seq<byte>
    var incoming: seq<byte>

    constructor ()
      ensures outgoing == incoming == []
    {
      outgoing, incoming := [], [];
    }

    /** Send all of `bytes`, however few each call accepts. */
    method WriteAll(bytes: seq<byte>, calls: seq<Call>) returns (r: Outcome<()>, used: nat)
      modifies this`outgoing
      ensures used <= |calls|
      ensures r.Done? ==> outgoing == old(outgoing) + bytes
      ensures !r.Done? ==> exists n :: 0 <= n <= |bytes| && outgoing == old(outgoing) + bytes[..n]
      ensures r.Done? || r.PeerClosed? || r.SystemCall? || (r.Pending? && used == |calls|)
      ensures Willing(calls) && Progress(calls) >= |bytes| ==> r.Done?
    {
      var offset := 0;
      used := 0;
      assert bytes[..0] == [];
      while offset < |bytes|
        invariant 0 <= offset <= |bytes| && used <= |calls|
        invariant outgoing == old(outgoing) + bytes[..offset]
        invariant Progress(calls[..used]) <= offset
        decreases |calls| - used
      {
        if used == |calls| {
          assert calls[..used] == calls;
          return Pending, used;
        }
        assert calls[..used + 1][..used] == calls[..used];
        var call := calls[used];
        used := used + 1;
        match call
        case Interrupted =>
        case Fails => return SystemCall, used;
        case Transfers(limit) =>
          var sent := if limit < |bytes| - offset then limit else |bytes| - offset;
          if sent == 0 {
            return PeerClosed, used;
          }
          outgoing := outgoing + bytes[offset..offset + sent];
          assert bytes[..offset] + bytes[offset..offset + sent] == bytes[..offset + sent];
          offset := offset + sent;
      }
      assert bytes[..|bytes|] == bytes;
      r := Done(());
    }

    /** Receive exactly `count` bytes, however few each call delivers. */
    method ReadExactly(count: nat, calls: seq<Call>) returns (r: Outcome<seq<byte>>, used: nat)
      modifies this`incoming
      ensures used <= |calls|
      ensures r.Done? ==> |r.value| == count && old(incoming) == r.value + incoming
      ensures !r.Done? ==> exists n :: 0 <= n <= |old(incoming)| && n <= count && incoming == old(incoming)[n..]
      ensures r.Done? || r.PeerClosed? || r.SystemCall? || (r.Pending? && used == |calls|)
      ensures Progress(calls[..used]) <= count
      ensures Willing(calls) && Progress(calls) >= count && count <= |old(incoming)| ==> r.Done?
    {
      var bytes: seq<byte> := [];
      used := 0;
      assert old(incoming) == bytes + incoming;
      while |bytes| < count
        invariant |bytes| <= count && used <= |calls| && old(incoming) == bytes + incoming
        invariant incoming == old(incoming)[|bytes|..]
        invariant Progress(calls[..used]) <= |bytes|
        decreases |calls| - used
      {
        if used == |calls| {
          assert calls[..used] == calls;
          return Pending, used;
        }
        assert calls[..used + 1][..used] == calls[..used];
        var call := calls[used];
        used := used + 1;
        match call
        case Interrupted =>
        case Fails => return SystemCall, used;
        case Transfers(limit) =>
          var wanted := count - |bytes|;
          var received := if limit < wanted then limit else wanted;
          received := if received < |incoming| then received else |incoming|;
          if received == 0 {
            return PeerClosed, used;
          }
          assert bytes + incoming == bytes + incoming[..received] + incoming[received..];
          bytes := bytes + incoming[..received];
          incoming := incoming[received..];
      }
      r := Done(bytes);
    }

    method Send(m: TwoPhoneMessage, calls: seq<Call>) returns (r: Outcome<()>, used: nat)
      modifies this`outgoing
      ensures used <= |calls|
      ensures EncodedPayload(m).Err? ==> r == Refused(EncodedPayload(m).error) && outgoing == old(outgoing)
      ensures EncodedPayload(m).Ok? ==> r.Done? || r.PeerClosed? || r.SystemCall? || r.Pending?
      ensures EncodedPayload(m).Ok? && Willing(calls) && Progress(calls) >= 4 + |EncodedPayload(m).value| ==> r.Done?
      ensures r.Done? ==> EncodedPayload(m).Ok? && outgoing == old(outgoing) + Frame(EncodedPayload(m).value)
      ensures EncodedPayload(m).Ok? && !r.Done? ==>
                exists n :: 0 <= n <= |Frame(EncodedPayload(m).value)|
                            && outgoing == old(outgoing) + Frame(EncodedPayload(m).value)[..n]
    {
      hide EncodedPayload;
      match EncodedPayload(m)
      case Err(error) => return Refused(error), 0;
      case Ok(payload) =>
        EncodedIsNotEmpty(m);
        var length := |payload|;
        var framed := [length / 0x100_0000 % 256, length / 0x1_0000 % 256, length / 256 % 256, length % 256] + payload;
        FrameBytes(payload);
        r, used := WriteAll(framed, calls);
    }

    method Receive(calls: seq<Call>) returns (r: Outcome<TwoPhoneMessage>)
      modifies this`incoming
      ensures r.Done? ==>
                var f := FirstFrame(old(incoming));
                f.Payload? && incoming == f.rest && Decode(f.payload) == Ok(r.value)
      ensures r.Refused? ==>
                var f := FirstFrame(old(incoming));
                f.Payload? && incoming == f.rest && Decode(f.payload) == Err(r.error)
      ensures r.InvalidFrameLength?
              ==> FirstFrame(old(incoming)) == BadLength(r.length) && incoming == old(incoming)[4..]
      ensures r.PeerClosed? || r.SystemCall? || r.Pending? ==>
                exists n :: 0 <= n <= |old(incoming)| && incoming == old(incoming)[n..]
      ensures var f := FirstFrame(old(incoming));
              f.BadLength? && Willing(calls) && Progress(calls) >= 4 ==> r == InvalidFrameLength(f.length)
      ensures var f := FirstFrame(old(incoming));
              f.Payload? && Willing(calls) && Progress(calls) >= 4 + |f.payload| ==> r.Done? || r.Refused?
    {
      hide Decode;
      var header, used := ReadExactly(4, calls);
      match header
      case Done(bytes) =>
        var length := HeaderLength(bytes);
        assert old(incoming)[..4] == bytes && old(incoming)[4..] == incoming;
        if !(length > 0 && length <= MAXIMUM_PAYLOAD_LENGTH) {
          return InvalidFrameLength(length);
        }
        ghost var body := incoming;
        ProgressSplits(calls, used);
        var payload, usedMore := ReadExactly(length, calls[used..]);
        match payload {
          case Done(data) =>
            assert body[..length] == data && body[length..] == incoming;
            assert old(incoming)[4..4 + length] == body[..length] && old(incoming)[4 + length..] == body[length..];
            match Decode(data) {
              case Ok(m) => r := Done(m);
              case Err(error) => r := Refused(error);
            }
          case PeerClosed => r := PeerClosed;
          case SystemCall => r := SystemCall;
          case Pending => r := Pending;
        }
      case PeerClosed => r := PeerClosed;
      case SystemCall => r := SystemCall;
      case Pending => r := Pending;
    }

    /** The header's octets folded from the left. */
    static method HeaderLength(header: seq<byte>) returns (length: nat)
      ensures length == Value(header)
    {
      length := 0;
      for i := 0 to |header|
        invariant length == Value(header[..i])
      {
        length := length * 256 + header[i];
        assert header[..i + 1][..i] == header[..i];
      }
      assert header[..|header|] == header;
    }
  }

  lemma FrameBytes(payload: seq<byte>)
    ensures var n := |payload|;
            Frame(payload) == [n / 0x100_0000 % 256, n / 0x1_0000 % 256, n / 256 % 256, n % 256] + payload
  {
    var n := |payload|;
    assert n / 256 / 256 == n / 0x1_0000 && n / 256 / 256 / 256 == n / 0x100_0000;
    FourBytes(n);
  }

  lemma FourBytes(n: nat)
    ensures BigEndian(n, 4) == [n / 256 / 256 / 256 % 256, n / 256 / 256 % 256, n / 256 % 256, n % 256]
  {
    var (a, b, c) := (n / 256, n / 256 / 256, n / 256 / 256 / 256);
    assert BigEndian(c, 1) == BigEndian(c / 256, 0) + [c % 256] == [c % 256];
    assert BigEndian(b, 2) == BigEndian(c, 1) + [b % 256];
    assert BigEndian(a, 3) == BigEndian(b, 2) + [a % 256];
  }

  // ---------------------------------------------------------------- whole conversations

  /** Messages that come back as they were sent. */
  predicate Sendable(m: TwoPhoneMessage) {
    && Typed(m) && EncodedPayload(m).Ok?
    && (m.Acknowledgement? && m.ack.digest.Some? ==> m.ack.digest.value.frame == m.ack.frame)
  }

  predicate AllSendable(messages: seq<TwoPhoneMessage>) {
    forall i :: 0 <= i < |messages| ==> Sendable(messages[i])
  }

  lemma SendableEncodable(messages: seq<TwoPhoneMessage>)
    requires AllSendable(messages)
    ensures AllEncodable(messages)
  {
    hide EncodedPayload, Typed;
  }

  lemma FirstOfFrames(messages: seq<TwoPhoneMessage>, rest: seq<byte>)
    requires messages != [] && AllSendable(messages)
    ensures AllEncodable(messages) && AllEncodable(messages[1..])
    ensures FirstFrame(Frames(messages) + rest)
            == Payload(EncodedPayload(messages[0]).value, Frames(messages[1..]) + rest)
    ensures Decode(EncodedPayload(messages[0]).value) == Ok(messages[0])
  {
    hide EncodedPayload, Frame, FirstFrame, Decode, Typed;
    SendableEncodable(messages);
    assert Sendable(messages[0]) && EncodedPayload(messages[0]).Ok?;
    var payload := EncodedPayload(messages[0]).value;
    EncodedIsNotEmpty(messages[0]);
    assert Frames(messages) + rest == Frame(payload) + (Frames(messages[1..]) + rest);
    FrameFirst(payload, Frames(messages[1..]) + rest);
    DecodeInvertsEncode(messages[0]);
  }

  lemma {:induction false} FramesAppend(messages: seq<TwoPhoneMessage>, m: TwoPhoneMessage)
    requires AllEncodable(messages) && EncodedPayload(m).Ok?
    ensures AllEncodable(messages + [m])
    ensures Frames(messages + [m]) == Frames(messages) + Frame(EncodedPayload(m).value)
  {
    hide EncodedPayload, Frame;
    if messages != [] {
      FramesAppend(messages[1..], m);
      assert (messages + [m])[1..] == messages[1..] + [m];
    } else {
      assert ([] + [m])[1..] == [];
    }
  }

  /** Calls that never fail and transfer at least a byte each, as many as the message's frame is long. */
  predicate Suffices(calls: seq<Call>, m: TwoPhoneMessage) {
    Willing(calls) && EncodedPayload(m).Ok? && Progress(calls) >= 4 + |EncodedPayload(m).value|
  }

  /**
   * The stream round trip: whatever the calls on either side transfer at a time,
   * if they suffice, the receiver gets exactly the list of messages that was
   * sent, and the stream is left empty.
   */
  method Conversation(messages: seq<TwoPhoneMessage>, sends: seq<seq<Call>>, receives: seq<seq<Call>>)
    returns (ok: bool, received: seq<TwoPhoneMessage>)
    requires |sends| == |receives| == |messages| && AllSendable(messages)
    ensures received <= messages
    ensures ok ==> received == messages
    ensures (forall i :: 0 <= i < |messages| ==> Suffices(sends[i], messages[i]) && Suffices(receives[i], messages[i]))
            ==> ok
  {
    hide EncodedPayload, Frames, Frame, FirstFrame, Decode, Typed;
    var sender := new TCPSocketTransport();
    received := [];
    FramesNone();
    SendableEncodable(messages);
    for i := 0 to |messages|
      invariant AllEncodable(messages[..i]) && sender.outgoing == Frames(messages[..i])
    {
      var r, used := sender.Send(messages[i], sends[i]);
      if !r.Done? {
        return false, received;
      }
      FramesAppend(messages[..i], messages[i]);
      assert messages[..i + 1] == messages[..i] + [messages[i]];
    }
    assert messages[..|messages|] == messages;
    var receiver := new TCPSocketTransport();
    receiver.incoming := sender.outgoing;
    assert messages[0..] == messages;
    for i := 0 to |messages|
      invariant received == messages[..i]
      invariant AllEncodable(messages[i..]) && receiver.incoming == Frames(messages[i..])
    {
      FirstOfFrames(messages[i..], []);
      assert messages[i..][1..] == messages[i + 1..];
      assert Frames(messages[i..]) + [] == Frames(messages[i..]);
      assert Frames(messages[i + 1..]) + [] == Frames(messages[i + 1..]);
      var r := receiver.Receive(receives[i]);
      if !r.Done? {
        return false, received;
      }
      received := received + [r.value];
    }
    ok := true;
  }

  lemma FramesNone()
    ensures Frames([]) == []
  {
  }
}
