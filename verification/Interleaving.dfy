/**
 * Both ends of a stream at once, one system call at a time: a `send` call hands
 * over part of the current frame, a `recv` call takes part of what the current
 * read still wants, in any order.
 */
module Interleaving {
  import opened Basics
  import opened Messages
  import opened Codec
  import opened Framing

  type Positive = n: int | n >= 1 witness 1

  /** Where the receiving loops are: in a header, in a payload of known length, or out by an error. */
  datatype Reading = Header(bytes: seq<byte>) | Body(length: nat, bytes: seq<byte>) | Broken

  /** Messages not yet encoded, the rest of the frame being sent, the bytes between, and the receiver. */
  datatype Wire = Wire(
    queue: seq<TwoPhoneMessage>, frame: seq<byte>, inFlight: seq<byte>,
    reading: Reading, received: seq<TwoPhoneMessage>)

  datatype Move = Sends(limit: Positive) | Receives(limit: Positive)

  function Initial(messages: seq<TwoPhoneMessage>): Wire { Wire(messages, [], [], Header([]), []) }

  function Least(a: nat, b: nat): nat { if a < b then a else b }

  // ---------------------------------------------------------------- moves

  /** The next message is encoded when the last frame is out. */
  function Encoded(x: Wire): Wire {
    if x.frame == [] && x.queue != [] && EncodedPayload(x.queue[0]).Ok? then
      x.(queue := x.queue[1..], frame := Frame(EncodedPayload(x.queue[0]).value))
    else x
  }

  function SendMove(x: Wire, limit: Positive): Wire {
    var y := Encoded(x);
    var n := Least(limit, |y.frame|);
    y.(frame := y.frame[n..], inFlight := y.inFlight + y.frame[..n])
  }

  function Wanted(reading: Reading): int {
    match reading
    case Header(bytes) => 4 - |bytes|
    case Body(length, bytes) => length - |bytes|
    case Broken => 0
  }

  /** A read that has all its bytes ends: a header opens a payload, a payload is decoded. */
  function Ended(x: Wire): Wire {
    match x.reading
    case Header(bytes) =>
      if |bytes| < 4 then x
      else
        var length := Value(bytes);
        if 0 < length <= MAXIMUM_PAYLOAD_LENGTH then x.(reading := Body(length, [])) else x.(reading := Broken)
    case Body(length, bytes) =>
      if |bytes| < length then x
      else
        var m := Decode(bytes);
        if m.Ok? then x.(reading := Header([]), received := x.received + [m.value]) else x.(reading := Broken)
    case Broken => x
  }

  function Extended(reading: Reading, more: seq<byte>): Reading {
    match reading
    case Header(bytes) => Header(bytes + more)
    case Body(length, bytes) => Body(length, bytes + more)
    case Broken => Broken
  }

  function ReceiveMove(x: Wire, limit: Positive): Wire {
    if Wanted(x.reading) <= 0 then x
    else
      var n := Least(Least(limit, Wanted(x.reading)), |x.inFlight|);
      Ended(x.(inFlight := x.inFlight[n..], reading := Extended(x.reading, x.inFlight[..n])))
  }

  function Moved(x: Wire, move: Move): Wire {
    match move
    case Sends(limit) => SendMove(x, limit)
    case Receives(limit) => ReceiveMove(x, limit)
  }

  function Run(messages: seq<TwoPhoneMessage>, moves: seq<Move>): Wire {
    if moves == [] then Initial(messages) else Moved(Run(messages, moves[..|moves| - 1]), moves[|moves| - 1])
  }

  // ---------------------------------------------------------------- nothing is lost, nothing is added

  /** The bytes of the current message that the receiver has taken. */
  function Partial(reading: Reading): seq<byte> {
    match reading
    case Header(bytes) => bytes
    case Body(length, bytes) => BigEndian(length, 4) + bytes
    case Broken => []
  }

  predicate Within(reading: Reading) {
    match reading
    case Header(bytes) => |bytes| < 4
    case Body(length, bytes) => |bytes| < length <= MAXIMUM_PAYLOAD_LENGTH
    case Broken => false
  }

  /** What is taken, in flight, and still to be sent is the frames of the messages not yet received. */
  predicate Conserved(messages: seq<TwoPhoneMessage>, x: Wire) {
    && AllSendable(messages) && AllEncodable(messages) && AllEncodable(x.queue)
    && x.received <= messages && AllEncodable(messages[|x.received|..])
    && Partial(x.reading) + (x.inFlight + (x.frame + Frames(x.queue))) == Frames(messages[|x.received|..])
  }

  predicate Inv(messages: seq<TwoPhoneMessage>, x: Wire) { Within(x.reading) && Conserved(messages, x) }

  lemma InitialInv(messages: seq<TwoPhoneMessage>)
    requires AllSendable(messages)
    ensures Inv(messages, Initial(messages))
  {
    hide Frames, EncodedPayload, Sendable;
    SendableEncodable(messages);
    assert messages[0..] == messages;
  }

  lemma EncodedKeeps(messages: seq<TwoPhoneMessage>, x: Wire)
    requires Inv(messages, x)
    ensures Inv(messages, Encoded(x)) && Encoded(x).received == x.received
  {
    hide EncodedPayload, Frame, AllSendable, Partial;
    if x.frame == [] && x.queue != [] {
      assert EncodedPayload(x.queue[0]).Ok?;
      assert AllEncodable(x.queue[1..]);
      assert [] + Frames(x.queue) == Frame(EncodedPayload(x.queue[0]).value) + Frames(x.queue[1..]);
    }
  }

  lemma SendKeeps(messages: seq<TwoPhoneMessage>, x: Wire, limit: Positive)
    requires Inv(messages, x)
    ensures Inv(messages, SendMove(x, limit)) && SendMove(x, limit).received == x.received
  {
    hide Encoded, Frames, AllSendable, AllEncodable, Partial;
    EncodedKeeps(messages, x);
    var y := Encoded(x);
    var n := Least(limit, |y.frame|);
    Regroup(y.inFlight, y.frame[..n], y.frame[n..], Frames(y.queue));
    assert y.frame[..n] + y.frame[n..] == y.frame;
  }

  lemma Regroup(a: seq<byte>, b: seq<byte>, c: seq<byte>, d: seq<byte>)
    ensures a + ((b + c) + d) == (a + b) + (c + d)
  {
  }

  /** Taking bytes keeps the whole; only afterwards may a read be complete. */
  lemma TakeKeeps(messages: seq<TwoPhoneMessage>, x: Wire, n: nat)
    requires Inv(messages, x) && n <= |x.inFlight|
    ensures Conserved(messages, x.(inFlight := x.inFlight[n..], reading := Extended(x.reading, x.inFlight[..n])))
  {
    hide Frames, AllSendable, AllEncodable, BigEndian;
    var rest := x.frame + Frames(x.queue);
    var (a, b) := (x.inFlight[..n], x.inFlight[n..]);
    assert a + b == x.inFlight;
    assert Partial(Extended(x.reading, a)) == Partial(x.reading) + a;
    assert Partial(x.reading) + ((a + b) + rest) == (Partial(x.reading) + a) + (b + rest);
  }

  /** Some bytes are there, so some message is still to be received; the stream starts with its frame. */
  lemma NextFrame(messages: seq<TwoPhoneMessage>, x: Wire)
    requires Conserved(messages, x) && Partial(x.reading) != []
    ensures |x.received| < |messages| && AllEncodable(messages[|x.received| + 1..])
    ensures var m := messages[|x.received|];
            && EncodedPayload(m).Ok? && Decode(EncodedPayload(m).value) == Ok(m)
            && FirstFrame(Partial(x.reading) + (x.inFlight + (x.frame + Frames(x.queue))))
               == Payload(EncodedPayload(m).value, Frames(messages[|x.received| + 1..]))
  {
    hide EncodedPayload, Frame, FirstFrame, Decode, Sendable;
    var left := messages[|x.received|..];
    if left != [] {
      FirstOfFrames(left, []);
      assert left[0] == messages[|x.received|] && left[1..] == messages[|x.received| + 1..];
      assert Frames(left) + [] == Frames(left) && Frames(left[1..]) + [] == Frames(left[1..]);
    }
  }

  lemma FrameOf(stream: seq<byte>, header: seq<byte>, rest: seq<byte>)
    requires stream == header + rest && |header| == 4 && FirstFrame(stream).Payload?
    ensures var f := FirstFrame(stream);
            && Value(header) == |f.payload| && 0 < |f.payload| <= MAXIMUM_PAYLOAD_LENGTH
            && header == BigEndian(|f.payload|, 4) && rest == f.payload + f.rest
  {
    hide Value, BigEndian;
    assert stream[..4] == header && stream[4..] == rest;
    BigEndianOfValue(header);
    var length := Value(header);
    assert rest == stream[4..4 + length] + stream[4 + length..];
  }

  lemma EndedKeeps(messages: seq<TwoPhoneMessage>, x: Wire)
    requires Conserved(messages, x) && Wanted(x.reading) >= 0
    requires !x.reading.Broken? && (x.reading.Body? ==> 0 < x.reading.length <= MAXIMUM_PAYLOAD_LENGTH)
    ensures Inv(messages, Ended(x)) && x.received <= Ended(x).received
  {
    hide Frames, EncodedPayload, Decode, FirstFrame, BigEndian, Sendable, Value;
    var after := x.inFlight + (x.frame + Frames(x.queue));
    match x.reading
    case Header(bytes) =>
      if |bytes| == 4 {
        NextFrame(messages, x);
        FrameOf(bytes + after, bytes, after);
        assert BigEndian(Value(bytes), 4) + [] == bytes;
      }
    case Body(length, bytes) =>
      if |bytes| == length {
        var header := BigEndian(length, 4);
        NextFrame(messages, x);
        assert (header + bytes) + after == header + (bytes + after);
        FrameOf((header + bytes) + after, header, bytes + after);
        ValueOfHeader(length);
        var m := messages[|x.received|];
        SamePrefix(bytes, after, EncodedPayload(m).value, Frames(messages[|x.received| + 1..]));
        assert x.received + [m] <= messages;
        assert [] + after == after;
      }
  }

  lemma ValueOfHeader(length: nat)
    requires length <= MAXIMUM_PAYLOAD_LENGTH
    ensures Value(BigEndian(length, 4)) == length
  {
    hide Value, BigEndian, Power256;
    Widths();
    ValueOfBigEndian(length, 4);
  }

  lemma SamePrefix(a: seq<byte>, b: seq<byte>, c: seq<byte>, d: seq<byte>)
    requires a + b == c + d && |a| == |c|
    ensures a == c && b == d
  {
    assert a == (a + b)[..|a|] == c && b == (a + b)[|a|..] == d;
  }

  lemma ReceiveKeeps(messages: seq<TwoPhoneMessage>, x: Wire, limit: Positive)
    requires Inv(messages, x)
    ensures Inv(messages, ReceiveMove(x, limit)) && x.received <= ReceiveMove(x, limit).received
  {
    hide Conserved, Ended;
    var n := Least(Least(limit, Wanted(x.reading)), |x.inFlight|);
    TakeKeeps(messages, x, n);
    EndedKeeps(messages, x.(inFlight := x.inFlight[n..], reading := Extended(x.reading, x.inFlight[..n])));
  }

  // ---------------------------------------------------------------- every run

  lemma {:induction false} RunInv(messages: seq<TwoPhoneMessage>, moves: seq<Move>)
    requires AllSendable(messages)
    ensures Inv(messages, Run(messages, moves))
  {
    hide Inv, SendMove, ReceiveMove, AllSendable;
    if moves == [] {
      InitialInv(messages);
    } else {
      RunInv(messages, moves[..|moves| - 1]);
      var x := Run(messages, moves[..|moves| - 1]);
      match moves[|moves| - 1]
      case Sends(limit) => SendKeeps(messages, x, limit);
      case Receives(limit) => ReceiveKeeps(messages, x, limit);
    }
  }

  /**
   * However the calls of the two ends are interleaved and whatever each of them
   * transfers, the receiver never fails, what it has received is always a prefix of
   * what is sent, and when all bytes are out and taken it is everything.
   */
  lemma ReceivesWhatIsSent(messages: seq<TwoPhoneMessage>, moves: seq<Move>)
    requires AllSendable(messages)
    ensures var x := Run(messages, moves);
            && !x.reading.Broken? && x.received <= messages
            && (x.queue == [] && x.frame == [] && x.inFlight == [] ==> x.received == messages)
  {
    hide Run, EncodedPayload, Frame, Sendable;
    RunInv(messages, moves);
    var x := Run(messages, moves);
    if x.queue == [] && x.frame == [] && x.inFlight == [] && |x.received| < |messages| {
      var left := messages[|x.received|..];
      assert Partial(x.reading) + ([] + ([] + Frames([]))) == Partial(x.reading);
      if Partial(x.reading) == [] {
        FirstIsLong(left);
      } else {
        NextFrame(messages, x);
        assert FirstFrame(Partial(x.reading)).Payload?;
        TooShort(x.reading);
      }
    }
  }

  lemma FirstIsLong(messages: seq<TwoPhoneMessage>)
    requires messages != [] && AllEncodable(messages)
    ensures |Frames(messages)| >= 4
  {
    hide EncodedPayload;
  }

  lemma TooShort(reading: Reading)
    requires Within(reading)
    ensures !FirstFrame(Partial(reading)).Payload?
  {
    hide Value, BigEndian;
    if reading.Body? {
      ValueOfHeader(reading.length);
      assert Partial(reading)[..4] == BigEndian(reading.length, 4);
    }
  }

  // ---------------------------------------------------------------- progress

  /** Calls that can still transfer something: each byte is sent once and received once. */
  function Transfers(x: Wire): nat
    requires AllEncodable(x.queue)
  {
    2 * (|x.frame| + |Frames(x.queue)|) + |x.inFlight|
  }

  /** As long as bytes are left, one of the ends can move, and every move that does anything transfers a byte. */
  lemma MovesTransfer(messages: seq<TwoPhoneMessage>, x: Wire, limit: Positive)
    requires Inv(messages, x)
    ensures var (s, r) := (SendMove(x, limit), ReceiveMove(x, limit));
            && AllEncodable(s.queue) && AllEncodable(r.queue)
            && (x.frame != [] || x.queue != [] ==> Transfers(s) < Transfers(x))
            && (x.inFlight != [] ==> Transfers(r) < Transfers(x))
            && (x.inFlight == [] ==> r == x)
  {
    hide EncodedPayload, Frame, Conserved, Decode;
    assert AllEncodable(x.queue) by { ConservedQueue(messages, x); }
    if x.frame == [] && x.queue != [] {
      FirstIsFramed(x.queue);
    }
  }

  lemma ConservedQueue(messages: seq<TwoPhoneMessage>, x: Wire)
    requires Conserved(messages, x)
    ensures AllEncodable(x.queue)
  {
  }

  lemma FirstIsFramed(messages: seq<TwoPhoneMessage>)
    requires messages != [] && AllEncodable(messages)
    ensures EncodedPayload(messages[0]).Ok? && AllEncodable(messages[1..])
    ensures |Frames(messages)| == |Frame(EncodedPayload(messages[0]).value)| + |Frames(messages[1..])|
    ensures |Frame(EncodedPayload(messages[0]).value)| >= 4
  {
    hide EncodedPayload;
  }
}
