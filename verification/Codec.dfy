/** The wire form of the two phones' messages: big-endian fields after a type byte. */
module Codec {
  import opened Basics
  import opened Messages

  datatype Error = Malformed | UnsupportedMessage(kind: byte) | OversizedMessage(length: nat)

  datatype Result<T> = Ok(value: T) | Err(error: Error)

  const MAXIMUM_PAYLOAD_LENGTH := 40 * 1024 * 1024

  const UINT16: nat := 0x1_0000

  const UINT64: nat := 0x1_0000_0000_0000_0000

  // ---------------------------------------------------------------- numbers

  /** n octets of v, most significant first. */
  function BigEndian(v: nat, n: nat): (s: seq<byte>)
    ensures |s| == n
  {
    if n == 0 then [] else BigEndian(v / 256, n - 1) + [v % 256]
  }

  lemma {:induction false} ValueOfBigEndian(v: nat, n: nat)
    requires v < Power256(n)
    ensures Value(BigEndian(v, n)) == v
  {
    if n > 0 {
      ValueOfBigEndian(v / 256, n - 1);
      assert BigEndian(v, n)[..n - 1] == BigEndian(v / 256, n - 1);
    }
  }

  lemma {:induction false} BigEndianOfValue(s: seq<byte>)
    ensures Value(s) < Power256(|s|) && BigEndian(Value(s), |s|) == s
  {
    if s != [] {
      BigEndianOfValue(s[..|s| - 1]);
    }
  }

  lemma Widths()
    ensures Power256(1) == 256 && Power256(2) == UINT16 && Power256(4) == 0x1_0000_0000 && Power256(8) == UINT64
  {
    assert Power256(4) == 256 * 256 * 256 * 256;
    assert Power256(8) == 256 * 256 * 256 * 256 * Power256(4);
  }

  // ---------------------------------------------------------------- texts

  predicate Continues(s: seq<byte>, n: nat) { |s| >= n && forall i :: 0 <= i < n ==> 0x80 <= s[i] < 0xC0 }

  /** Well-formed UTF-8, section 4 of RFC 3629. */
  predicate ValidUtf8(s: seq<byte>) {
    if s == [] then true
    else if s[0] < 0x80 then ValidUtf8(s[1..])
    else if 0xC2 <= s[0] < 0xE0 then Continues(s[1..], 1) && ValidUtf8(s[2..])
    else if 0xE0 <= s[0] < 0xF0 then
      Continues(s[1..], 2) && (s[0] == 0xE0 ==> s[1] >= 0xA0) && (s[0] == 0xED ==> s[1] < 0xA0) && ValidUtf8(s[3..])
    else
      0xF0 <= s[0] < 0xF5 && Continues(s[1..], 3)
      && (s[0] == 0xF0 ==> s[1] >= 0x90) && (s[0] == 0xF4 ==> s[1] < 0x90) && ValidUtf8(s[4..])
  }

  // ---------------------------------------------------------------- encoding

  function Bit(b: bool): seq<byte> { [if b then 1 else 0] }

  function Text(detail: seq<byte>): seq<byte> { BigEndian(|detail|, 2) + detail }

  function DigestBytes(digest: Option<EmulatorDigest>): seq<byte> {
    match digest
    case None => Bit(false)
    case Some(d) => Bit(true) + BigEndian(d.state, 8) + BigEndian(d.top, 8) + BigEndian(d.bottom, 8)
  }

  /** The payload before the checks that can refuse it. */
  function Layout(m: TwoPhoneMessage): seq<byte> {
    match m
    case Hello(version, romSHA256) => [1] + BigEndian(version, 2) + romSHA256
    case Snapshot(state, stateHash) => [2] + BigEndian(stateHash, 8) + state
    case Ready => [3]
    case Start => [8]
    case Input(i) =>
      [4] + BigEndian(i.frame, 8) + BigEndian(i.keyMask, 2) + Bit(i.touchActive) + BigEndian(i.touchX, 2)
        + BigEndian(i.touchY, 2)
    case Acknowledgement(a) =>
      [5] + BigEndian(a.frame, 8) + BigEndian(a.processingNanoseconds, 8) + DigestBytes(a.digest)
    case Finish(frame, success, detail) => [6] + BigEndian(frame, 8) + Bit(success) + Text(detail)
    case FinishAcknowledgement => [7]
    case Failure(detail) => [255] + Text(detail)
  }

  function TextOf(m: TwoPhoneMessage): seq<byte> {
    match m
    case Finish(_, _, detail) => detail
    case Failure(detail) => detail
    case _ => []
  }

  function EncodedPayload(m: TwoPhoneMessage): Result<seq<byte>> {
    if m.Hello? && |m.romSHA256| != 32 then Err(Malformed)
    else if |TextOf(m)| >= UINT16 then Err(Malformed)
    else if |Layout(m)| > MAXIMUM_PAYLOAD_LENGTH then Err(OversizedMessage(|Layout(m)|))
    else Ok(Layout(m))
  }

  // ---------------------------------------------------------------- decoding

  /** A value read, and the bytes after it. */
  datatype Read<+T> = Got(value: T, rest: seq<byte>) | End

  function ReadNumber(s: seq<byte>, n: nat): Read<nat> {
    if |s| < n then End else Got(Value(s[..n]), s[n..])
  }

  function ReadData(s: seq<byte>, n: nat): Read<seq<byte>> {
    if |s| < n then End else Got(s[..n], s[n..])
  }

  function ReadBit(s: seq<byte>): Read<bool> {
    match ReadNumber(s, 1)
    case End => End
    case Got(v, rest) => Got(v != 0, rest)
  }

  function ReadText(s: seq<byte>): Read<seq<byte>> {
    match ReadNumber(s, 2)
    case End => End
    case Got(n, rest) =>
      match ReadData(rest, n)
      case End => End
      case Got(bytes, after) => if ValidUtf8(bytes) then Got(bytes, after) else End
  }

  function ReadHello(s: seq<byte>): Read<TwoPhoneMessage> {
    match ReadNumber(s, 2)
    case End => End
    case Got(version, s1) =>
      match ReadData(s1, 32)
      case End => End
      case Got(hash, s2) => Got(Hello(version, hash), s2)
  }

  function ReadSnapshot(s: seq<byte>): Read<TwoPhoneMessage> {
    match ReadNumber(s, 8)
    case End => End
    case Got(hash, s1) => Got(Snapshot(s1, hash), [])
  }

  function ReadInput(s: seq<byte>): Read<TwoPhoneMessage> {
    match ReadNumber(s, 8)
    case End => End
    case Got(frame, s1) =>
      match ReadNumber(s1, 2)
      case End => End
      case Got(keyMask, s2) =>
        match ReadBit(s2)
        case End => End
        case Got(active, s3) =>
          match ReadNumber(s3, 2)
          case End => End
          case Got(x, s4) =>
            match ReadNumber(s4, 2)
            case End => End
            case Got(y, s5) => Got(Input(DSInputFrame(frame, keyMask, x, y, active)), s5)
  }

  function ReadDigest(s: seq<byte>, frame: nat): Read<Option<EmulatorDigest>> {
    match ReadBit(s)
    case End => End
    case Got(false, s1) => Got(None, s1)
    case Got(true, s1) =>
      match ReadNumber(s1, 8)
      case End => End
      case Got(state, s2) =>
        match ReadNumber(s2, 8)
        case End => End
        case Got(top, s3) =>
          match ReadNumber(s3, 8)
          case End => End
          case Got(bottom, s4) => Got(Some(EmulatorDigest(frame, state, top, bottom)), s4)
  }

  function ReadAcknowledgement(s: seq<byte>): Read<TwoPhoneMessage> {
    match ReadNumber(s, 8)
    case End => End
    case Got(frame, s1) =>
      match ReadNumber(s1, 8)
      case End => End
      case Got(nanoseconds, s2) =>
        match ReadDigest(s2, frame)
        case End => End
        case Got(digest, s3) => Got(Acknowledgement(FrameAcknowledgement(frame, digest, nanoseconds)), s3)
  }

  function ReadFinish(s: seq<byte>): Read<TwoPhoneMessage> {
    match ReadNumber(s, 8)
    case End => End
    case Got(frame, s1) =>
      match ReadBit(s1)
      case End => End
      case Got(success, s2) =>
        match ReadText(s2)
        case End => End
        case Got(detail, s3) => Got(Finish(frame, success, detail), s3)
  }

  function ReadFailure(s: seq<byte>): Read<TwoPhoneMessage> {
    match ReadText(s)
    case End => End
    case Got(detail, s1) => Got(Failure(detail), s1)
  }

  predicate KnownType(kind: byte) { 1 <= kind <= 8 || kind == 255 }

  /** The fields of a message of a known type. */
  function ReadBody(kind: byte, s: seq<byte>): Read<TwoPhoneMessage>
    requires KnownType(kind)
  {
    if kind == 1 then ReadHello(s)
    else if kind == 2 then ReadSnapshot(s)
    else if kind == 3 then Got(Ready, s)
    else if kind == 4 then ReadInput(s)
    else if kind == 5 then ReadAcknowledgement(s)
    else if kind == 6 then ReadFinish(s)
    else if kind == 7 then Got(FinishAcknowledgement, s)
    else if kind == 8 then Got(Start, s)
    else ReadFailure(s)
  }

  function Decode(payload: seq<byte>): Result<TwoPhoneMessage> {
    if |payload| > MAXIMUM_PAYLOAD_LENGTH then Err(OversizedMessage(|payload|))
    else if payload == [] then Err(Malformed)
    else if !KnownType(payload[0]) then Err(UnsupportedMessage(payload[0]))
    else
      match ReadBody(payload[0], payload[1..])
      case End => Err(Malformed)
      case Got(m, rest) => if rest == [] then Ok(m) else Err(Malformed)
  }

  // ---------------------------------------------------------------- round trips

  lemma NumberRead(v: nat, n: nat, rest: seq<byte>)
    requires v < Power256(n)
    ensures ReadNumber(BigEndian(v, n) + rest, n) == Got(v, rest)
  {
    hide BigEndian, Value;
    var s := BigEndian(v, n) + rest;
    assert s[..n] == BigEndian(v, n) && s[n..] == rest;
    ValueOfBigEndian(v, n);
  }

  lemma BitRead(b: bool, rest: seq<byte>)
    ensures ReadBit(Bit(b) + rest) == Got(b, rest)
  {
    var s := Bit(b) + rest;
    assert s[..1] == Bit(b) && s[1..] == rest;
    assert Value(s[..1]) == s[0];
  }

  lemma TextRead(detail: seq<byte>, rest: seq<byte>)
    requires |detail| < UINT16 && ValidUtf8(detail)
    ensures ReadText(Text(detail) + rest) == Got(detail, rest)
  {
    hide BigEndian, ValidUtf8, ReadNumber, Power256;
    Widths();
    assert Text(detail) + rest == BigEndian(|detail|, 2) + (detail + rest);
    NumberRead(|detail|, 2, detail + rest);
    assert (detail + rest)[..|detail|] == detail && (detail + rest)[|detail|..] == rest;
  }

  predicate DigestInRange(d: EmulatorDigest) {
    d.frame < UINT64 && d.state < UINT64 && d.top < UINT64 && d.bottom < UINT64
  }

  /** The field types of the source: unsigned integers of 16 and 64 bits, and texts. */
  predicate Typed(m: TwoPhoneMessage) {
    match m
    case Hello(version, _) => version < UINT16
    case Snapshot(_, stateHash) => stateHash < UINT64
    case Input(i) => i.frame < UINT64 && i.keyMask < UINT16 && i.touchX < UINT16 && i.touchY < UINT16
    case Acknowledgement(a) =>
      a.frame < UINT64 && a.processingNanoseconds < UINT64 && (a.digest.Some? ==> DigestInRange(a.digest.value))
    case Finish(frame, _, detail) => frame < UINT64 && ValidUtf8(detail)
    case Failure(detail) => ValidUtf8(detail)
    case _ => true
  }

  lemma DigestRead(digest: Option<EmulatorDigest>, frame: nat, rest: seq<byte>)
    requires digest.Some? ==> DigestInRange(digest.value)
    ensures ReadDigest(DigestBytes(digest) + rest, frame)
            == Got(if digest.None? then None else Some(digest.value.(frame := frame)), rest)
  {
    hide BigEndian, ReadNumber, ReadBit, Bit, Power256;
    Widths();
    match digest
    case None => BitRead(false, rest);
    case Some(d) =>
      var s3 := BigEndian(d.bottom, 8) + rest;
      var s2 := BigEndian(d.top, 8) + s3;
      var s1 := BigEndian(d.state, 8) + s2;
      assert DigestBytes(digest) + rest == Bit(true) + s1;
      BitRead(true, s1);
      NumberRead(d.state, 8, s2);
      NumberRead(d.top, 8, s3);
      NumberRead(d.bottom, 8, rest);
  }

  lemma LayoutOfInput(a: seq<byte>, b: seq<byte>, c: seq<byte>, d: seq<byte>, e: seq<byte>)
    ensures ([4] + a + b + c + d + e)[1..] == a + (b + (c + (d + (e + []))))
  {
    assert [4] + a + b + c + d + e == [4] + (a + (b + (c + (d + (e + [])))));
  }

  lemma InputRead(i: DSInputFrame)
    requires Typed(Input(i))
    ensures ReadInput(Layout(Input(i))[1..]) == Got(Input(i), [])
  {
    hide BigEndian, ReadNumber, ReadBit, Bit, Power256;
    Widths();
    var s4 := BigEndian(i.touchY, 2) + [];
    var s3 := BigEndian(i.touchX, 2) + s4;
    var s2 := Bit(i.touchActive) + s3;
    var s1 := BigEndian(i.keyMask, 2) + s2;
    LayoutOfInput(
      BigEndian(i.frame, 8), BigEndian(i.keyMask, 2), Bit(i.touchActive), BigEndian(i.touchX, 2),
      BigEndian(i.touchY, 2));
    assert Layout(Input(i))[1..] == BigEndian(i.frame, 8) + s1;
    NumberRead(i.frame, 8, s1);
    NumberRead(i.keyMask, 2, s2);
    BitRead(i.touchActive, s3);
    NumberRead(i.touchX, 2, s4);
    NumberRead(i.touchY, 2, []);
  }

  lemma LayoutOfAcknowledgement(a: seq<byte>, b: seq<byte>, c: seq<byte>)
    ensures ([5] + a + b + c)[1..] == a + (b + (c + []))
  {
    assert [5] + a + b + c == [5] + (a + (b + (c + [])));
  }

  lemma AcknowledgementRead(a: FrameAcknowledgement)
    requires Typed(Acknowledgement(a))
    ensures ReadAcknowledgement(Layout(Acknowledgement(a))[1..])
            == Got(Relabelled(Acknowledgement(a)), [])
  {
    hide BigEndian, ReadNumber, ReadDigest, DigestBytes, Power256;
    Widths();
    var s2 := DigestBytes(a.digest) + [];
    var s1 := BigEndian(a.processingNanoseconds, 8) + s2;
    LayoutOfAcknowledgement(BigEndian(a.frame, 8), BigEndian(a.processingNanoseconds, 8), DigestBytes(a.digest));
    NumberRead(a.frame, 8, s1);
    NumberRead(a.processingNanoseconds, 8, s2);
    DigestRead(a.digest, a.frame, []);
  }

  lemma FinishRead(frame: nat, success: bool, detail: seq<byte>)
    requires Typed(Finish(frame, success, detail)) && |detail| < UINT16
    ensures ReadFinish(Layout(Finish(frame, success, detail))[1..]) == Got(Finish(frame, success, detail), [])
  {
    hide BigEndian, ReadNumber, ReadBit, Bit, ReadText, Text, ValidUtf8, Power256;
    Widths();
    var s2 := Text(detail) + [];
    var s1 := Bit(success) + s2;
    assert Layout(Finish(frame, success, detail))[1..] == BigEndian(frame, 8) + s1;
    NumberRead(frame, 8, s1);
    BitRead(success, s2);
    TextRead(detail, []);
  }

  lemma SimpleRead(m: TwoPhoneMessage)
    requires Typed(m) && |TextOf(m)| < UINT16 && (m.Hello? ==> |m.romSHA256| == 32)
    requires !m.Input? && !m.Acknowledgement? && !m.Finish?
    ensures KnownType(Layout(m)[0]) && ReadBody(Layout(m)[0], Layout(m)[1..]) == Got(m, [])
  {
    hide BigEndian, ReadNumber, ReadText, Text, ValidUtf8, Power256, ReadInput, ReadAcknowledgement, ReadFinish;
    Widths();
    var s := Layout(m)[1..];
    match m
    case Hello(version, hash) =>
      assert s == BigEndian(version, 2) + hash;
      NumberRead(version, 2, hash);
      assert hash[..32] == hash;
    case Snapshot(state, hash) =>
      assert s == BigEndian(hash, 8) + state;
      NumberRead(hash, 8, state);
    case Failure(detail) =>
      assert s == Text(detail) + [];
      TextRead(detail, []);
    case _ =>
  }

  /** What comes back of a message: the digest of an acknowledgement takes over its frame number. */
  function Relabelled(m: TwoPhoneMessage): TwoPhoneMessage {
    if m.Acknowledgement? && m.ack.digest.Some? then
      Acknowledgement(m.ack.(digest := Some(m.ack.digest.value.(frame := m.ack.frame))))
    else m
  }

  /**
   * `decode` inverts `encodedPayload`, for every message that can be encoded, if
   * and only if an acknowledgement's digest is of the acknowledged frame.
   */
  lemma DecodeInvertsEncode(m: TwoPhoneMessage)
    requires Typed(m) && EncodedPayload(m).Ok?
    ensures Decode(EncodedPayload(m).value) == Ok(Relabelled(m))
    ensures Decode(EncodedPayload(m).value) == Ok(m)
            <==> (m.Acknowledgement? && m.ack.digest.Some? ==> m.ack.digest.value.frame == m.ack.frame)
  {
    hide ReadInput, ReadAcknowledgement, ReadFinish, ReadHello, ReadSnapshot, ReadFailure, BigEndian, Text, ValidUtf8;
    hide DigestBytes, Bit, Value;
    match m
    case Input(i) => InputRead(i);
    case Acknowledgement(a) => AcknowledgementRead(a);
    case Finish(frame, success, detail) => FinishRead(frame, success, detail);
    case _ => SimpleRead(m);
  }

  lemma NumberWritten(s: seq<byte>, n: nat)
    requires ReadNumber(s, n).Got?
    ensures s == BigEndian(ReadNumber(s, n).value, n) + ReadNumber(s, n).rest && ReadNumber(s, n).value < Power256(n)
  {
    BigEndianOfValue(s[..n]);
  }

  lemma BitWritten(s: seq<byte>)
    requires ReadBit(s).Got?
    ensures s != [] && ReadBit(s).rest == s[1..] && s[0 := if s[0] != 0 then 1 else 0] == Bit(ReadBit(s).value) + s[1..]
  {
    assert Value(s[..1]) == s[0];
  }

  lemma TextWritten(s: seq<byte>)
    requires ReadText(s).Got?
    ensures s == Text(ReadText(s).value) + ReadText(s).rest
    ensures |ReadText(s).value| < UINT16 && ValidUtf8(ReadText(s).value)
  {
    hide BigEndian, ReadNumber, ValidUtf8, Power256;
    Widths();
    NumberWritten(s, 2);
  }

  /** Where a payload of this type has a byte that is read as a truth value. */
  function FlagAt(kind: byte): Option<nat> {
    if kind == 4 then Some(11) else if kind == 5 then Some(17) else if kind == 6 then Some(9) else None
  }

  /** The payload with every nonzero truth value written as one. */
  function Canonical(p: seq<byte>): seq<byte>
    requires p != []
  {
    var at := FlagAt(p[0]);
    if at.Some? && at.value < |p| then p[at.value := if p[at.value] != 0 then 1 else 0] else p
  }

  lemma FlagSplits(p: seq<byte>, before: seq<byte>, s: seq<byte>)
    requires p == before + s && s != [] && before != [] && FlagAt(p[0]) == Some(|before|)
    ensures Canonical(p) == before + s[0 := if s[0] != 0 then 1 else 0]
  {
  }

  lemma InputWritten(p: seq<byte>)
    requires p != [] && p[0] == 4 && ReadInput(p[1..]).Got? && ReadInput(p[1..]).rest == []
    ensures ReadInput(p[1..]).value.Input?
    ensures Typed(ReadInput(p[1..]).value) && Canonical(p) == Layout(ReadInput(p[1..]).value)
  {
    hide BigEndian, ReadNumber, ReadBit, Bit, Power256, Canonical;
    Widths();
    var s := p[1..];
    NumberWritten(s, 8);
    var s1 := ReadNumber(s, 8).rest;
    NumberWritten(s1, 2);
    var s2 := ReadNumber(s1, 2).rest;
    BitWritten(s2);
    var s3 := ReadBit(s2).rest;
    NumberWritten(s3, 2);
    var s4 := ReadNumber(s3, 2).rest;
    NumberWritten(s4, 2);
    var before := [4] + BigEndian(ReadNumber(s, 8).value, 8) + BigEndian(ReadNumber(s1, 2).value, 2);
    assert p == [4] + s;
    assert p == before + s2;
    FlagSplits(p, before, s2);
  }

  lemma DigestWritten(s: seq<byte>, frame: nat)
    requires ReadDigest(s, frame).Got? && ReadDigest(s, frame).rest == [] && frame < UINT64
    ensures s != [] && s[0 := if s[0] != 0 then 1 else 0] == DigestBytes(ReadDigest(s, frame).value)
    ensures ReadDigest(s, frame).value.Some? ==> DigestInRange(ReadDigest(s, frame).value.value)
  {
    hide BigEndian, ReadNumber, ReadBit, Bit, Power256;
    Widths();
    BitWritten(s);
    if ReadBit(s).value {
      var s1 := ReadBit(s).rest;
      NumberWritten(s1, 8);
      var s2 := ReadNumber(s1, 8).rest;
      NumberWritten(s2, 8);
      var s3 := ReadNumber(s2, 8).rest;
      NumberWritten(s3, 8);
    }
  }

  lemma AcknowledgementWritten(p: seq<byte>)
    requires p != [] && p[0] == 5 && ReadAcknowledgement(p[1..]).Got? && ReadAcknowledgement(p[1..]).rest == []
    ensures ReadAcknowledgement(p[1..]).value.Acknowledgement? && Typed(ReadAcknowledgement(p[1..]).value)
    ensures Canonical(p) == Layout(ReadAcknowledgement(p[1..]).value)
  {
    hide BigEndian, ReadNumber, ReadDigest, DigestBytes, Power256, Canonical;
    Widths();
    var s := p[1..];
    NumberWritten(s, 8);
    var s1 := ReadNumber(s, 8).rest;
    NumberWritten(s1, 8);
    var s2 := ReadNumber(s1, 8).rest;
    DigestWritten(s2, ReadNumber(s, 8).value);
    var before := [5] + BigEndian(ReadNumber(s, 8).value, 8) + BigEndian(ReadNumber(s1, 8).value, 8);
    assert p == [5] + s;
    assert p == before + s2;
    FlagSplits(p, before, s2);
  }

  lemma FinishWritten(p: seq<byte>)
    requires p != [] && p[0] == 6 && ReadFinish(p[1..]).Got? && ReadFinish(p[1..]).rest == []
    ensures ReadFinish(p[1..]).value.Finish?
    ensures Typed(ReadFinish(p[1..]).value) && |TextOf(ReadFinish(p[1..]).value)| < UINT16
    ensures Canonical(p) == Layout(ReadFinish(p[1..]).value)
  {
    hide BigEndian, ReadNumber, ReadBit, Bit, ReadText, Text, ValidUtf8, Power256, Canonical;
    Widths();
    var s := p[1..];
    NumberWritten(s, 8);
    var s1 := ReadNumber(s, 8).rest;
    BitWritten(s1);
    var s2 := ReadBit(s1).rest;
    TextWritten(s2);
    var before := [6] + BigEndian(ReadNumber(s, 8).value, 8);
    assert p == [6] + s;
    assert p == before + s1;
    FlagSplits(p, before, s1);
  }

  lemma SimpleWritten(p: seq<byte>)
    requires p != [] && KnownType(p[0]) && FlagAt(p[0]).None?
    requires ReadBody(p[0], p[1..]).Got? && ReadBody(p[0], p[1..]).rest == []
    ensures var m := ReadBody(p[0], p[1..]).value;
            Typed(m) && |TextOf(m)| < UINT16 && (m.Hello? ==> |m.romSHA256| == 32) && p == Layout(m)
  {
    hide BigEndian, ReadNumber, ReadText, Text, ValidUtf8, Power256, ReadInput, ReadAcknowledgement, ReadFinish;
    Widths();
    var s := p[1..];
    assert p == [p[0]] + s;
    if p[0] == 1 {
      NumberWritten(s, 2);
    } else if p[0] == 2 {
      NumberWritten(s, 8);
    } else if p[0] == 255 {
      TextWritten(s);
    }
  }

  /**
   * Conversely, whatever `decode` accepts it can encode again, into the same
   * payload except that a truth value other than zero becomes one.
   */
  lemma EncodeInvertsDecode(p: seq<byte>)
    requires Decode(p).Ok?
    ensures p != [] && Typed(Decode(p).value) && EncodedPayload(Decode(p).value) == Ok(Canonical(p))
  {
    hide ReadInput, ReadAcknowledgement, ReadFinish, ReadHello, ReadSnapshot, ReadFailure, Text, ValidUtf8;
    hide DigestBytes, Bit, Value, Layout, Typed;
    if p[0] == 4 {
      InputWritten(p);
    } else if p[0] == 5 {
      AcknowledgementWritten(p);
    } else if p[0] == 6 {
      FinishWritten(p);
    } else {
      SimpleWritten(p);
    }
  }
}
