/**
 * The payloads of the wire protocol octet by octet: which ones are accepted,
 * what stands at which place, and which texts are well formed.
 */
module WireFormat {
  import opened Basics
  import opened Messages
  import opened Codec
  import opened Framing

  // ---------------------------------------------------------------- numbers at a place

  /** The number in 2, 4 or 8 octets from place i on, most significant first. */
  function U16(p: seq<byte>, i: nat): nat
    requires i + 2 <= |p|
  {
    0x100 * p[i] as int + p[i + 1] as int
  }

  function U32(p: seq<byte>, i: nat): nat
    requires i + 4 <= |p|
  {
    0x1_0000 * U16(p, i) + U16(p, i + 2)
  }

  function U64(p: seq<byte>, i: nat): nat
    requires i + 8 <= |p|
  {
    0x1_0000_0000 * U32(p, i) + U32(p, i + 4)
  }

  lemma Last(s: seq<byte>, x: byte)
    ensures Value(s + [x]) == 256 * Value(s) + x
  {
    assert (s + [x])[..|s|] == s;
  }

  lemma ValueOne(s: seq<byte>)
    requires |s| >= 1
    ensures Value(s[..1]) == s[0]
  {
    assert s[..1] == [] + [s[0]];
    Last([], s[0]);
  }

  lemma ValueNext(s: seq<byte>, n: nat)
    requires n < |s|
    ensures Value(s[..n + 1]) == 256 * Value(s[..n]) + s[n]
  {
    assert s[..n + 1] == s[..n] + [s[n]];
    Last(s[..n], s[n]);
  }

  lemma ValueTwo(s: seq<byte>)
    requires |s| >= 2
    ensures Value(s[..2]) == U16(s, 0)
  {
    hide Value;
    ValueOne(s);
    ValueNext(s, 1);
  }

  lemma ValueFour(s: seq<byte>)
    requires |s| >= 4
    ensures Value(s[..4]) == U32(s, 0)
  {
    hide Value;
    ValueTwo(s);
    ValueNext(s, 2);
    ValueNext(s, 3);
  }

  lemma ValueEight(s: seq<byte>)
    requires |s| >= 8
    ensures Value(s[..8]) == U64(s, 0)
  {
    hide Value;
    ValueFour(s);
    ValueNext(s, 4);
    ValueNext(s, 5);
    ValueNext(s, 6);
    ValueNext(s, 7);
  }

  /** Reading two or eight octets, or one, at a place of a payload. */
  lemma ReadAt(p: seq<byte>, i: nat)
    requires i <= |p|
    ensures ReadNumber(p[i..], 1) == (if i + 1 <= |p| then Got(p[i] as nat, p[i + 1..]) else End)
    ensures ReadNumber(p[i..], 2) == (if i + 2 <= |p| then Got(U16(p, i), p[i + 2..]) else End)
    ensures ReadNumber(p[i..], 8) == (if i + 8 <= |p| then Got(U64(p, i), p[i + 8..]) else End)
  {
    hide Value;
    var s := p[i..];
    if i + 1 <= |p| {
      ValueOne(s);
      assert s[1..] == p[i + 1..];
    }
    if i + 2 <= |p| {
      ValueTwo(s);
      assert s[2..] == p[i + 2..];
    }
    if i + 8 <= |p| {
      ValueEight(s);
      assert s[8..] == p[i + 8..];
    }
  }

  // ---------------------------------------------------------------- what is accepted

  /** A text that stands at place i and ends the payload. */
  predicate TextAt(p: seq<byte>, i: nat) {
    i + 2 <= |p| && |p| == i + 2 + U16(p, i) && ValidUtf8(p[i + 2..])
  }

  /** The payloads of each type that have the right length. */
  predicate Accepted(p: seq<byte>) {
    && 1 <= |p| <= 41943040
    && (|| (p[0] == 1 && |p| == 35)
        || (p[0] == 2 && |p| >= 9)
        || (p[0] in {3, 7, 8} && |p| == 1)
        || (p[0] == 4 && |p| == 16)
        || (p[0] == 5 && |p| >= 18 && |p| == if p[17] == 0 then 18 else 42)
        || (p[0] == 6 && |p| >= 10 && TextAt(p, 10))
        || (p[0] == 255 && TextAt(p, 1)))
  }

  /** What an accepted payload says, by place. */
  function Message(p: seq<byte>): TwoPhoneMessage
    requires Accepted(p)
  {
    if p[0] == 1 then Hello(U16(p, 1), p[3..])
    else if p[0] == 2 then Snapshot(p[9..], U64(p, 1))
    else if p[0] == 3 then Ready
    else if p[0] == 4 then Input(DSInputFrame(U64(p, 1), U16(p, 9), U16(p, 12), U16(p, 14), p[11] != 0))
    else if p[0] == 5 then
      Acknowledgement(FrameAcknowledgement(
        U64(p, 1),
        if p[17] == 0 then None else Some(EmulatorDigest(U64(p, 1), U64(p, 18), U64(p, 26), U64(p, 34))),
        U64(p, 9)))
    else if p[0] == 6 then Finish(U64(p, 1), p[9] != 0, p[12..])
    else if p[0] == 7 then FinishAcknowledgement
    else if p[0] == 8 then Start
    else Failure(p[3..])
  }

  lemma DecodesHello(p: seq<byte>)
    requires |p| >= 1
    ensures ReadHello(p[1..]) == if |p| >= 35 then Got(Hello(U16(p, 1), p[3..35]), p[35..]) else End
  {
    hide Value, ReadNumber;
    ReadAt(p, 1);
    if |p| >= 35 {
      assert p[3..][..32] == p[3..35] && p[3..][32..] == p[35..];
    }
  }

  lemma DecodesSnapshot(p: seq<byte>)
    requires |p| >= 1
    ensures ReadSnapshot(p[1..]) == if |p| >= 9 then Got(Snapshot(p[9..], U64(p, 1)), []) else End
  {
    hide Value, ReadNumber;
    ReadAt(p, 1);
  }

  lemma BitAt(p: seq<byte>, i: nat)
    requires i <= |p|
    ensures ReadBit(p[i..]) == if i + 1 <= |p| then Got(p[i] != 0, p[i + 1..]) else End
  {
    hide Value, ReadNumber;
    ReadAt(p, i);
  }

  lemma DecodesInput(p: seq<byte>)
    requires |p| >= 1
    ensures ReadInput(p[1..])
            == if |p| >= 16 then
                 Got(Input(DSInputFrame(U64(p, 1), U16(p, 9), U16(p, 12), U16(p, 14), p[11] != 0)), p[16..])
               else End
  {
    hide Value, ReadNumber, ReadBit, U16, U64;
    ReadAt(p, 1);
    if |p| >= 9 {
      ReadAt(p, 9);
    }
    if |p| >= 11 {
      BitAt(p, 11);
    }
    if |p| >= 12 {
      ReadAt(p, 12);
    }
    if |p| >= 14 {
      ReadAt(p, 14);
    }
  }

  lemma DecodesDigest(p: seq<byte>, frame: nat)
    requires |p| >= 17
    ensures ReadDigest(p[17..], frame)
            == if |p| == 17 || (p[17] != 0 && |p| < 42) then End
               else if p[17] == 0 then Got(None, p[18..])
               else Got(Some(EmulatorDigest(frame, U64(p, 18), U64(p, 26), U64(p, 34))), p[42..])
  {
    hide Value, ReadNumber, ReadBit, U16, U64;
    BitAt(p, 17);
    if |p| >= 18 {
      ReadAt(p, 18);
    }
    if |p| >= 26 {
      ReadAt(p, 26);
    }
    if |p| >= 34 {
      ReadAt(p, 34);
    }
  }

  lemma DecodesAcknowledgement(p: seq<byte>)
    requires |p| >= 1
    ensures ReadAcknowledgement(p[1..])
            == if |p| < 18 || (p[17] != 0 && |p| < 42) then End
               else
                 Got(Acknowledgement(FrameAcknowledgement(
                       U64(p, 1),
                       if p[17] == 0 then None else Some(EmulatorDigest(U64(p, 1), U64(p, 18), U64(p, 26), U64(p, 34))),
                       U64(p, 9))),
                     if p[17] == 0 then p[18..] else p[42..])
  {
    hide Value, ReadNumber, ReadDigest, U16, U64;
    ReadAt(p, 1);
    if |p| >= 9 {
      ReadAt(p, 9);
    }
    if |p| >= 17 {
      DecodesDigest(p, U64(p, 1));
    }
  }

  lemma DecodesText(p: seq<byte>, i: nat)
    requires i <= |p|
    ensures ReadText(p[i..])
            == if i + 2 <= |p| && i + 2 + U16(p, i) <= |p| && ValidUtf8(p[i + 2..i + 2 + U16(p, i)]) then
                 Got(p[i + 2..i + 2 + U16(p, i)], p[i + 2 + U16(p, i)..])
               else End
  {
    hide Value, ReadNumber, ValidUtf8, U16, U64;
    ReadAt(p, i);
    if i + 2 <= |p| && i + 2 + U16(p, i) <= |p| {
      assert p[i + 2..][..U16(p, i)] == p[i + 2..i + 2 + U16(p, i)];
      assert p[i + 2..][U16(p, i)..] == p[i + 2 + U16(p, i)..];
    }
  }

  lemma DecodesFinish(p: seq<byte>)
    requires |p| >= 1
    ensures ReadFinish(p[1..])
            == if 12 <= |p| && 12 + U16(p, 10) <= |p| && ValidUtf8(p[12..12 + U16(p, 10)]) then
                 Got(Finish(U64(p, 1), p[9] != 0, p[12..12 + U16(p, 10)]), p[12 + U16(p, 10)..])
               else End
  {
    hide Value, ReadNumber, ReadBit, ReadText, ValidUtf8, U16, U64;
    ReadAt(p, 1);
    if |p| >= 9 {
      BitAt(p, 9);
    }
    if |p| >= 10 {
      DecodesText(p, 10);
    }
  }

  lemma WholeText(p: seq<byte>, i: nat, n: nat)
    requires i + n <= |p|
    ensures p[i + n..] == [] <==> |p| == i + n
    ensures |p| == i + n ==> p[i..i + n] == p[i..]
  {
  }

  /**
   * Decoding accepts exactly the payloads above, and reads them so.  The others
   * are refused for their length, for an unknown type, or as malformed.
   */
  lemma DecodesExactly(p: seq<byte>)
    ensures Decode(p)
            == if |p| > 41943040 then Err(OversizedMessage(|p|))
               else if p == [] then Err(Malformed)
               else if p[0] == 0 || 9 <= p[0] < 255 then Err(UnsupportedMessage(p[0]))
               else if Accepted(p) then Ok(Message(p)) else Err(Malformed)
  {
    hide ReadHello, ReadSnapshot, ReadInput, ReadAcknowledgement, ReadFinish, ReadText, ValidUtf8, U16, U64;
    if p != [] {
      DecodesHello(p);
      DecodesSnapshot(p);
      DecodesInput(p);
      DecodesAcknowledgement(p);
      DecodesFinish(p);
      DecodesText(p, 1);
      if |p| >= 35 {
        WholeText(p, 3, 32);
      }
      if |p| >= 12 && 12 + U16(p, 10) <= |p| {
        WholeText(p, 12, U16(p, 10));
      }
      if |p| >= 3 && 3 + U16(p, 1) <= |p| {
        WholeText(p, 3, U16(p, 1));
      }
    }
  }

  // ---------------------------------------------------------------- what is written

  /** The number of octets that a message takes up. */
  function Octets(m: TwoPhoneMessage): nat {
    match m
    case Hello(_, rom) => 3 + |rom|
    case Snapshot(state, _) => 9 + |state|
    case Input(_) => 16
    case Acknowledgement(a) => if a.digest.None? then 18 else 42
    case Finish(_, _, detail) => 12 + |detail|
    case Failure(detail) => 3 + |detail|
    case _ => 1
  }

  /** A text of up to 65535 bytes. */
  predicate ShortText(m: TwoPhoneMessage) {
    (m.Finish? ==> |m.detail| <= 65535) && (m.Failure? ==> |m.detail| <= 65535)
  }

  lemma LayoutLength(m: TwoPhoneMessage)
    ensures |Layout(m)| == Octets(m)
    ensures m.Input? ==> Layout(m)[11] == if m.input.touchActive then 1 else 0
    ensures m.Acknowledgement? ==> Layout(m)[17] == if m.ack.digest.Some? then 1 else 0
    ensures m.Finish? ==> Layout(m)[9] == if m.success then 1 else 0
  {
    hide BigEndian;
  }

  /**
   * What can be encoded: a ROM hash of 32 bytes, a short text, no more than 40 MiB
   * in all.  The payload then is one that decoding accepts, with 1 for true, and
   * says the message, with its digest, if any, of the acknowledged frame.
   */
  lemma EncodesExactly(m: TwoPhoneMessage)
    requires Typed(m)
    ensures EncodedPayload(m).Err? <==> (m.Hello? && |m.romSHA256| != 32) || !ShortText(m) || Octets(m) > 41943040
    ensures (m.Hello? && |m.romSHA256| != 32) || !ShortText(m) ==> EncodedPayload(m) == Err(Malformed)
    ensures (m.Hello? ==> |m.romSHA256| == 32) && ShortText(m) && Octets(m) > 41943040 ==>
              EncodedPayload(m) == Err(OversizedMessage(Octets(m)))
    ensures EncodedPayload(m).Ok? ==>
              var p := EncodedPayload(m).value;
              && Accepted(p) && |p| == Octets(m)
              && (p[0] == 4 ==> p[11] <= 1) && (p[0] == 5 ==> p[17] <= 1) && (p[0] == 6 ==> p[9] <= 1)
              && Message(p) == if m.Acknowledgement? && m.ack.digest.Some? then
                                 m.(ack := m.ack.(digest := Some(m.ack.digest.value.(frame := m.ack.frame))))
                               else m
  {
    hide Layout, ValidUtf8, Decode, Accepted, Message, Typed;
    LayoutLength(m);
    if EncodedPayload(m).Ok? {
      var p := EncodedPayload(m).value;
      DecodeInvertsEncode(m);
      DecodesExactly(p);
      KindOf(m);
    }
  }

  lemma KindOf(m: TwoPhoneMessage)
    ensures |Layout(m)| >= 1
    ensures Layout(m)[0] == 4 ==> m.Input?
    ensures Layout(m)[0] == 5 ==> m.Acknowledgement?
    ensures Layout(m)[0] == 6 ==> m.Finish?
  {
    hide BigEndian;
  }

  // ---------------------------------------------------------------- texts

  /** A Unicode scalar value: any code point but the surrogates. */
  predicate Scalar(c: nat) { c < 0xD800 || 0xE000 <= c < 0x11_0000 }

  /** Its octets, section 3 of RFC 3629. */
  function Utf8(c: nat): seq<byte>
    requires Scalar(c)
  {
    if c < 0x80 then [c]
    else if c < 0x800 then [0xC0 + c / 64, 0x80 + c % 64]
    else if c < 0x1_0000 then [0xE0 + c / 4096, 0x80 + c / 64 % 64, 0x80 + c % 64]
    else [0xF0 + c / 0x4_0000, 0x80 + c / 4096 % 64, 0x80 + c / 64 % 64, 0x80 + c % 64]
  }

  predicate Scalars(text: seq<nat>) { forall i :: 0 <= i < |text| ==> Scalar(text[i]) }

  function Utf8Text(text: seq<nat>): seq<byte>
    requires Scalars(text)
  {
    if text == [] then [] else Utf8(text[0]) + Utf8Text(text[1..])
  }

  /** What one scalar value's octets look like, followed by anything. */
  lemma OneValid(c: nat, rest: seq<byte>)
    requires Scalar(c)
    ensures ValidUtf8(Utf8(c) + rest) == ValidUtf8(rest)
  {
    var s := Utf8(c) + rest;
    if c < 0x80 {
      assert s[1..] == rest;
    } else if c < 0x800 {
      assert 2 <= c / 64 < 32;
      assert s[2..] == rest;
    } else if c < 0x1_0000 {
      Three(c);
      assert s[3..] == rest;
    } else {
      Four(c);
      assert s[4..] == rest;
    }
  }

  lemma Three(c: nat)
    requires 0x800 <= c < 0x1_0000
    ensures c / 4096 < 16 && (c / 4096 == 0 ==> c / 64 % 64 >= 32)
    ensures c / 4096 == 13 ==> c < 0xE000 && (c / 64 % 64 >= 32 <==> c >= 0xD800)
  {
    var (q, r) := (c / 64 / 64, c / 64 % 64);
    assert c / 4096 == q && c / 64 == 64 * q + r;
  }

  lemma Four(c: nat)
    requires 0x1_0000 <= c < 0x11_0000
    ensures c / 0x4_0000 <= 4
    ensures (c / 0x4_0000 == 0 ==> c / 4096 % 64 >= 16) && (c / 0x4_0000 == 4 ==> c / 4096 % 64 < 16)
  {
    var (q, r) := (c / 4096 / 64, c / 4096 % 64);
    assert c / 0x4_0000 == q && c / 4096 == 64 * q + r;
  }

  lemma FromTwo(a: nat, b: nat) returns (c: nat)
    requires 0xC2 <= a < 0xE0 && 0x80 <= b < 0xC0
    ensures Scalar(c) && Utf8(c) == [a, b]
  {
    c := (a - 0xC0) * 64 + (b - 0x80);
    Split(a - 0xC0, b - 0x80);
  }

  lemma FromThree(a: nat, b: nat, d: nat) returns (c: nat)
    requires 0xE0 <= a < 0xF0 && 0x80 <= b < 0xC0 && 0x80 <= d < 0xC0
    requires (a == 0xE0 ==> b >= 0xA0) && (a == 0xED ==> b < 0xA0)
    ensures Scalar(c) && Utf8(c) == [a, b, d]
  {
    var h := (a - 0xE0) * 64 + (b - 0x80);
    c := h * 64 + (d - 0x80);
    Split(a - 0xE0, b - 0x80);
    Split(h, d - 0x80);
    assert c / 4096 == h / 64;
  }

  lemma FromFour(a: nat, b: nat, d: nat, e: nat) returns (c: nat)
    requires 0xF0 <= a < 0xF5 && 0x80 <= b < 0xC0 && 0x80 <= d < 0xC0 && 0x80 <= e < 0xC0
    requires (a == 0xF0 ==> b >= 0x90) && (a == 0xF4 ==> b < 0x90)
    ensures Scalar(c) && Utf8(c) == [a, b, d, e]
  {
    var g := (a - 0xF0) * 64 + (b - 0x80);
    var h := g * 64 + (d - 0x80);
    c := h * 64 + (e - 0x80);
    Split(a - 0xF0, b - 0x80);
    Split(g, d - 0x80);
    Split(h, e - 0x80);
    assert c / 4096 == g && c / 0x4_0000 == g / 64;
  }

  /** A nonempty well-formed text starts with the octets of a scalar value. */
  lemma FirstScalar(s: seq<byte>) returns (c: nat)
    requires s != [] && ValidUtf8(s)
    ensures Scalar(c) && 1 <= |Utf8(c)| <= |s| && s[..|Utf8(c)|] == Utf8(c) && ValidUtf8(s[|Utf8(c)|..])
  {
    if s[0] < 0x80 {
      c := s[0];
      assert s[..1] == Utf8(c);
    } else {
      hide Utf8, Scalar;
      var t := s[1..];
      assert forall i :: 0 <= i < |t| ==> t[i] == s[i + 1];
      if s[0] < 0xE0 {
        assert s[1] == t[0];
        c := FromTwo(s[0], s[1]);
        assert s[..2] == Utf8(c);
      } else if s[0] < 0xF0 {
        assert s[1] == t[0] && s[2] == t[1];
        c := FromThree(s[0], s[1], s[2]);
        assert s[..3] == Utf8(c);
      } else {
        assert s[1] == t[0] && s[2] == t[1] && s[3] == t[2];
        c := FromFour(s[0], s[1], s[2], s[3]);
        assert s[..4] == Utf8(c);
      }
    }
  }

  lemma Split(a: nat, b: nat)
    requires b < 64
    ensures (a * 64 + b) / 64 == a && (a * 64 + b) % 64 == b
  {
  }

  lemma {:induction false} TextIsValid(text: seq<nat>)
    requires Scalars(text)
    ensures ValidUtf8(Utf8Text(text))
  {
    hide Utf8, Scalar;
    if text != [] {
      TextIsValid(text[1..]);
      OneValid(text[0], Utf8Text(text[1..]));
    }
  }

  lemma {:induction false} ValidIsText(s: seq<byte>) returns (text: seq<nat>)
    requires ValidUtf8(s)
    ensures Scalars(text) && s == Utf8Text(text)
    decreases |s|
  {
    hide Utf8, Scalar, ValidUtf8;
    if s == [] {
      text := [];
    } else {
      var c := FirstScalar(s);
      var n := |Utf8(c)|;
      var rest := ValidIsText(s[n..]);
      text := [c] + rest;
      assert text[1..] == rest;
      assert s == s[..n] + s[n..];
    }
  }

  /** A text is well formed exactly if it is the octets of some scalar values, one after the other. */
  lemma Utf8Exactly(s: seq<byte>)
    ensures ValidUtf8(s) <==> exists text: seq<nat> :: Scalars(text) && s == Utf8Text(text)
  {
    hide Utf8, Scalars, ValidUtf8;
    if ValidUtf8(s) {
      var text := ValidIsText(s);
    } else if exists text: seq<nat> :: Scalars(text) && s == Utf8Text(text) {
      var text: seq<nat> :| Scalars(text) && s == Utf8Text(text);
      TextIsValid(text);
      assert false;
    }
  }

  // ---------------------------------------------------------------- frames

  /** A frame is its payload behind the payload's length in four octets, from 1 to 40 MiB. */
  lemma FramesExactly(stream: seq<byte>)
    ensures FirstFrame(stream)
            == if |stream| < 4 then Incomplete
               else
                 var n := U32(stream, 0);
                 if n == 0 || n > 41943040 then BadLength(n)
                 else if |stream| < 4 + n then Incomplete
                 else Payload(stream[4..4 + n], stream[4 + n..])
  {
    hide Value;
    if |stream| >= 4 {
      ValueFour(stream);
    }
  }
}
