/**
 * The codec as it runs: a writer that appends to its buffer and a reader that moves its offset,
 * proved against `Codec`.
 */
module ByteBuffers {
  import opened Basics
  import opened Messages
  import opened Codec

  class ByteWriter {
    var data: seq<byte>

    constructor ()
      ensures data == []
    {
      data := [];
    }

    method AppendByte(value: byte)
      modifies this
      ensures data == old(data) + [value]
    {
      data := data + [value];
    }

    method AppendUInt16(value: nat)
      requires value < UINT16
      modifies this
      ensures data == old(data) + BigEndian(value, 2)
    {
      assert BigEndian(value / 256, 1) == [value / 256];
      data := data + [value / 256];
      data := data + [value % 256];
    }

    /** One octet for every shift from 56 down to 0. */
    method AppendUInt64(value: nat)
      requires value < UINT64
      modifies this
      ensures data == old(data) + BigEndian(value, 8)
    {
      for i := 0 to 8
        invariant data == old(data) + BigEndian(ShiftedRight(value, 8 - i), i)
      {
        var octet := ShiftedRight(value, 7 - i);
        ShiftedOnce(value, 7 - i);
        assert BigEndian(octet, i + 1) == BigEndian(octet / 256, i) + [octet % 256];
        data := data + [octet % 256];
      }
    }

    method AppendBytes(bytes: seq<byte>)
      modifies this
      ensures data == old(data) + bytes
    {
      data := data + bytes;
    }

    method AppendBit(value: bool)
      modifies this
      ensures data == old(data) + Bit(value)
    {
      AppendByte(if value then 1 else 0);
    }

    /** A text field; nothing is appended if it is too long. */
    method AppendString(bytes: seq<byte>) returns (ok: bool)
      modifies this
      ensures ok == (|bytes| < UINT16)
      ensures data == old(data) + if ok then Text(bytes) else []
    {
      hide BigEndian;
      if |bytes| > 65535 {
        return false;
      }
      AppendUInt16(|bytes|);
      AppendBytes(bytes);
      ok := true;
    }

    /** The fields of a message, after its checks have passed or before one of them fails. */
    method AppendMessage(m: TwoPhoneMessage) returns (ok: bool)
      requires Typed(m) && data == []
      modifies this
      ensures ok == (|TextOf(m)| < UINT16)
      ensures ok ==> data == Layout(m)
    {
      hide BigEndian, Text, Bit, ValidUtf8, DigestBytes;
      ok := true;
      match m
      case Hello(version, romSHA256) =>
        AppendByte(1);
        AppendUInt16(version);
        AppendBytes(romSHA256);
      case Snapshot(state, stateHash) =>
        AppendByte(2);
        AppendUInt64(stateHash);
        AppendBytes(state);
      case Ready => AppendByte(3);
      case Start => AppendByte(8);
      case Input(i) =>
        AppendInput(i);
      case Acknowledgement(a) =>
        AppendAcknowledgement(a);
      case Finish(frame, success, detail) =>
        AppendByte(6);
        AppendUInt64(frame);
        AppendBit(success);
        ok := AppendString(detail);
      case FinishAcknowledgement => AppendByte(7);
      case Failure(detail) =>
        AppendByte(255);
        ok := AppendString(detail);
    }

    method AppendInput(i: DSInputFrame)
      requires Typed(Input(i)) && data == []
      modifies this
      ensures data == Layout(Input(i))
    {
      hide BigEndian, Bit;
      AppendByte(4);
      AppendUInt64(i.frame);
      AppendUInt16(i.keyMask);
      AppendBit(i.touchActive);
      AppendUInt16(i.touchX);
      AppendUInt16(i.touchY);
    }

    method AppendAcknowledgement(a: FrameAcknowledgement)
      requires Typed(Acknowledgement(a)) && data == []
      modifies this
      ensures data == Layout(Acknowledgement(a))
    {
      hide BigEndian, DigestBytes;
      AppendByte(5);
      AppendUInt64(a.frame);
      AppendUInt64(a.processingNanoseconds);
      AppendDigest(a.digest);
    }

    method AppendDigest(digest: Option<EmulatorDigest>)
      requires digest.Some? ==> DigestInRange(digest.value)
      modifies this
      ensures data == old(data) + DigestBytes(digest)
    {
      hide BigEndian, Bit;
      AppendBit(digest.Some?);
      if digest.Some? {
        AppendUInt64(digest.value.state);
        AppendUInt64(digest.value.top);
        AppendUInt64(digest.value.bottom);
      }
    }
  }

  /** v shifted right by k octets. */
  function ShiftedRight(v: nat, k: nat): nat { if k == 0 then v else ShiftedRight(v / 256, k - 1) }

  lemma {:induction false} ShiftedOnce(v: nat, k: nat)
    ensures ShiftedRight(v, k + 1) == ShiftedRight(v, k) / 256
  {
    if k > 0 {
      ShiftedOnce(v / 256, k - 1);
    }
  }

  method Encode(m: TwoPhoneMessage) returns (r: Result<seq<byte>>)
    requires Typed(m)
    ensures r == EncodedPayload(m)
  {
    hide BigEndian, Text, Bit, ValidUtf8, Typed, Layout;
    var writer := new ByteWriter();
    if m.Hello? && |m.romSHA256| != 32 {
      return Err(Malformed);
    }
    var ok := writer.AppendMessage(m);
    if !ok {
      return Err(Malformed);
    }
    if |writer.data| > MAXIMUM_PAYLOAD_LENGTH {
      return Err(OversizedMessage(|writer.data|));
    }
    r := Ok(writer.data);
  }

  class ByteReader {
    const data: seq<byte>
    var offset: nat

    constructor (data: seq<byte>)
      ensures this.data == data && offset == 0
    {
      this.data, offset := data, 0;
    }

    ghost predicate Valid()
      reads this
    {
      offset <= |data|
    }

    function Rest(): seq<byte>
      requires Valid()
      reads this
    {
      data[offset..]
    }

    predicate IsAtEnd()
      reads this
    {
      offset == |data|
    }

    method ReadUInt8() returns (r: Option<byte>)
      requires Valid()
      modifies this
      ensures Valid() && r.Some? == (old(Rest()) != [])
      ensures r.Some? ==> r.value == old(Rest())[0] && Rest() == old(Rest())[1..]
    {
      if offset >= |data| {
        return None;
      }
      r := Some(data[offset]);
      offset := offset + 1;
    }

    /** n octets, each shifting the value read so far up by eight bits. */
    method ReadUInt(n: nat) returns (r: Option<nat>)
      requires Valid()
      modifies this
      ensures Valid() && r.Some? == ReadNumber(old(Rest()), n).Got?
      ensures r.Some? ==> ReadNumber(old(Rest()), n) == Got(r.value, Rest())
    {
      var value: nat := 0;
      ghost var s := Rest();
      for i := 0 to n
        invariant Valid() && i <= |s| && value == Value(s[..i]) && Rest() == s[i..]
      {
        var octet := ReadUInt8();
        if octet.None? {
          return None;
        }
        value := 256 * value + octet.value;
        assert s[..i + 1][..i] == s[..i];
      }
      r := Some(value);
    }

    method ReadData(count: nat) returns (r: Option<seq<byte>>)
      requires Valid()
      modifies this
      ensures Valid() && r.Some? == Codec.ReadData(old(Rest()), count).Got?
      ensures r.Some? ==> Codec.ReadData(old(Rest()), count) == Got(r.value, Rest())
    {
      if offset + count > |data| {
        return None;
      }
      ghost var s := Rest();
      assert data[offset..offset + count] == s[..count] && data[offset + count..] == s[count..];
      r := Some(data[offset..offset + count]);
      offset := offset + count;
    }

    method ReadString() returns (r: Option<seq<byte>>)
      requires Valid()
      modifies this
      ensures Valid() && r.Some? == ReadText(old(Rest())).Got?
      ensures r.Some? ==> ReadText(old(Rest())) == Got(r.value, Rest())
    {
      hide ReadNumber, Codec.ReadData, ValidUtf8;
      var byteCount := ReadUInt(2);
      if byteCount.None? {
        return None;
      }
      var bytes := ReadData(byteCount.value);
      if bytes.None? || !ValidUtf8(bytes.value) {
        return None;
      }
      r := bytes;
    }

    method ReadBit() returns (r: Option<bool>)
      requires Valid()
      modifies this
      ensures Valid() && r.Some? == Codec.ReadBit(old(Rest())).Got?
      ensures r.Some? ==> Codec.ReadBit(old(Rest())) == Got(r.value, Rest())
    {
      hide ReadNumber;
      var octet := ReadUInt(1);
      r := if octet.None? then None else Some(octet.value != 0);
    }

    method ReadInput() returns (r: Option<TwoPhoneMessage>)
      requires Valid()
      modifies this
      ensures Valid() && r.Some? == Codec.ReadInput(old(Rest())).Got?
      ensures r.Some? ==> Codec.ReadInput(old(Rest())) == Got(r.value, Rest())
    {
      hide ReadNumber, Codec.ReadData, Codec.ReadBit, ReadText;
      var frame := ReadUInt(8);
      if frame.None? {
        return None;
      }
      var keyMask := ReadUInt(2);
      if keyMask.None? {
        return None;
      }
      var active := ReadBit();
      if active.None? {
        return None;
      }
      var x := ReadUInt(2);
      if x.None? {
        return None;
      }
      var y := ReadUInt(2);
      if y.None? {
        return None;
      }
      r := Some(Input(DSInputFrame(frame.value, keyMask.value, x.value, y.value, active.value)));
    }

    method ReadDigest(frame: nat) returns (r: Option<Option<EmulatorDigest>>)
      requires Valid()
      modifies this
      ensures Valid() && r.Some? == Codec.ReadDigest(old(Rest()), frame).Got?
      ensures r.Some? ==> Codec.ReadDigest(old(Rest()), frame) == Got(r.value, Rest())
    {
      hide ReadNumber, Codec.ReadData, Codec.ReadBit, ReadText;
      var hasDigest := ReadBit();
      if hasDigest.None? {
        return None;
      }
      if !hasDigest.value {
        return Some(None);
      }
      var state := ReadUInt(8);
      if state.None? {
        return None;
      }
      var top := ReadUInt(8);
      if top.None? {
        return None;
      }
      var bottom := ReadUInt(8);
      if bottom.None? {
        return None;
      }
      r := Some(Some(EmulatorDigest(frame, state.value, top.value, bottom.value)));
    }

    method ReadAcknowledgement() returns (r: Option<TwoPhoneMessage>)
      requires Valid()
      modifies this
      ensures Valid() && r.Some? == Codec.ReadAcknowledgement(old(Rest())).Got?
      ensures r.Some? ==> Codec.ReadAcknowledgement(old(Rest())) == Got(r.value, Rest())
    {
      hide ReadNumber, Codec.ReadData, Codec.ReadBit, ReadText, Codec.ReadDigest;
      var frame := ReadUInt(8);
      if frame.None? {
        return None;
      }
      var nanoseconds := ReadUInt(8);
      if nanoseconds.None? {
        return None;
      }
      var digest := ReadDigest(frame.value);
      if digest.None? {
        return None;
      }
      r := Some(Acknowledgement(FrameAcknowledgement(frame.value, digest.value, nanoseconds.value)));
    }

    method ReadFinish() returns (r: Option<TwoPhoneMessage>)
      requires Valid()
      modifies this
      ensures Valid() && r.Some? == Codec.ReadFinish(old(Rest())).Got?
      ensures r.Some? ==> Codec.ReadFinish(old(Rest())) == Got(r.value, Rest())
    {
      hide ReadNumber, Codec.ReadData, Codec.ReadBit, ReadText;
      var frame := ReadUInt(8);
      if frame.None? {
        return None;
      }
      var success := ReadBit();
      if success.None? {
        return None;
      }
      var detail := ReadString();
      if detail.None? {
        return None;
      }
      r := Some(Finish(frame.value, success.value, detail.value));
    }

    method ReadMessage(kind: byte) returns (r: Option<TwoPhoneMessage>)
      requires Valid() && KnownType(kind)
      modifies this
      ensures Valid() && r.Some? == ReadBody(kind, old(Rest())).Got?
      ensures r.Some? ==> ReadBody(kind, old(Rest())) == Got(r.value, Rest())
    {
      hide ReadNumber, ReadText, Codec.ReadInput, Codec.ReadAcknowledgement, Codec.ReadFinish;
      r := None;
      match kind
      case 1 =>
        var version := ReadUInt(2);
        if version.Some? {
          var hash := ReadData(32);
          r := if hash.Some? then Some(Hello(version.value, hash.value)) else None;
        }
      case 2 =>
        var hash := ReadUInt(8);
        if hash.Some? {
          ghost var s := Rest();
          assert s[..|s|] == s;
          var state := ReadData(|data| - offset);
          r := Some(Snapshot(state.value, hash.value));
        }
      case 3 => r := Some(Ready);
      case 4 => r := ReadInput();
      case 5 => r := ReadAcknowledgement();
      case 6 => r := ReadFinish();
      case 7 => r := Some(FinishAcknowledgement);
      case 8 => r := Some(Start);
      case _ =>
        var detail := ReadString();
        r := if detail.Some? then Some(Failure(detail.value)) else None;
    }
  }

  method DecodePayload(payload: seq<byte>) returns (r: Result<TwoPhoneMessage>)
    ensures r == Decode(payload)
  {
    hide ReadBody;
    if |payload| > MAXIMUM_PAYLOAD_LENGTH {
      return Err(OversizedMessage(|payload|));
    }
    var reader := new ByteReader(payload);
    var kind := reader.ReadUInt8();
    if kind.None? {
      return Err(Malformed);
    }
    if !KnownType(kind.value) {
      return Err(UnsupportedMessage(kind.value));
    }
    var m := reader.ReadMessage(kind.value);
    if m.None? || !reader.IsAtEnd() {
      return Err(Malformed);
    }
    r := Ok(m.value);
  }
}
