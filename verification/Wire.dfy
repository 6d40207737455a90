/** The codec as the broker runs it: a cursor that decoding advances, and a buffer that encoding fills. */
module Wire {
  import opened Segments
  import opened Protocol
  import Codec

  /** The fields of a header as a cursor reads them: each from where the one before it ends. */
  lemma HeaderSlices(b: Bytes)
    requires |b| >= FIXED_HEADER_SIZE
    ensures b[0..2] == b[..2] && b[4..36] == b[4..][..32] && b[36..52] == b[36..][..16] && b[52..56] == b[52..][..4]
    ensures b[58..60] == b[58..][..2] && b[60..64] == b[60..][..4]
    ensures b[2..][1..] == b[3..] && b[3..][1..] == b[4..] && b[4..][32..] == b[36..] && b[36..][16..] == b[52..]
    ensures b[52..][4..] == b[56..] && b[56..][1..] == b[57..] && b[57..][1..] == b[58..] && b[58..][2..] == b[60..]
    ensures b[60..][4..] == b[64..]
  {
  }

  /** The unread part of an input buffer. */
  class ReadBuffer {
    var rest: Bytes

    constructor (bytes: Bytes)
      ensures rest == bytes
    {
      rest := bytes;
    }

    method GetU8() returns (b: Byte)
      requires |rest| >= 1
      modifies this
      ensures b == old(rest)[0] && rest == old(rest)[1..]
    {
      b, rest := rest[0], rest[1..];
    }

    method CopyToBytes(n: nat) returns (bytes: Bytes)
      requires |rest| >= n
      modifies this
      ensures bytes == old(rest)[..n] && rest == old(rest)[n..]
    {
      bytes, rest := rest[..n], rest[n..];
    }

    method GetU16Le() returns (v: U16)
      requires |rest| >= 2
      modifies this
      ensures v == Codec.Get16(old(rest)[..2]) && rest == old(rest)[2..]
    {
      var lo := GetU8();
      var hi := GetU8();
      v := lo as int + 0x100 * (hi as int);
    }

    method GetU32Le() returns (v: U32)
      requires |rest| >= 4
      modifies this
      ensures v == Codec.Get32(old(rest)[..4]) && rest == old(rest)[4..]
    {
      ghost var was := rest[..4];
      var lo := GetU16Le();
      var hi := GetU16Le();
      assert was[..2] == old(rest)[..2] && was[2..] == old(rest)[2..][..2];
      v := lo as int + 0x1_0000 * (hi as int);
    }

    /** Reads and checks the fixed header; on success the cursor is just past it. */
    method DecodeHeader() returns (r: Result<Header>)
      modifies this
      ensures r == Codec.DecodeHeader(old(rest))
      ensures r.Ok? ==> rest == old(rest)[FIXED_HEADER_SIZE..]
    {
      ghost var b := rest;
      if |rest| < FIXED_HEADER_SIZE {
        return Err(IncompleteHeader);
      }
      HeaderSlices(b);
      var version := GetU16Le();
      if version != PROTOCOL_VERSION {
        assert b[0..2] == b[..2];
        return Err(UnsupportedVersion(version));
      }
      var flags := GetU8();
      var priority := GetU8();
      var sessionToken := CopyToBytes(SESSION_TOKEN_LEN);
      var messageId := CopyToBytes(MESSAGE_ID_LEN);
      var subMessageId := CopyToBytes(SUB_MESSAGE_ID_LEN);
      var ttl := GetU8();
      var msgTypeLen := GetU8();
      var addressLen := GetU16Le();
      var payloadLen := GetU32Le();
      var h := Header(version, flags, priority, sessionToken, messageId, subMessageId, ttl, msgTypeLen, addressLen, payloadLen);
      assert h == Codec.RawHeader(b);
      if addressLen > MAX_ADDRESS_LEN {
        return Err(AddressTooLong);
      }
      if payloadLen > MAX_PAYLOAD_LEN {
        return Err(PayloadTooLarge(payloadLen));
      }
      return Ok(h);
    }

    method DecodeReplyTo(mode: TransferMode) returns (r: Result<Bytes>)
      modifies this
      ensures
        match Codec.DecodeReplyTo(mode, old(rest))
        case Ok((replyTo, after)) => r == Ok(replyTo) && rest == after
        case Err(e) => r == Err(e)
    {
      if mode == InOnly {
        return Ok([]);
      }
      if |rest| < 2 {
        return Err(IncompleteReplyTo);
      }
      var n := GetU16Le();
      if n == 0 {
        return Err(MissingReplyToForInOut);
      }
      if n > MAX_ADDRESS_LEN {
        return Err(ReplyToTooLong);
      }
      if |rest| < n {
        return Err(IncompleteReplyTo);
      }
      var replyTo := CopyToBytes(n);
      if !Utf8(replyTo) {
        return Err(InvalidReplyToUtf8);
      }
      match ValidateAddress(replyTo)
      case Err(e) => return Err(e);
      case Ok(_) => return Ok(replyTo);
    }

    /** Reads one message; on success the cursor is at the first byte after it. */
    method DecodeMessage() returns (r: Result<Message>)
      modifies this
      ensures
        match Codec.Decode(old(rest))
        case Ok((m, after)) => r == Ok(m) && rest == after
        case Err(e) => r == Err(e)
    {
      var header := DecodeHeader();
      if header.Err? {
        return Err(header.error);
      }
      var h := header.value;
      if |rest| < h.msgTypeLen {
        return Err(IncompleteMsgType);
      }
      var msgType := CopyToBytes(h.msgTypeLen);
      if !Utf8(msgType) {
        return Err(InvalidMsgTypeUtf8);
      }
      if |rest| < h.addressLen {
        return Err(IncompleteAddress);
      }
      var address := CopyToBytes(h.addressLen);
      if !Utf8(address) {
        return Err(InvalidAddressUtf8);
      }
      var valid := ValidateAddress(address);
      if valid.Err? {
        return Err(valid.error);
      }
      var replyTo := DecodeReplyTo(ModeOf(h.flags));
      if replyTo.Err? {
        return Err(replyTo.error);
      }
      if |rest| < h.payloadLen {
        return Err(IncompletePayload);
      }
      var payload := CopyToBytes(h.payloadLen);
      return Ok(Message(h, msgType, address, replyTo.value, payload));
    }
  }

  /** An output buffer. */
  class WriteBuffer {
    var bytes: Bytes

    constructor ()
      ensures bytes == []
    {
      bytes := [];
    }

    method PutU8(b: Byte)
      modifies this
      ensures bytes == old(bytes) + [b]
    {
      bytes := bytes + [b];
    }

    method PutSlice(s: Bytes)
      modifies this
      ensures bytes == old(bytes) + s
    {
      bytes := bytes + s;
    }

    method PutU16Le(v: U16)
      modifies this
      ensures bytes == old(bytes) + Codec.Le16(v)
    {
      PutU8(v % 0x100);
      PutU8(v / 0x100);
    }

    method PutU32Le(v: U32)
      modifies this
      ensures bytes == old(bytes) + Codec.Le32(v)
    {
      PutU16Le(v % 0x1_0000);
      PutU16Le(v / 0x1_0000);
    }

    method EncodeHeader(h: Header)
      modifies this
      ensures bytes == old(bytes) + Codec.EncodeHeader(h)
    {
      PutU16Le(h.version);
      PutU8(h.flags);
      PutU8(h.priority);
      assert bytes == old(bytes) + (Codec.Le16(h.version) + [h.flags, h.priority]);
      PutSlice(h.sessionToken);
      PutSlice(h.messageId);
      PutSlice(h.subMessageId);
      PutU8(h.ttl);
      PutU8(h.msgTypeLen);
      PutU16Le(h.addressLen);
      PutU32Le(h.payloadLen);
    }

    /** Appends the encoding of `m`. */
    method EncodeMessage(m: Message)
      modifies this
      ensures bytes == old(bytes) + Codec.Encode(m)
    {
      EncodeHeader(m.header);
      PutSlice(m.msgType);
      PutSlice(m.address);
      if Mode(m) == InOut {
        PutU16Le(|m.replyTo| % 0x1_0000);
        PutSlice(m.replyTo);
      }
      PutSlice(m.payload);
    }
  }
}
