/** Where the parts of a message stand on the wire, and what is reported when one of them is wrong. */
module Layout {
  import opened Segments
  import opened Wrappers
  import opened Protocol
  import opened Codec

  // ------------------------------------------------------------------- layout

  /** `b` has `part` from position `i` on. */
  predicate HasAt(b: Bytes, i: nat, part: Bytes) {
    i + |part| <= |b| && b[i..i + |part|] == part
  }

  lemma InTheMiddle(x: Bytes, y: Bytes, z: Bytes)
    ensures HasAt(x + y + z, |x|, y)
  {
    assert (x + y + z)[|x|..|x| + |y|] == y;
  }

  lemma FourParts(h: Bytes, t: Bytes, a: Bytes, x: Bytes)
    ensures
      var b := h + (t + (a + x));
      HasAt(b, 0, h) && HasAt(b, |h|, t) && HasAt(b, |h| + |t|, a) && b == h + t + a + x
  {
    Regroup(t, a, x);
    Regroup(h, t + a, x);
    Regroup(h, t, a);
    var b := h + t + a + x;
    assert b[0..|h|] == h && b[|h|..|h| + |t|] == t && b[|h| + |t|..|h| + |t| + |a|] == a;
  }

  /**
    What follows the address, which ends at `a`: for a request two bytes with the length of the reply
    address, low byte first, and the reply address; then the payload, up to the end.
   */
  predicate TailAt(b: Bytes, a: nat, request: bool, replyTo: Bytes, payload: Bytes) {
    if request
    then (|b| >= a + 2 && b[a] as int + 0x100 * (b[a + 1] as int) == |replyTo|
          && HasAt(b, a + 2, replyTo) && b[a + 2 + |replyTo|..] == payload)
    else (|b| >= a && b[a..] == payload)
  }

  /** Where each part of an encoded message stands; the lowest bit of byte 2 says whether it is a request. */
  lemma MessageLayout(m: Message)
    requires WellFormed(m)
    ensures
      var b, t := Encode(m), 64 + |m.msgType|;
      var a := t + |m.address|;
      && HasAt(b, 0, EncodeHeader(m.header)) && b[2] == m.header.flags
      && HasAt(b, 64, m.msgType) && HasAt(b, t, m.address)
      && (b[2] % 2 == 1 <==> Mode(m) == InOut)
      && TailAt(b, a, b[2] % 2 == 1, m.replyTo, m.payload)
      && |b| == Size(m)
  {
    HeadStands(m);
    SizeIsEncodedLength(m);
    PartsStand(m);
    MessageTail(m);
  }

  lemma MessageTail(m: Message)
    requires HeaderShape(m.header) && |m.replyTo| < 0x1_0000 && (Mode(m) == InOnly ==> m.replyTo == [])
    ensures TailAt(Encode(m), 64 + |m.msgType| + |m.address|, Mode(m) == InOut, m.replyTo, m.payload)
  {
    var y := Front(m);
    if Mode(m) == InOut {
      RequestTail(y, Le16(|m.replyTo|), m.replyTo, m.payload, Encode(m));
    } else {
      PlainTail(y, m.payload, Encode(m));
    }
  }

  lemma Front(m: Message) returns (y: Bytes)
    requires HeaderShape(m.header)
    ensures |y| == 64 + |m.msgType| + |m.address| && Encode(m) == y + (EncodeReplyTo(Mode(m), m.replyTo) + m.payload)
  {
    y := EncodeHeader(m.header) + m.msgType + m.address;
    HeaderLayout(m.header);
    FourParts(EncodeHeader(m.header), m.msgType, m.address, EncodeReplyTo(Mode(m), m.replyTo) + m.payload);
  }

  lemma PartsStand(m: Message)
    requires HeaderShape(m.header)
    ensures
      var b, t := Encode(m), m.msgType;
      HasAt(b, 0, EncodeHeader(m.header)) && HasAt(b, 64, t) && HasAt(b, 64 + |t|, m.address)
  {
    HeaderLayout(m.header);
    FourParts(EncodeHeader(m.header), m.msgType, m.address, EncodeReplyTo(Mode(m), m.replyTo) + m.payload);
  }

  lemma HeadStands(m: Message)
    requires HeaderShape(m.header)
    ensures |Encode(m)| >= 64 && Encode(m)[2] == m.header.flags
  {
    HeaderLayout(m.header);
  }

  lemma RequestTail(y: Bytes, len: Bytes, replyTo: Bytes, payload: Bytes, b: Bytes)
    requires |len| == 2 && len[0] as int + 0x100 * (len[1] as int) == |replyTo|
    requires b == y + (len + replyTo + payload)
    ensures TailAt(b, |y|, true, replyTo, payload)
  {
    Regroup(y, len + replyTo, payload);
    Regroup(y, len, replyTo);
    InTheMiddle(y + len, replyTo, payload);
    assert b == y + len + replyTo + payload;
    assert b[|y| + 2 + |replyTo|..] == payload && b[|y|] == len[0] && b[|y| + 1] == len[1];
  }

  lemma PlainTail(y: Bytes, payload: Bytes, b: Bytes)
    requires b == y + ([] + payload)
    ensures TailAt(b, |y|, false, [], payload)
  {
    assert [] + payload == payload;
  }

  // --------------------------------------------------------------- rejections

  /** Little-endian numbers at fixed positions. */
  function At16(b: Bytes, i: nat): nat
    requires i + 2 <= |b|
  {
    b[i] as int + 0x100 * (b[i + 1] as int)
  }

  function At32(b: Bytes, i: nat): nat
    requires i + 4 <= |b|
  {
    b[i] as int + 0x100 * (b[i + 1] as int) + 0x1_0000 * (b[i + 2] as int) + 0x100_0000 * (b[i + 3] as int)
  }

  /** What is wrong with the payload, which starts at `r`. */
  function PayloadFault(b: Bytes, r: nat): Option<ProtocolError>
    requires |b| >= 64
  {
    if |b| < r + At32(b, 60) then Some(IncompletePayload) else None
  }

  /** What is wrong with a reply address whose length stands at the start of `c`. */
  function ReplyPartFault(c: Bytes): Option<ProtocolError> {
    if |c| < 2 then Some(IncompleteReplyTo)
    else
      var n := At16(c, 0);
      if n == 0 then Some(MissingReplyToForInOut)
      else if n > 1024 then Some(ReplyToTooLong)
      else if |c| < 2 + n then Some(IncompleteReplyTo)
      else if !Utf8(c[2..2 + n]) then Some(InvalidReplyToUtf8)
      else AddressFault(c[2..2 + n])
  }

  /** What is wrong with what follows the address, which ends at `a`. */
  function ReplyFault(b: Bytes, a: nat): Option<ProtocolError>
    requires 64 <= a <= |b|
  {
    if b[2] % 2 == 0 then PayloadFault(b, a)
    else if ReplyPartFault(b[a..]).Some? then ReplyPartFault(b[a..])
    else PayloadFault(b, a + 2 + At16(b, a))
  }

  /** What is wrong with the address `x`, or else what is wrong after it. */
  function PartFault(x: Bytes, later: Option<ProtocolError>): Option<ProtocolError> {
    if !Utf8(x) then Some(InvalidAddressUtf8)
    else if AddressFault(x).Some? then AddressFault(x)
    else later
  }

  /** What is wrong with the address, which starts at `t`, or with what follows it. */
  function RecipientFault(b: Bytes, t: nat): Option<ProtocolError>
    requires 64 <= t <= |b|
  {
    var a := t + At16(b, 58);
    if |b| < a then Some(IncompleteAddress) else PartFault(b[t..a], ReplyFault(b, a))
  }

  /** The first thing wrong with the message at the start of `b`, read off at the positions of its parts. */
  function FirstFault(b: Bytes): Option<ProtocolError> {
    if |b| < 64 then Some(IncompleteHeader)
    else if At16(b, 0) != 1 then Some(UnsupportedVersion(At16(b, 0)))
    else if At16(b, 58) > 1024 then Some(AddressTooLong)
    else if At32(b, 60) > 1_048_576 then Some(PayloadTooLarge(At32(b, 60)))
    else
      var t := 64 + b[57] as int;
      if |b| < t then Some(IncompleteMsgType)
      else if !Utf8(b[64..t]) then Some(InvalidMsgTypeUtf8)
      else RecipientFault(b, t)
  }

  lemma CutTwice(b: Bytes, i: nat, n: nat)
    requires i + n <= |b|
    ensures b[i..][..n] == b[i..i + n] && b[i..][n..] == b[i + n..]
  {
  }

  /** The header `h` announces what stands in the first 64 bytes. */
  predicate Announces(h: Header, b: Bytes) {
    |b| >= 64 && h.version == At16(b, 0) && h.flags == b[2] && h.msgTypeLen == b[57]
    && h.addressLen == At16(b, 58) && h.payloadLen == At32(b, 60)
  }

  lemma RawHeaderAt(b: Bytes)
    requires |b| >= 64
    ensures Announces(RawHeader(b), b)
  {
    assert b[60..64][..2] == [b[60], b[61]] && b[60..64][2..] == [b[62], b[63]];
  }

  lemma ReplyPartFaultIs(c: Bytes)
    ensures ErrorOf(DecodeReplyTo(InOut, c)) == ReplyPartFault(c)
    ensures DecodeReplyTo(InOut, c).Ok? ==> |c| >= 2 + At16(c, 0) && DecodeReplyTo(InOut, c).value.1 == c[2 + At16(c, 0)..]
  {
    if |c| >= 2 {
      var n := At16(c, 0);
      assert Get16(c[..2]) == n;
      if 2 + n <= |c| {
        CutTwice(c, 2, n);
        AddressFaultIs(c[2..2 + n]);
      }
    }
  }

  lemma PayloadFaultIs(h: Header, msgType: Bytes, address: Bytes, b: Bytes, a: nat)
    requires 64 <= a <= |b| && Announces(h, b)
    ensures ErrorOf(DecodePayload(h, msgType, address, b[a..])) == ReplyFault(b, a)
  {
    if b[2] % 2 == 1 {
      ReplyPartFaultIs(b[a..]);
      if ReplyPartFault(b[a..]) == None {
        CutTwice(b, a, 2 + At16(b, a));
      }
    }
  }

  lemma DecodeAddressIs(h: Header, msgType: Bytes, c: Bytes, x: Bytes, more: Bytes)
    requires h.addressLen <= |c| && x == c[..h.addressLen] && more == c[h.addressLen..]
    ensures
      ErrorOf(DecodeAddress(h, msgType, c)) == PartFault(x, ErrorOf(DecodePayload(h, msgType, x, more)))
  {
    AddressFaultIs(x);
  }

  lemma RecipientFaultIs(h: Header, msgType: Bytes, b: Bytes, t: nat)
    requires 64 <= t <= |b| && Announces(h, b)
    ensures ErrorOf(DecodeAddress(h, msgType, b[t..])) == RecipientFault(b, t)
  {
    var n := At16(b, 58);
    if t + n <= |b| {
      CutTwice(b, t, n);
      RecipientIsCut(h, msgType, b, t, b[t..], b[t..t + n], b[t + n..]);
    }
  }

  lemma RecipientIsCut(h: Header, msgType: Bytes, b: Bytes, t: nat, c: Bytes, x: Bytes, more: Bytes)
    requires 64 <= t <= |b| && Announces(h, b) && t + At16(b, 58) <= |b| && h.addressLen <= |c|
    requires x == b[t..t + At16(b, 58)] && more == b[t + At16(b, 58)..]
    requires x == c[..h.addressLen] && more == c[h.addressLen..]
    ensures ErrorOf(DecodeAddress(h, msgType, c)) == RecipientFault(b, t)
  {
    var a := t + At16(b, 58);
    DecodeAddressIs(h, msgType, c, x, more);
    PayloadFaultIs(h, msgType, x, b, a);
    assert more == b[a..];
    JoinFaults(b, t, a, x, ErrorOf(DecodePayload(h, msgType, x, more)), ErrorOf(DecodeAddress(h, msgType, c)));
  }

  lemma JoinFaults(b: Bytes, t: nat, a: nat, x: Bytes, later: Option<ProtocolError>, all: Option<ProtocolError>)
    requires 64 <= t <= a <= |b| && a == t + At16(b, 58) && x == b[t..a]
    requires later == ReplyFault(b, a) && all == PartFault(x, later)
    ensures all == RecipientFault(b, t)
  {
  }

  lemma BodyFaultIs(h: Header, b: Bytes)
    requires |b| >= 64 && Announces(h, b) && h.version == 1 && h.addressLen <= 1024 && h.payloadLen <= 1_048_576
    ensures ErrorOf(DecodeBody(h, b[64..])) == FirstFault(b)
  {
    var t := 64 + b[57] as int;
    if t <= |b| {
      CutTwice(b, 64, b[57] as int);
      RecipientFaultIs(h, b[64..t], b, t);
    }
  }

  /** Decoding fails exactly when something is wrong with the bytes, and reports the first such thing. */
  lemma RejectionExact(b: Bytes)
    ensures ErrorOf(Decode(b)) == FirstFault(b)
  {
    if |b| >= 64 {
      RawHeaderAt(b);
      if DecodeHeader(b).Ok? {
        BodyFaultIs(RawHeader(b), b);
      }
    }
  }
}
