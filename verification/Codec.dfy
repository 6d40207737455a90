/** Encoding and decoding of messages as functions on byte strings. */
module Codec {
  import opened Segments
  import opened Wrappers
  import opened Protocol

  // ---------------------------------------------------------- little-endian

  function Le16(n: U16): Bytes {
    [n % 0x100, n / 0x100]
  }

  function Le32(n: U32): Bytes {
    Le16(n % 0x1_0000) + Le16(n / 0x1_0000)
  }

  function Get16(b: Bytes): U16
    requires |b| == 2
  {
    b[0] as int + 0x100 * (b[1] as int)
  }

  function Get32(b: Bytes): U32
    requires |b| == 4
  {
    Get16(b[..2]) as int + 0x1_0000 * (Get16(b[2..]) as int)
  }

  lemma Le16RoundTrip(n: U16, b: Bytes)
    requires |b| == 2
    ensures Get16(Le16(n)) == n && Le16(Get16(b)) == b
  {
  }

  lemma Le32RoundTrip(n: U32, b: Bytes)
    requires |b| == 4
    ensures Get32(Le32(n)) == n && Le32(Get32(b)) == b
  {
    var lo: int, hi: int := Get16(b[..2]), Get16(b[2..]);
    assert (lo + 0x1_0000 * hi) % 0x1_0000 == lo && (lo + 0x1_0000 * hi) / 0x1_0000 == hi;
    Le16RoundTrip(n % 0x1_0000, b[..2]);
    Le16RoundTrip(n / 0x1_0000, b[2..]);
    assert Le32(n)[..2] == Le16(n % 0x1_0000) && Le32(n)[2..] == Le16(n / 0x1_0000);
  }

  // ------------------------------------------------------------------ header

  /** The array fields have their fixed lengths. */
  predicate HeaderShape(h: Header) {
    && |h.sessionToken| == SESSION_TOKEN_LEN
    && |h.messageId| == MESSAGE_ID_LEN
    && |h.subMessageId| == SUB_MESSAGE_ID_LEN
  }

  predicate ValidHeader(h: Header) {
    && HeaderShape(h)
    && h.version == PROTOCOL_VERSION
    && h.addressLen <= MAX_ADDRESS_LEN
    && h.payloadLen <= MAX_PAYLOAD_LEN
  }

  function EncodeHeader(h: Header): Bytes {
    Le16(h.version) + [h.flags, h.priority] + h.sessionToken + h.messageId + h.subMessageId
    + [h.ttl, h.msgTypeLen] + Le16(h.addressLen) + Le32(h.payloadLen)
  }

  /** The header spelled by the first 64 bytes, before any field is checked. */
  function RawHeader(b: Bytes): (h: Header)
    requires |b| >= FIXED_HEADER_SIZE
    ensures HeaderShape(h)
  {
    Header(Get16(b[0..2]), b[2], b[3], b[4..36], b[36..52], b[52..56], b[56], b[57], Get16(b[58..60]), Get32(b[60..64]))
  }

  /** A message type length is one byte, so it never exceeds its limit of 255. */
  function DecodeHeader(b: Bytes): Result<Header> {
    if |b| < FIXED_HEADER_SIZE then Err(IncompleteHeader)
    else
      var h := RawHeader(b);
      if h.version != PROTOCOL_VERSION then Err(UnsupportedVersion(h.version))
      else if h.addressLen > MAX_ADDRESS_LEN then Err(AddressTooLong)
      else if h.payloadLen > MAX_PAYLOAD_LEN then Err(PayloadTooLarge(h.payloadLen))
      else Ok(h)
  }

  lemma RawHeaderOfEncode(h: Header, rest: Bytes)
    requires HeaderShape(h)
    ensures |EncodeHeader(h)| == FIXED_HEADER_SIZE
    ensures RawHeader(EncodeHeader(h) + rest) == h
  {
    var b := EncodeHeader(h) + rest;
    Le16RoundTrip(h.version, [0, 0]);
    Le16RoundTrip(h.addressLen, [0, 0]);
    Le32RoundTrip(h.payloadLen, [0, 0, 0, 0]);
    assert b[0..2] == Le16(h.version);
    assert b[4..36] == h.sessionToken;
    assert b[36..52] == h.messageId;
    assert b[52..56] == h.subMessageId;
    assert b[58..60] == Le16(h.addressLen);
    assert b[60..64] == Le32(h.payloadLen);
  }

  /** Where each field stands in the 64 bytes, multi-byte numbers with the low byte first. */
  lemma HeaderLayout(h: Header)
    requires HeaderShape(h)
    ensures
      var b := EncodeHeader(h);
      && |b| == 64
      && b[0] as int + 0x100 * (b[1] as int) == h.version
      && b[2] == h.flags && b[3] == h.priority
      && b[4..36] == h.sessionToken && b[36..52] == h.messageId && b[52..56] == h.subMessageId
      && b[56] == h.ttl && b[57] == h.msgTypeLen
      && b[58] as int + 0x100 * (b[59] as int) == h.addressLen
      && b[60] as int + 0x100 * (b[61] as int) + 0x1_0000 * (b[62] as int) + 0x100_0000 * (b[63] as int) == h.payloadLen
  {
    RawHeaderOfEncode(h, []);
    assert EncodeHeader(h) + [] == EncodeHeader(h);
    var b := EncodeHeader(h);
    assert b[60..64][..2] == [b[60], b[61]] && b[60..64][2..] == [b[62], b[63]];
  }

  lemma EncodeOfRawHeader(b: Bytes)
    requires |b| >= FIXED_HEADER_SIZE
    ensures EncodeHeader(RawHeader(b)) == b[..FIXED_HEADER_SIZE]
  {
    Le16RoundTrip(0, b[0..2]);
    Le16RoundTrip(0, b[58..60]);
    Le32RoundTrip(0, b[60..64]);
  }

  // ----------------------------------------------------------------- message

  /** The sender writes its reply address only for requests, its length truncated to 16 bits. */
  function EncodeReplyTo(mode: TransferMode, replyTo: Bytes): Bytes {
    if mode == InOut then Le16(|replyTo| % 0x1_0000) + replyTo else []
  }

  function EncodeBody(m: Message): Bytes {
    m.msgType + (m.address + (EncodeReplyTo(Mode(m), m.replyTo) + m.payload))
  }

  function Encode(m: Message): Bytes {
    EncodeHeader(m.header) + EncodeBody(m)
  }

  function DecodeReplyTo(mode: TransferMode, b: Bytes): (r: Result<(Bytes, Bytes)>)
    ensures r.Ok? ==> |r.value.1| <= |b|
  {
    if mode == InOnly then Ok(([], b))
    else if |b| < 2 then Err(IncompleteReplyTo)
    else
      var n := Get16(b[..2]);
      var rest := b[2..];
      if n == 0 then Err(MissingReplyToForInOut)
      else if n > MAX_ADDRESS_LEN then Err(ReplyToTooLong)
      else if |rest| < n then Err(IncompleteReplyTo)
      else if !Utf8(rest[..n]) then Err(InvalidReplyToUtf8)
      else
        match ValidateAddress(rest[..n])
        case Err(e) => Err(e)
        case Ok(_) => Ok((rest[..n], rest[n..]))
  }

  function DecodePayload(h: Header, msgType: Bytes, address: Bytes, b: Bytes): (r: Result<(Message, Bytes)>)
    ensures r.Ok? ==> |r.value.1| <= |b|
  {
    match DecodeReplyTo(ModeOf(h.flags), b)
    case Err(e) => Err(e)
    case Ok((replyTo, rest)) =>
      if |rest| < h.payloadLen then Err(IncompletePayload)
      else Ok((Message(h, msgType, address, replyTo, rest[..h.payloadLen]), rest[h.payloadLen..]))
  }

  function DecodeAddress(h: Header, msgType: Bytes, b: Bytes): (r: Result<(Message, Bytes)>)
    ensures r.Ok? ==> |r.value.1| <= |b|
  {
    var n := h.addressLen;
    if |b| < n then Err(IncompleteAddress)
    else if !Utf8(b[..n]) then Err(InvalidAddressUtf8)
    else
      match ValidateAddress(b[..n])
      case Err(e) => Err(e)
      case Ok(_) => DecodePayload(h, msgType, b[..n], b[n..])
  }

  function DecodeBody(h: Header, b: Bytes): (r: Result<(Message, Bytes)>)
    ensures r.Ok? ==> |r.value.1| <= |b|
  {
    var n := h.msgTypeLen;
    if |b| < n then Err(IncompleteMsgType)
    else if !Utf8(b[..n]) then Err(InvalidMsgTypeUtf8)
    else DecodeAddress(h, b[..n], b[n..])
  }

  /** The message at the start of `b`, and the bytes after it. */
  function Decode(b: Bytes): (r: Result<(Message, Bytes)>)
    ensures r.Ok? ==> |r.value.1| < |b|
  {
    match DecodeHeader(b)
    case Err(e) => Err(e)
    case Ok(h) => DecodeBody(h, b[FIXED_HEADER_SIZE..])
  }

  /** A reply address as the decoder accepts it. */
  predicate ReplyToFits(mode: TransferMode, replyTo: Bytes) {
    if mode == InOut then |replyTo| <= MAX_ADDRESS_LEN && ValidAddress(replyTo) else replyTo == []
  }

  /** A message that the wire can carry. */
  predicate WellFormed(m: Message) {
    && ValidHeader(m.header)
    && |m.msgType| == m.header.msgTypeLen && Utf8(m.msgType)
    && |m.address| == m.header.addressLen && ValidAddress(m.address)
    && |m.payload| == m.header.payloadLen
    && ReplyToFits(Mode(m), m.replyTo)
  }

  lemma ValidAddressIsUtf8(a: Bytes)
    requires ValidAddress(a)
    ensures Utf8(a) && a != []
  {
    AsciiIsUtf8(a);
  }

  // -------------------------------------------------------------- round trip

  lemma Cut(x: Bytes, y: Bytes)
    ensures (x + y)[..|x|] == x && (x + y)[|x|..] == y
  {
  }

  lemma ReplyToRoundTrip(m: Message, rest: Bytes)
    requires WellFormed(m)
    ensures DecodeReplyTo(Mode(m), EncodeReplyTo(Mode(m), m.replyTo) + rest) == Ok((m.replyTo, rest))
  {
    if Mode(m) == InOut {
      ValidAddressIsUtf8(m.replyTo);
      var len := Le16(|m.replyTo|);
      Le16RoundTrip(|m.replyTo|, [0, 0]);
      assert EncodeReplyTo(Mode(m), m.replyTo) + rest == len + (m.replyTo + rest);
      Cut(len, m.replyTo + rest);
      Cut(m.replyTo, rest);
    } else {
      assert EncodeReplyTo(Mode(m), m.replyTo) + rest == rest;
    }
  }

  lemma BodyRoundTrip(m: Message, rest: Bytes)
    requires WellFormed(m)
    ensures DecodeBody(m.header, EncodeBody(m) + rest) == Ok((m, rest))
  {
    var b3 := m.payload + rest;
    var b2 := EncodeReplyTo(Mode(m), m.replyTo) + b3;
    var b1 := m.address + b2;
    assert EncodeBody(m) + rest == m.msgType + b1;
    Cut(m.msgType, b1);
    Cut(m.address, b2);
    Cut(m.payload, rest);
    ValidAddressIsUtf8(m.address);
    ReplyToRoundTrip(m, b3);
    assert DecodePayload(m.header, m.msgType, m.address, b2) == Ok((m, rest));
  }

  /** Decoding what was encoded gives the message back, and leaves what follows it. */
  lemma RoundTrip(m: Message, rest: Bytes)
    requires WellFormed(m)
    ensures Decode(Encode(m) + rest) == Ok((m, rest))
  {
    var b := EncodeBody(m) + rest;
    assert Encode(m) + rest == EncodeHeader(m.header) + b;
    RawHeaderOfEncode(m.header, b);
    Cut(EncodeHeader(m.header), b);
    BodyRoundTrip(m, rest);
  }

  // -------------------------------------------------------------- canonicity

  lemma ReplyToCanonical(mode: TransferMode, b: Bytes, replyTo: Bytes, rest: Bytes)
    requires DecodeReplyTo(mode, b) == Ok((replyTo, rest))
    ensures ReplyToFits(mode, replyTo) && b == EncodeReplyTo(mode, replyTo) + rest
  {
    if mode == InOut {
      Le16RoundTrip(0, b[..2]);
      assert b == b[..2] + b[2..];
    }
  }

  /** The parts decoded after the address fit the header. */
  predicate TailFits(h: Header, m: Message) {
    m.header == h && |m.payload| == h.payloadLen && ReplyToFits(Mode(m), m.replyTo)
  }

  /** What `DecodePayload` does after the reply address. */
  lemma PayloadIsCut(h: Header, msgType: Bytes, address: Bytes, replyTo: Bytes, tail: Bytes, m: Message, rest: Bytes)
    requires |tail| >= h.payloadLen
    requires m == Message(h, msgType, address, replyTo, tail[..h.payloadLen]) && rest == tail[h.payloadLen..]
    ensures tail == m.payload + rest && |m.payload| == h.payloadLen
  {
  }

  lemma PayloadCanonical(h: Header, msgType: Bytes, address: Bytes, b: Bytes, m: Message, rest: Bytes)
    requires DecodePayload(h, msgType, address, b) == Ok((m, rest))
    ensures m.msgType == msgType && m.address == address && TailFits(h, m)
    ensures b == EncodeReplyTo(Mode(m), m.replyTo) + m.payload + rest
  {
    var (replyTo, tail) := DecodeReplyTo(ModeOf(h.flags), b).value;
    ReplyToCanonical(ModeOf(h.flags), b, replyTo, tail);
    PayloadIsCut(h, msgType, address, replyTo, tail, m, rest);
    Regroup(EncodeReplyTo(Mode(m), m.replyTo), m.payload, rest);
  }

  lemma Glue(b: Bytes, n: nat, x: Bytes, rest: Bytes)
    requires n <= |b| && b[n..] == x + rest
    ensures b == b[..n] + x + rest
  {
  }

  lemma AddressCanonical(h: Header, msgType: Bytes, b: Bytes, m: Message, rest: Bytes)
    requires DecodeAddress(h, msgType, b) == Ok((m, rest))
    ensures m.msgType == msgType && |m.address| == h.addressLen && ValidAddress(m.address) && TailFits(h, m)
    ensures b == m.address + (EncodeReplyTo(Mode(m), m.replyTo) + m.payload) + rest
  {
    var n := h.addressLen;
    assert DecodePayload(h, msgType, b[..n], b[n..]) == Ok((m, rest));
    PayloadCanonical(h, msgType, b[..n], b[n..], m, rest);
    Glue(b, n, EncodeReplyTo(Mode(m), m.replyTo) + m.payload, rest);
  }

  lemma BodyCanonical(h: Header, b: Bytes, m: Message, rest: Bytes)
    requires ValidHeader(h) && DecodeBody(h, b) == Ok((m, rest))
    ensures m.header == h && WellFormed(m) && b == EncodeBody(m) + rest
  {
    var n := h.msgTypeLen;
    assert DecodeAddress(h, b[..n], b[n..]) == Ok((m, rest));
    AddressCanonical(h, b[..n], b[n..], m, rest);
    Glue(b, n, m.address + (EncodeReplyTo(Mode(m), m.replyTo) + m.payload), rest);
  }

  lemma HeaderCanonical(b: Bytes)
    requires DecodeHeader(b).Ok?
    ensures |b| >= FIXED_HEADER_SIZE && ValidHeader(DecodeHeader(b).value)
    ensures EncodeHeader(DecodeHeader(b).value) == b[..FIXED_HEADER_SIZE]
  {
    EncodeOfRawHeader(b);
  }

  /** Whatever decodes is well formed, and its encoding is exactly the bytes consumed. */
  lemma Canonical(b: Bytes, m: Message, rest: Bytes)
    requires Decode(b) == Ok((m, rest))
    ensures WellFormed(m) && b == Encode(m) + rest
  {
    HeaderCanonical(b);
    var h, tail := DecodeHeader(b).value, b[FIXED_HEADER_SIZE..];
    assert DecodeBody(h, tail) == Ok((m, rest));
    BodyCanonical(h, tail, m, rest);
    Glue(b, FIXED_HEADER_SIZE, EncodeBody(m), rest);
  }

  /** A message survives the wire exactly when it is well formed. */
  lemma RoundTripExact(m: Message, rest: Bytes)
    ensures Decode(Encode(m) + rest) == Ok((m, rest)) <==> WellFormed(m)
  {
    if WellFormed(m) {
      RoundTrip(m, rest);
    } else if Decode(Encode(m) + rest) == Ok((m, rest)) {
      Canonical(Encode(m) + rest, m, rest);
    }
  }

  // ---------------------------------------------------------------- prefixes

  /** `r'` is what `r` becomes when `more` is appended to the buffer: only a shortage can change. */
  ghost predicate Extends<T>(r: Result<(T, Bytes)>, r': Result<(T, Bytes)>, more: Bytes) {
    match r
    case Ok((x, rest)) => r' == Ok((x, rest + more))
    case Err(e) => Incomplete(e) || r' == Err(e)
  }

  lemma CutMore(b: Bytes, more: Bytes, n: nat)
    requires n <= |b|
    ensures (b + more)[..n] == b[..n] && (b + more)[n..] == b[n..] + more
  {
  }

  lemma ReplyToExtends(mode: TransferMode, b: Bytes, more: Bytes)
    ensures Extends(DecodeReplyTo(mode, b), DecodeReplyTo(mode, b + more), more)
  {
    if |b| >= 2 {
      CutMore(b, more, 2);
      var n := Get16(b[..2]);
      if n <= |b| - 2 {
        CutMore(b[2..], more, n);
      }
    }
  }

  lemma PayloadExtends(h: Header, msgType: Bytes, address: Bytes, b: Bytes, more: Bytes)
    ensures Extends(DecodePayload(h, msgType, address, b), DecodePayload(h, msgType, address, b + more), more)
  {
    ReplyToExtends(ModeOf(h.flags), b, more);
    if DecodeReplyTo(ModeOf(h.flags), b).Ok? {
      var tail := DecodeReplyTo(ModeOf(h.flags), b).value.1;
      if h.payloadLen <= |tail| {
        CutMore(tail, more, h.payloadLen);
      }
    }
  }

  lemma BodyExtends(h: Header, b: Bytes, more: Bytes)
    ensures Extends(DecodeBody(h, b), DecodeBody(h, b + more), more)
  {
    var n := h.msgTypeLen;
    if n <= |b| {
      CutMore(b, more, n);
      var b1 := b[n..];
      if h.addressLen <= |b1| {
        CutMore(b1, more, h.addressLen);
        PayloadExtends(h, b[..n], b1[..h.addressLen], b1[h.addressLen..], more);
      }
    }
  }

  /** More input never changes a decoded message or a rejection that is not about missing bytes. */
  lemma DecodeExtends(b: Bytes, more: Bytes)
    ensures Extends(Decode(b), Decode(b + more), more)
  {
    if |b| >= FIXED_HEADER_SIZE {
      CutMore(b, more, FIXED_HEADER_SIZE);
      assert RawHeader(b + more) == RawHeader(b) by {
        EncodeOfRawHeader(b);
        EncodeOfRawHeader(b + more);
        RawHeaderOfEncode(RawHeader(b), []);
        RawHeaderOfEncode(RawHeader(b + more), []);
      }
      if DecodeHeader(b).Ok? {
        BodyExtends(DecodeHeader(b).value, b[FIXED_HEADER_SIZE..], more);
      }
    }
  }

  /** Every proper prefix of a well-formed message's encoding is reported as incomplete. */
  lemma PrefixIsIncomplete(m: Message, n: nat)
    requires WellFormed(m) && n < |Encode(m)|
    ensures Decode(Encode(m)[..n]).Err? && Incomplete(Decode(Encode(m)[..n]).error)
  {
    var b, more := Encode(m)[..n], Encode(m)[n..];
    assert b + more == Encode(m) + [];
    RoundTrip(m, []);
    DecodeExtends(b, more);
  }

  // ------------------------------------------------------------------ streams

  function EncodeAll(ms: seq<Message>): Bytes {
    if ms == [] then [] else Encode(ms[0]) + EncodeAll(ms[1..])
  }

  function DecodeAll(b: Bytes): Result<seq<Message>>
    decreases |b|
  {
    if b == [] then Ok([])
    else
      match Decode(b)
      case Err(e) => Err(e)
      case Ok((m, rest)) =>
        match DecodeAll(rest)
        case Err(e) => Err(e)
        case Ok(ms) => Ok([m] + ms)
  }

  lemma DecodeAllStep(b: Bytes, m: Message, rest: Bytes)
    requires Decode(b) == Ok((m, rest))
    ensures DecodeAll(rest).Ok? ==> DecodeAll(b) == Ok([m] + DecodeAll(rest).value)
    ensures DecodeAll(rest).Err? ==> DecodeAll(b) == DecodeAll(rest)
  {
  }

  lemma StreamStep(m: Message, more: Bytes, ms: seq<Message>)
    requires WellFormed(m) && DecodeAll(more) == Ok(ms)
    ensures DecodeAll(Encode(m) + more) == Ok([m] + ms)
  {
    RoundTrip(m, more);
    DecodeAllStep(Encode(m) + more, m, more);
  }

  predicate AllWellFormed(ms: seq<Message>) {
    forall i :: 0 <= i < |ms| ==> WellFormed(ms[i])
  }

  lemma AllWellFormedCons(ms: seq<Message>)
    requires ms != [] && AllWellFormed(ms)
    ensures WellFormed(ms[0]) && AllWellFormed(ms[1..]) && [ms[0]] + ms[1..] == ms
    ensures EncodeAll(ms) == Encode(ms[0]) + EncodeAll(ms[1..])
  {
  }

  /** Decoding a concatenation of encodings, message by message, gives back the list. */
  lemma {:induction false} StreamRoundTrip(ms: seq<Message>)
    requires AllWellFormed(ms)
    ensures DecodeAll(EncodeAll(ms)) == Ok(ms)
  {
    if ms != [] {
      AllWellFormedCons(ms);
      StreamRoundTrip(ms[1..]);
      StreamStep(ms[0], EncodeAll(ms[1..]), ms[1..]);
    }
  }

  /** A stream that decodes to a list is the concatenation of that list's encodings. */
  lemma {:induction false} StreamCanonical(b: Bytes)
    requires DecodeAll(b).Ok?
    ensures EncodeAll(DecodeAll(b).value) == b
    ensures AllWellFormed(DecodeAll(b).value)
    decreases |b|
  {
    if b != [] {
      var (m, rest) := Decode(b).value;
      Canonical(b, m, rest);
      StreamCanonical(rest);
      DecodeAllStep(b, m, rest);
    }
  }

  // --------------------------------------------------------------------- size

  function VariableHeaderSize(m: Message): nat {
    m.header.msgTypeLen + m.header.addressLen + if Mode(m) == InOut then 2 + |m.replyTo| else 0
  }

  function Size(m: Message): nat {
    FIXED_HEADER_SIZE + VariableHeaderSize(m) + m.header.payloadLen
  }

  lemma SizeIsEncodedLength(m: Message)
    requires WellFormed(m)
    ensures |Encode(m)| == Size(m)
  {
    RawHeaderOfEncode(m.header, []);
  }

  // ------------------------------------------------------------- construction

  /** `Message::new`: the payload length is truncated to 32 bits before it is checked. */
  function NewMessage(
    mode: TransferMode, sessionToken: Bytes, messageId: Bytes, subMessageId: Bytes, priority: Byte, ttl: Byte,
    msgType: Bytes, address: Bytes, replyTo: Bytes, payload: Bytes): Result<Message>
  {
    if mode == InOut && replyTo == [] then Err(MissingReplyToForInOut)
    else if mode == InOnly && replyTo != [] then Err(UnexpectedReplyToForInOnly)
    else if !Utf8(address) then Err(InvalidAddressUtf8)
    else if ValidateAddress(address).Err? then Err(ValidateAddress(address).error)
    else if replyTo != [] && !Utf8(replyTo) then Err(InvalidReplyToUtf8)
    else if replyTo != [] && ValidateAddress(replyTo).Err? then Err(ValidateAddress(replyTo).error)
    else if |msgType| > MAX_MSG_TYPE_LEN then Err(MsgTypeTooLong)
    else if |address| > MAX_ADDRESS_LEN then Err(AddressTooLong)
    else if |replyTo| > MAX_ADDRESS_LEN then Err(ReplyToTooLong)
    else
      var payloadLen := |payload| % 0x1_0000_0000;
      if payloadLen > MAX_PAYLOAD_LEN then Err(PayloadTooLarge(payloadLen))
      else Ok(Message(
        Header(PROTOCOL_VERSION, FlagsOf(mode), priority, sessionToken, messageId, subMessageId, ttl,
               |msgType|, |address|, payloadLen),
        msgType, address, replyTo, payload))
  }

  lemma NewMessageWellFormed(
    mode: TransferMode, sessionToken: Bytes, messageId: Bytes, subMessageId: Bytes, priority: Byte, ttl: Byte,
    msgType: Bytes, address: Bytes, replyTo: Bytes, payload: Bytes, m: Message)
    requires |sessionToken| == SESSION_TOKEN_LEN && |messageId| == MESSAGE_ID_LEN && |subMessageId| == SUB_MESSAGE_ID_LEN
    requires NewMessage(mode, sessionToken, messageId, subMessageId, priority, ttl, msgType, address, replyTo, payload) == Ok(m)
    ensures Mode(m) == mode
    ensures WellFormed(m) <==> Utf8(msgType) && |payload| <= MAX_PAYLOAD_LEN
  {
  }

  /** What `new` is asked for decides whether it accepts; the payload's length counts only modulo 2^32. */
  lemma NewMessageAccepts(
    mode: TransferMode, sessionToken: Bytes, messageId: Bytes, subMessageId: Bytes, priority: Byte, ttl: Byte,
    msgType: Bytes, address: Bytes, replyTo: Bytes, payload: Bytes)
    ensures
      NewMessage(mode, sessionToken, messageId, subMessageId, priority, ttl, msgType, address, replyTo, payload).Ok? <==>
        && (mode == InOut <==> replyTo != [])
        && ValidAddress(address) && |address| <= 1024
        && (replyTo != [] ==> ValidAddress(replyTo) && |replyTo| <= 1024)
        && |msgType| <= 255
        && |payload| % 0x1_0000_0000 <= 1_048_576
  {
    if ValidAddress(address) {
      ValidAddressIsUtf8(address);
    }
    if ValidAddress(replyTo) {
      ValidAddressIsUtf8(replyTo);
    }
  }

  /** The message that `new` makes holds what it was given, under the current version. */
  lemma NewMessageHolds(
    mode: TransferMode, sessionToken: Bytes, messageId: Bytes, subMessageId: Bytes, priority: Byte, ttl: Byte,
    msgType: Bytes, address: Bytes, replyTo: Bytes, payload: Bytes, m: Message)
    requires NewMessage(mode, sessionToken, messageId, subMessageId, priority, ttl, msgType, address, replyTo, payload) == Ok(m)
    ensures m.msgType == msgType && m.address == address && m.replyTo == replyTo && m.payload == payload
    ensures m.header.sessionToken == sessionToken && m.header.messageId == messageId && m.header.subMessageId == subMessageId
    ensures m.header.priority == priority && m.header.ttl == ttl
    ensures m.header.version == 1 && m.header.flags == if mode == InOut then 1 else 0
    ensures m.header.msgTypeLen == |msgType| && m.header.addressLen == |address|
    ensures m.header.payloadLen == |payload| % 0x1_0000_0000
  {
  }

  /** What a refusal by `new` says about what it was given. */
  predicate Justifies(
    error: ProtocolError, mode: TransferMode, msgType: Bytes, address: Bytes, replyTo: Bytes, payload: Bytes)
  {
    match error
    case MissingReplyToForInOut => mode == InOut && replyTo == []
    case UnexpectedReplyToForInOnly => mode == InOnly && replyTo != []
    case InvalidAddressUtf8 => !Utf8(address)
    case InvalidReplyToUtf8 => !Utf8(replyTo)
    case EmptyAddressLevel =>
      || AddressFault(address) == Some(EmptyAddressLevel) || AddressFault(replyTo) == Some(EmptyAddressLevel)
    case InvalidAddressFormat =>
      || AddressFault(address) == Some(InvalidAddressFormat) || AddressFault(replyTo) == Some(InvalidAddressFormat)
    case MsgTypeTooLong => |msgType| > 255
    case AddressTooLong => |address| > 1024
    case ReplyToTooLong => |replyTo| > 1024
    case PayloadTooLarge(n) => n == |payload| % 0x1_0000_0000 && n > 1_048_576
    case _ => false
  }

  lemma NewMessageRefusals(
    mode: TransferMode, sessionToken: Bytes, messageId: Bytes, subMessageId: Bytes, priority: Byte, ttl: Byte,
    msgType: Bytes, address: Bytes, replyTo: Bytes, payload: Bytes)
    ensures
      var r := NewMessage(mode, sessionToken, messageId, subMessageId, priority, ttl, msgType, address, replyTo, payload);
      r.Err? ==> Justifies(r.error, mode, msgType, address, replyTo, payload)
  {
    AddressFaultIs(address);
    AddressFaultIs(replyTo);
  }

  /**
    A message that `new` accepts survives the wire exactly when its type is UTF-8 and its payload
    is within the limit: `new` checks neither the former nor, past 2^32 bytes, the latter.
   */
  lemma NewMessageExact(
    mode: TransferMode, sessionToken: Bytes, messageId: Bytes, subMessageId: Bytes, priority: Byte, ttl: Byte,
    msgType: Bytes, address: Bytes, replyTo: Bytes, payload: Bytes, m: Message, rest: Bytes)
    requires |sessionToken| == SESSION_TOKEN_LEN && |messageId| == MESSAGE_ID_LEN && |subMessageId| == SUB_MESSAGE_ID_LEN
    requires NewMessage(mode, sessionToken, messageId, subMessageId, priority, ttl, msgType, address, replyTo, payload) == Ok(m)
    ensures Decode(Encode(m) + rest) == Ok((m, rest)) <==> Utf8(msgType) && |payload| <= MAX_PAYLOAD_LEN
  {
    NewMessageWellFormed(mode, sessionToken, messageId, subMessageId, priority, ttl, msgType, address, replyTo, payload, m);
    RoundTripExact(m, rest);
  }

  function Zeros(n: nat): Bytes {
    seq(n, _ => 0)
  }

  /** `new` accepts a type of the single byte 0x80, which is not UTF-8, and the message does not survive the wire. */
  lemma BadTypeIsConstructed(rest: Bytes) returns (m: Message)
    ensures NewMessage(InOnly, Zeros(SESSION_TOKEN_LEN), Zeros(MESSAGE_ID_LEN), Zeros(SUB_MESSAGE_ID_LEN), 0, 0,
                       [0x80], [97], [], []) == Ok(m)
    ensures Decode(Encode(m) + rest) != Ok((m, rest))
  {
    var token, id, sub := Zeros(SESSION_TOKEN_LEN), Zeros(MESSAGE_ID_LEN), Zeros(SUB_MESSAGE_ID_LEN);
    var accepted := NewMessage(InOnly, token, id, sub, 0, 0, [0x80], [97], [], []);
    m := accepted.value;
    NewMessageExact(InOnly, token, id, sub, 0, 0, [0x80], [97], [], [], m, rest);
  }

  /** `new` accepts a payload of 2^32 bytes, whose length it truncates to 0, and the message does not survive the wire. */
  lemma WrappedPayloadIsConstructed(rest: Bytes) returns (m: Message)
    ensures NewMessage(InOnly, Zeros(SESSION_TOKEN_LEN), Zeros(MESSAGE_ID_LEN), Zeros(SUB_MESSAGE_ID_LEN), 0, 0,
                       [], [97], [], Zeros(0x1_0000_0000)) == Ok(m)
    ensures m.header.payloadLen == 0 && Decode(Encode(m) + rest) != Ok((m, rest))
  {
    var token, id, sub := Zeros(SESSION_TOKEN_LEN), Zeros(MESSAGE_ID_LEN), Zeros(SUB_MESSAGE_ID_LEN);
    var payload := Zeros(0x1_0000_0000);
    var accepted := NewMessage(InOnly, token, id, sub, 0, 0, [], [97], [], payload);
    m := accepted.value;
    NewMessageExact(InOnly, token, id, sub, 0, 0, [], [97], [], payload, m, rest);
  }

  /** `new` builds every well-formed message whose reserved flag bits are clear. */
  lemma NewMessageComplete(m: Message)
    requires WellFormed(m) && m.header.flags < 2
    ensures
      var h := m.header;
      NewMessage(Mode(m), h.sessionToken, h.messageId, h.subMessageId, h.priority, h.ttl,
                 m.msgType, m.address, m.replyTo, m.payload) == Ok(m)
  {
    ValidAddressIsUtf8(m.address);
    if Mode(m) == InOut {
      ValidAddressIsUtf8(m.replyTo);
    }
  }

  // ----------------------------------------------------------------- requests

  /** What `request` makes of a message: mode bit set, reply address replaced by the client's own. */
  function AsRequest(m: Message, clientAddress: Bytes): Message {
    m.(header := m.header.(flags := m.header.flags - m.header.flags % 2 + FlagsOf(InOut)), replyTo := clientAddress)
  }

  /** `q` is `m` made a request: the mode bit and the reply address are set, and nothing else differs. */
  predicate IsRequestOf(q: Message, m: Message, replyAddress: Bytes) {
    && q.header.flags % 2 == 1 && q.header.flags / 2 == m.header.flags / 2
    && q.replyTo == replyAddress
    && q.msgType == m.msgType && q.address == m.address && q.payload == m.payload
    && q.header.version == m.header.version && q.header.priority == m.header.priority && q.header.ttl == m.header.ttl
    && q.header.sessionToken == m.header.sessionToken
    && q.header.messageId == m.header.messageId && q.header.subMessageId == m.header.subMessageId
    && q.header.msgTypeLen == m.header.msgTypeLen && q.header.addressLen == m.header.addressLen
    && q.header.payloadLen == m.header.payloadLen
  }

  /** The rewritten message is the one request made of `m`, and is not changed by rewriting again. */
  lemma AsRequestPreserves(m: Message, clientAddress: Bytes)
    ensures forall q :: IsRequestOf(q, m, clientAddress) <==> q == AsRequest(m, clientAddress)
    ensures AsRequest(AsRequest(m, clientAddress), clientAddress) == AsRequest(m, clientAddress)
  {
  }

  lemma RequestIsWellFormed(m: Message, clientAddress: Bytes)
    requires WellFormed(m)
    ensures WellFormed(AsRequest(m, clientAddress)) <==> ValidAddress(clientAddress) && |clientAddress| <= MAX_ADDRESS_LEN
  {
  }

  /** It survives the wire exactly when the client's address is valid and within the length limit. */
  lemma RequestRoundTrip(m: Message, clientAddress: Bytes, rest: Bytes)
    requires WellFormed(m)
    ensures
      var m' := AsRequest(m, clientAddress);
      Decode(Encode(m') + rest) == Ok((m', rest)) <==> ValidAddress(clientAddress) && |clientAddress| <= MAX_ADDRESS_LEN
  {
    RequestIsWellFormed(m, clientAddress);
    RoundTripExact(AsRequest(m, clientAddress), rest);
  }
}
