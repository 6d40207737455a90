/** The wire format: a 64-byte little-endian header, then type, address, optional reply address and payload. */
module Protocol {
  import opened Segments
  import opened Wrappers

  const PROTOCOL_VERSION: nat := 1
  const MAX_MSG_TYPE_LEN: nat := 255
  const MAX_ADDRESS_LEN: nat := 1024
  const MAX_PAYLOAD_LEN: nat := 1_048_576
  const SESSION_TOKEN_LEN: nat := 32
  const MESSAGE_ID_LEN: nat := 16
  const SUB_MESSAGE_ID_LEN: nat := 4
  const FIXED_HEADER_SIZE: nat := 64

  type U16 = n: int | 0 <= n < 0x1_0000
  type U32 = n: int | 0 <= n < 0x1_0000_0000

  datatype TransferMode = InOnly | InOut

  datatype Header = Header(
    version: U16,
    flags: Byte,
    priority: Byte,
    sessionToken: Bytes,
    messageId: Bytes,
    subMessageId: Bytes,
    ttl: Byte,
    msgTypeLen: Byte,
    addressLen: U16,
    payloadLen: U32)

  datatype Message = Message(header: Header, msgType: Bytes, address: Bytes, replyTo: Bytes, payload: Bytes)

  datatype ProtocolError =
    | IncompleteHeader
    | UnsupportedVersion(version: U16)
    | MsgTypeTooLong
    | AddressTooLong
    | ReplyToTooLong
    | PayloadTooLarge(size: U32)
    | IncompleteMsgType
    | IncompleteAddress
    | IncompleteReplyTo
    | IncompletePayload
    | InvalidMsgTypeUtf8
    | InvalidReplyToUtf8
    | InvalidAddressUtf8
    | InvalidAddressFormat
    | EmptyAddressLevel
    | MissingReplyToForInOut
    | UnexpectedReplyToForInOnly

  datatype Result<+T> = Ok(value: T) | Err(error: ProtocolError)

  /** Some part of the buffer is missing. */
  predicate Incomplete(e: ProtocolError) {
    e.IncompleteHeader? || e.IncompleteMsgType? || e.IncompleteAddress? || e.IncompleteReplyTo? || e.IncompletePayload?
  }

  // ------------------------------------------------------------------- flags

  /** Bit 0 of the flags is the mode; the masked value has no third case. */
  function ModeOf(flags: Byte): TransferMode {
    if flags % 2 == 0 then InOnly else InOut
  }

  function FlagsOf(mode: TransferMode): Byte {
    match mode
    case InOnly => 0
    case InOut => 1
  }

  function Mode(m: Message): TransferMode {
    ModeOf(m.header.flags)
  }

  // ------------------------------------------------------------------- UTF-8

  predicate Tail(b: Byte) {
    0x80 <= b <= 0xBF
  }

  /** The number of bytes of the first UTF-8 sequence of `s` (section 4 of RFC 3629), or 0 when there is none. */
  function SequenceLen(s: Bytes): (n: nat)
    requires s != []
    ensures n <= |s|
  {
    var b := s[0];
    if b <= 0x7F then 1
    else if 0xC2 <= b <= 0xDF && |s| >= 2 && Tail(s[1]) then 2
    else if 0xE0 <= b <= 0xEF && |s| >= 3 && Tail(s[1]) && Tail(s[2])
      && (b == 0xE0 ==> s[1] >= 0xA0) && (b == 0xED ==> s[1] <= 0x9F) then 3
    else if 0xF0 <= b <= 0xF4 && |s| >= 4 && Tail(s[1]) && Tail(s[2]) && Tail(s[3])
      && (b == 0xF0 ==> s[1] >= 0x90) && (b == 0xF4 ==> s[1] <= 0x8F) then 4
    else 0
  }

  predicate Utf8(s: Bytes)
    decreases |s|
  {
    s == [] || (var n := SequenceLen(s); n > 0 && Utf8(s[n..]))
  }

  lemma {:induction false} AsciiIsUtf8(s: Bytes)
    requires forall i :: 0 <= i < |s| ==> s[i] < 0x80
    ensures Utf8(s)
    decreases |s|
  {
    if s != [] {
      AsciiIsUtf8(s[1..]);
    }
  }

  /** A Unicode scalar value: a code point that is no surrogate. */
  predicate IsScalar(c: int) {
    0 <= c <= 0x10FFFF && !(0xD800 <= c <= 0xDFFF)
  }

  /** The encoding of one scalar value (section 3 of RFC 3629). */
  function EncodeScalar(c: int): (r: Bytes)
    requires IsScalar(c)
    ensures r != []
  {
    if c <= 0x7F then [c]
    else if c <= 0x7FF then [0xC0 + c / 0x40, 0x80 + c % 0x40]
    else if c <= 0xFFFF then [0xE0 + c / 0x1000, 0x80 + c / 0x40 % 0x40, 0x80 + c % 0x40]
    else [0xF0 + c / 0x4_0000, 0x80 + c / 0x1000 % 0x40, 0x80 + c / 0x40 % 0x40, 0x80 + c % 0x40]
  }

  predicate AllScalars(text: seq<int>) {
    forall i :: 0 <= i < |text| ==> IsScalar(text[i])
  }

  function EncodeText(text: seq<int>): Bytes
    requires AllScalars(text)
  {
    if text == [] then [] else EncodeScalar(text[0]) + EncodeText(text[1..])
  }

  lemma SequenceOfScalar(c: int, rest: Bytes)
    requires IsScalar(c)
    ensures SequenceLen(EncodeScalar(c) + rest) == |EncodeScalar(c)|
  {
    if 0x800 <= c <= 0xFFFF {
      ThreeBytes(c, rest);
    } else if c > 0xFFFF {
      FourBytes(c, rest);
    }
  }

  lemma ThreeBytes(c: int, rest: Bytes)
    requires IsScalar(c) && 0x800 <= c <= 0xFFFF
    ensures SequenceLen(EncodeScalar(c) + rest) == 3
  {
    var hi, mid := c / 0x1000, c / 0x40 % 0x40;
    assert c / 0x40 == 0x40 * hi + mid;
  }

  lemma FourBytes(c: int, rest: Bytes)
    requires IsScalar(c) && c > 0xFFFF
    ensures SequenceLen(EncodeScalar(c) + rest) == 4
  {
    var upper := c / 0x1000;
    var hi, mid := upper / 0x40, upper % 0x40;
    assert 0x10 <= upper <= 0x10F && c / 0x4_0000 == hi;
    assert (hi == 0 ==> mid >= 0x10) && (hi == 4 ==> mid <= 0xF) && hi <= 4;
    var b := EncodeScalar(c) + rest;
    assert b[0] == 0xF0 + hi && b[1] == 0x80 + mid && Tail(b[2]) && Tail(b[3]);
  }

  /** The last six bits of a number, and what comes before them. */
  lemma LastDigit(high: int, low: int)
    requires 0 <= low < 0x40
    ensures (0x40 * high + low) / 0x40 == high && (0x40 * high + low) % 0x40 == low
  {
  }

  lemma ScalarOfTwo(s: Bytes) returns (c: int)
    requires s != [] && SequenceLen(s) == 2
    ensures IsScalar(c) && EncodeScalar(c) == s[..2]
  {
    var a: int, b: int := s[0] - 0xC0, s[1] - 0x80;
    c := 0x40 * a + b;
    LastDigit(a, b);
  }

  lemma ScalarOfThree(s: Bytes) returns (c: int)
    requires s != [] && SequenceLen(s) == 3
    ensures IsScalar(c) && EncodeScalar(c) == s[..3]
  {
    var a: int, b: int, d: int := s[0] - 0xE0, s[1] - 0x80, s[2] - 0x80;
    c := 0x40 * (0x40 * a + b) + d;
    LastDigit(0x40 * a + b, d);
    LastDigit(a, b);
    assert c / 0x1000 == a;
  }

  lemma ScalarOfFour(s: Bytes) returns (c: int)
    requires s != [] && SequenceLen(s) == 4
    ensures IsScalar(c) && EncodeScalar(c) == s[..4]
  {
    var a: int, b: int, d: int, e: int := s[0] - 0xF0, s[1] - 0x80, s[2] - 0x80, s[3] - 0x80;
    var upper := 0x40 * a + b;
    c := 0x40 * (0x40 * upper + d) + e;
    LastDigit(0x40 * upper + d, e);
    LastDigit(upper, d);
    LastDigit(a, b);
    assert c / 0x1000 == upper && c / 0x4_0000 == a;
  }

  /** The scalar value that the first sequence of `s` spells. */
  lemma ScalarOfSequence(s: Bytes) returns (c: int)
    requires s != [] && SequenceLen(s) > 0
    ensures IsScalar(c) && EncodeScalar(c) == s[..SequenceLen(s)]
  {
    match SequenceLen(s)
    case 1 => c := s[0];
    case 2 => c := ScalarOfTwo(s);
    case 3 => c := ScalarOfThree(s);
    case _ => c := ScalarOfFour(s);
  }

  lemma {:induction false} TextIsUtf8(text: seq<int>)
    requires AllScalars(text)
    ensures Utf8(EncodeText(text))
  {
    if text != [] {
      TextIsUtf8(text[1..]);
      SequenceOfScalar(text[0], EncodeText(text[1..]));
    }
  }

  lemma {:induction false} Utf8IsText(s: Bytes) returns (text: seq<int>)
    requires Utf8(s)
    ensures AllScalars(text) && EncodeText(text) == s
    decreases |s|
  {
    if s == [] {
      text := [];
    } else {
      var n := SequenceLen(s);
      var c := ScalarOfSequence(s);
      var more := Utf8IsText(s[n..]);
      text := [c] + more;
      assert text[1..] == more && s == s[..n] + s[n..];
    }
  }

  /** A byte string is accepted as UTF-8 exactly when it encodes some sequence of Unicode scalar values. */
  lemma Utf8Exact(s: Bytes)
    ensures Utf8(s) <==> exists text :: AllScalars(text) && EncodeText(text) == s
  {
    if Utf8(s) {
      var text := Utf8IsText(s);
    }
    if text :| AllScalars(text) && EncodeText(text) == s {
      TextIsUtf8(text);
    }
  }

  // --------------------------------------------------------------- addresses

  predicate AddressChar(b: Byte) {
    0x30 <= b <= 0x39 || 0x41 <= b <= 0x5A || 0x61 <= b <= 0x7A || b == 0x2D || b == 0x5F || b == COLON
  }

  /** A ':' that is last or is followed by another one. */
  predicate OpensEmptyLevel(a: Bytes, i: nat) {
    i < |a| && a[i] == COLON && (i == |a| - 1 || a[i + 1] == COLON)
  }

  predicate HasEmptyLevel(a: Bytes) {
    a != [] && (a[0] == COLON || exists i :: 0 <= i < |a| && OpensEmptyLevel(a, i))
  }

  function ValidateAddress(a: Bytes): Result<()> {
    if a == [] then Err(InvalidAddressFormat)
    else if HasEmptyLevel(a) then Err(EmptyAddressLevel)
    else if !forall i :: 0 <= i < |a| ==> AddressChar(a[i]) then Err(InvalidAddressFormat)
    else Ok(())
  }

  predicate ValidAddress(a: Bytes) {
    ValidateAddress(a).Ok?
  }

  /** An address is valid when no level is empty and every byte is a letter, digit, '-' (45), '_' (95) or ':' (58). */
  lemma ValidAddressLevels(a: Bytes)
    ensures ValidAddress(a) <==>
      && [] !in Split(a)
      && forall i :: 0 <= i < |a| ==>
           'a' as int <= a[i] <= 'z' as int || 'A' as int <= a[i] <= 'Z' as int || '0' as int <= a[i] <= '9' as int
           || a[i] == 45 || a[i] == 95 || a[i] == 58
  {
    if a != [] {
      EmptyLevels(a);
    }
    assert forall i :: 0 <= i < |a| ==> (AddressChar(a[i]) <==>
      'a' as int <= a[i] <= 'z' as int || 'A' as int <= a[i] <= 'Z' as int || '0' as int <= a[i] <= '9' as int
      || a[i] == 45 || a[i] == 95 || a[i] == 58);
  }

  lemma EmptyLevels(a: Bytes)
    requires a != []
    ensures HasEmptyLevel(a) <==> [] in Split(a)
  {
    LaterLevels(a);
    assert Split(a) == [Split(a)[0]] + Split(a)[1..];
  }

  /** Why an address is rejected: an empty level is reported first, unless the address is empty altogether. */
  lemma AddressRejections(a: Bytes)
    ensures ValidateAddress(a) == Err(EmptyAddressLevel) <==> a != [] && [] in Split(a)
    ensures ValidateAddress(a) == Err(InvalidAddressFormat) <==> !ValidAddress(a) && (a == [] || [] !in Split(a))
    ensures ValidateAddress(a).Ok? || ValidateAddress(a).error in {EmptyAddressLevel, InvalidAddressFormat}
  {
    if a != [] {
      EmptyLevels(a);
    }
  }

  /** What is wrong with an address, if anything. */
  function AddressFault(x: Bytes): Option<ProtocolError> {
    if x == [] then Some(InvalidAddressFormat)
    else if [] in Split(x) then Some(EmptyAddressLevel)
    else if !ValidAddress(x) then Some(InvalidAddressFormat)
    else None
  }

  function ErrorOf<T>(r: Result<T>): Option<ProtocolError> {
    match r
    case Ok(_) => None
    case Err(e) => Some(e)
  }

  lemma AddressFaultIs(x: Bytes)
    ensures ErrorOf(ValidateAddress(x)) == AddressFault(x)
  {
    AddressRejections(x);
  }

  lemma {:induction false} LaterLevels(a: Bytes)
    requires a != []
    ensures [] in Split(a)[1..] <==> exists i :: 0 <= i < |a| && OpensEmptyLevel(a, i)
    ensures Split(a)[0] == [] <==> a[0] == COLON
  {
    var t := a[1..];
    if t == [] {
      assert a[0] == COLON ==> OpensEmptyLevel(a, 0) && Split(a)[1] == [];
    } else {
      LaterLevels(t);
      assert forall i :: 1 <= i < |a| ==> (OpensEmptyLevel(a, i) <==> OpensEmptyLevel(t, i - 1));
      assert Split(t) == [Split(t)[0]] + Split(t)[1..];
      assert Split(a)[1..] == if a[0] == COLON then Split(t) else Split(t)[1..];
      assert OpensEmptyLevel(a, 0) <==> a[0] == COLON && a[1] == COLON;
      if i :| 0 <= i < |t| && OpensEmptyLevel(t, i) {
        assert OpensEmptyLevel(a, i + 1);
      }
    }
  }
}
