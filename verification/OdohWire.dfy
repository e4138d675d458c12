/** The Oblivious DoH wire encodings of sections 5 and 6.1 of RFC 9230, byte for byte. */
module OdohWire {
  import opened Bytes

  datatype Error = Malformed | UnsupportedSuite | KeyIdMismatch | FieldTooLong | BadKey | OpenFailed

  datatype Result<+T> = Ok(value: T) | Err(error: Error)

  const MAX_FIELD: nat := 65535

  type U16 = n: nat | n < 65536

  /** A length rendered for a two-byte prefix, saturating rather than wrapping. */
  function WireLen(n: nat): U16 {
    if n > MAX_FIELD then MAX_FIELD else n
  }

  function Put16(n: U16): (b: Bytes)
    ensures |b| == 2
  {
    BigEndian(n, 2)
  }

  function Get16(b: Bytes): U16
    requires |b| >= 2
  {
    Limits();
    FromBigEndianRoundTrip(b[..2]);
    FromBigEndian(b[..2])
  }

  /** A length prefix and the bytes. */
  function Field(b: Bytes): Bytes {
    Put16(WireLen(|b|)) + b
  }

  lemma Get16Put16(n: U16, rest: Bytes)
    ensures Get16(Put16(n) + rest) == n && (Put16(n) + rest)[2..] == rest
  {
    Limits();
    BigEndianRoundTrip(n, 2);
    assert (Put16(n) + rest)[..2] == Put16(n);
  }

  lemma Put16Get16(b: Bytes)
    requires |b| >= 2
    ensures b == Put16(Get16(b)) + b[2..]
  {
    FromBigEndianRoundTrip(b[..2]);
    assert b == b[..2] + b[2..];
  }

  /** A two-byte length, most significant byte first, and the bytes; the length of what is too
      long for it reads 65535. */
  lemma FieldLayout(b: Bytes)
    ensures |b| <= 65535 ==> Field(b) == [|b| / 0x100, |b| % 0x100] + b
    ensures |b| > 65535 ==> Field(b) == [0xff, 0xff] + b
  {
    BigEndianBytes(WireLen(|b|));
  }

  // ----- Taking fields off the front

  /** A field whose length fits in what remains, and what follows it. */
  function TakeField(b: Bytes): Result<(Bytes, Bytes)> {
    if |b| < 2 then Err(Malformed)
    else if Get16(b) > |b| - 2 then Err(Malformed)
    else Ok((b[2..2 + Get16(b)], b[2 + Get16(b)..]))
  }

  /** A field that must end exactly where the input does. */
  function LastField(b: Bytes): Result<Bytes> {
    if |b| < 2 || Get16(b) != |b| - 2 then Err(Malformed) else Ok(b[2..])
  }

  /** Taking a field inverts writing one, in both directions. */
  lemma TakeFieldExact(b: Bytes, x: Bytes, rest: Bytes)
    ensures TakeField(b) == Ok((x, rest)) <==> |x| <= MAX_FIELD && b == Field(x) + rest
  {
    if |x| <= MAX_FIELD && b == Field(x) + rest {
      assert b == Put16(|x|) + (x + rest);
      Get16Put16(|x|, x + rest);
      assert b[2..2 + |x|] == x && b[2 + |x|..] == rest;
    }
    if TakeField(b) == Ok((x, rest)) {
      Put16Get16(b);
      assert b[2..] == x + rest;
      assert b == Put16(|x|) + (x + rest);
    }
  }

  /** An over-long last field, whose prefix saturates, is rejected. */
  lemma LastFieldExact(b: Bytes, x: Bytes)
    ensures LastField(b) == Ok(x) <==> |x| <= MAX_FIELD && b == Field(x)
    ensures |x| > MAX_FIELD ==> LastField(Field(x)) == Err(Malformed)
  {
    if b == Field(x) {
      Get16Put16(WireLen(|x|), x);
    }
    if LastField(b) == Ok(x) {
      Put16Get16(b);
    }
    Get16Put16(WireLen(|x|), x);
  }

  // ----- Messages

  datatype Message = Message(mtype: byte, keyId: Bytes, encrypted: Bytes)

  function MarshalMessage(m: Message): Bytes {
    [m.mtype] + Field(m.keyId) + Field(m.encrypted)
  }

  /** Type, key identifier, ciphertext (section 6.1 of RFC 9230). */
  lemma MessageLayout(m: Message)
    requires |m.keyId| <= 65535 && |m.encrypted| <= 65535
    ensures MarshalMessage(m) ==
            [m.mtype] + [|m.keyId| / 0x100, |m.keyId| % 0x100] + m.keyId
            + [|m.encrypted| / 0x100, |m.encrypted| % 0x100] + m.encrypted
  {
    FieldLayout(m.keyId);
    FieldLayout(m.encrypted);
  }

  function MessageOf(b: Bytes): Result<Message> {
    if |b| < 1 then Err(Malformed)
    else
      match TakeField(b[1..])
      case Err(e) => Err(e)
      case Ok((keyId, rest)) =>
        match LastField(rest)
        case Err(e) => Err(e)
        case Ok(encrypted) => if encrypted == [] then Err(Malformed) else Ok(Message(b[0], keyId, encrypted))
  }

  /** The parser, re-slicing its input field by field. */
  method ParseMessage(input: Bytes) returns (r: Result<Message>)
    ensures r == MessageOf(input)
  {
    var b := input;
    if |b| < 1 {
      return Err(Malformed);
    }
    var mtype := b[0];
    b := b[1..];
    if |b| < 2 {
      return Err(Malformed);
    }
    var klen := Get16(b);
    b := b[2..];
    if klen > |b| {
      return Err(Malformed);
    }
    var keyId := b[..klen];
    b := b[klen..];
    assert TakeField(input[1..]) == Ok((keyId, b)) by {
      assert input[1..][2..2 + klen] == keyId && input[1..][2 + klen..] == b;
    }
    if |b| < 2 {
      return Err(Malformed);
    }
    var elen := Get16(b);
    b := b[2..];
    if elen != |b| {
      return Err(Malformed);
    }
    if elen == 0 {
      return Err(Malformed);
    }
    r := Ok(Message(mtype, keyId, b));
  }

  predicate MessageInRange(m: Message) {
    |m.keyId| <= MAX_FIELD && 1 <= |m.encrypted| <= MAX_FIELD
  }

  lemma EncodedParses(m: Message)
    requires MessageInRange(m)
    ensures MessageOf(MarshalMessage(m)) == Ok(m)
  {
    var b := MarshalMessage(m);
    assert b[1..] == Field(m.keyId) + Field(m.encrypted);
    TakeFieldExact(b[1..], m.keyId, Field(m.encrypted));
    LastFieldExact(Field(m.encrypted), m.encrypted);
  }

  lemma ParsedIsEncoded(b: Bytes, m: Message)
    requires MessageOf(b) == Ok(m)
    ensures MessageInRange(m) && b == MarshalMessage(m)
  {
    var (keyId, rest) := TakeField(b[1..]).value;
    TakeFieldExact(b[1..], keyId, rest);
    LastFieldExact(rest, m.encrypted);
    assert b == [b[0]] + b[1..];
    assert [m.mtype] + (Field(keyId) + rest) == [m.mtype] + Field(keyId) + rest;
  }

  /** The parser accepts exactly the encodings of messages in range, and gives the message back. */
  lemma MessageExact(b: Bytes, m: Message)
    ensures MessageOf(b) == Ok(m) <==> MessageInRange(m) && b == MarshalMessage(m)
  {
    if MessageInRange(m) && b == MarshalMessage(m) {
      EncodedParses(m);
    }
    if MessageOf(b) == Ok(m) {
      ParsedIsEncoded(b, m);
    }
  }

  /** A message that is too long for its last length prefix is rejected by its receiver. */
  lemma OverlongMessageRejected(m: Message)
    requires |m.keyId| <= MAX_FIELD && |m.encrypted| > MAX_FIELD
    ensures MessageOf(MarshalMessage(m)) == Err(Malformed)
  {
    var b := MarshalMessage(m);
    assert b[1..] == Field(m.keyId) + Field(m.encrypted);
    TakeFieldExact(b[1..], m.keyId, Field(m.encrypted));
    LastFieldExact(b, m.encrypted);
  }

  // ----- Plaintexts

  datatype Plaintext = Plaintext(dnsMessage: Bytes, padding: Bytes)

  function MarshalPlaintext(p: Plaintext): Bytes {
    Field(p.dnsMessage) + Field(p.padding)
  }

  /** The DNS message, then the padding. */
  lemma PlaintextLayout(p: Plaintext)
    requires |p.dnsMessage| <= 65535 && |p.padding| <= 65535
    ensures MarshalPlaintext(p) ==
            [|p.dnsMessage| / 0x100, |p.dnsMessage| % 0x100] + p.dnsMessage
            + [|p.padding| / 0x100, |p.padding| % 0x100] + p.padding
  {
    FieldLayout(p.dnsMessage);
    FieldLayout(p.padding);
  }

  predicate AllZero(b: Bytes) {
    forall i :: 0 <= i < |b| ==> b[i] == 0
  }

  function PlaintextOf(b: Bytes): Result<Plaintext> {
    match TakeField(b)
    case Err(e) => Err(e)
    case Ok((dns, rest)) =>
      if dns == [] then Err(Malformed)
      else
        match LastField(rest)
        case Err(e) => Err(e)
        case Ok(padding) => if AllZero(padding) then Ok(Plaintext(dns, padding)) else Err(Malformed)
  }

  method ParsePlaintext(input: Bytes) returns (r: Result<Plaintext>)
    ensures r == PlaintextOf(input)
  {
    var b := input;
    if |b| < 2 {
      return Err(Malformed);
    }
    var dlen := Get16(b);
    b := b[2..];
    if dlen == 0 {
      return Err(Malformed);
    }
    if dlen > |b| {
      return Err(Malformed);
    }
    var dns := b[..dlen];
    b := b[dlen..];
    assert TakeField(input) == Ok((dns, b)) by {
      assert input[2..2 + dlen] == dns && input[2 + dlen..] == b;
    }
    if |b| < 2 {
      return Err(Malformed);
    }
    var plen := Get16(b);
    b := b[2..];
    if plen != |b| {
      return Err(Malformed);
    }
    for i := 0 to |b|
      invariant forall j :: 0 <= j < i ==> b[j] == 0
    {
      if b[i] != 0 {
        return Err(Malformed);
      }
    }
    r := Ok(Plaintext(dns, b));
  }

  predicate PlaintextInRange(p: Plaintext) {
    1 <= |p.dnsMessage| <= MAX_FIELD && |p.padding| <= MAX_FIELD && AllZero(p.padding)
  }

  /** The parser accepts exactly the encodings of zero-padded, non-empty plaintexts in range. */
  lemma PlaintextExact(b: Bytes, p: Plaintext)
    ensures PlaintextOf(b) == Ok(p) <==> PlaintextInRange(p) && b == MarshalPlaintext(p)
  {
    if PlaintextInRange(p) && b == MarshalPlaintext(p) {
      TakeFieldExact(b, p.dnsMessage, Field(p.padding));
      LastFieldExact(Field(p.padding), p.padding);
    }
    if PlaintextOf(b) == Ok(p) {
      var (dns, rest) := TakeField(b).value;
      TakeFieldExact(b, dns, rest);
      LastFieldExact(rest, p.padding);
    }
  }
}
