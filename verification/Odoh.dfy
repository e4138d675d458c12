/** Oblivious DoH end to end (section 6.2 of RFC 9230) over ideal cryptography: keys and
    secrets are terms, and a ciphertext opens only as what the world records it was sealed as. */
module Odoh {
  import opened Bytes
  import opened OdohWire
  import opened OdohConfigs

  const MESSAGE_QUERY: byte := 1
  const MESSAGE_RESPONSE: byte := 2
  const ENC_LENGTH: nat := 32
  const KEY_LENGTH: nat := 16
  const NONCE_LENGTH: nat := 12
  const RESPONSE_NONCE_LENGTH: nat := 16
  const TAG_LENGTH: nat := 16
  const KEY_ID_LENGTH: nat := 32

  // ----- Ideal cryptography

  /** An HPKE context, the same for the sender to a public key and the holder of its private key. */
  datatype Context = Context(publicKey: Bytes, enc: Bytes, info: string)

  datatype Secret = Export(ctx: Context, exporter: string, length: nat)
  datatype Prk = Extract(secret: Secret, salt: Bytes)
  datatype Expanded = Expand(prk: Prk, info: string, length: nat)

  /** What a ciphertext was sealed as: under an HPKE context, or by AES-GCM under a key and nonce. */
  datatype Sealing =
    | HpkeSeal(ctx: Context, aad: Bytes, plain: Bytes)
    | GcmSeal(key: Expanded, nonce: Expanded, aad: Bytes, plain: Bytes)

  datatype World = World(sealed: map<Bytes, Sealing>)

  /** A ciphertext the encryption may output: 16 bytes longer than the plaintext, never issued before. */
  predicate CanSeal(w: World, plain: Bytes, ct: Bytes) {
    |ct| == |plain| + TAG_LENGTH && ct !in w.sealed
  }

  function Seal(w: World, s: Sealing, ct: Bytes): World {
    World(w.sealed[ct := s])
  }

  function OpenHpke(w: World, ctx: Context, aad: Bytes, ct: Bytes): Result<Bytes> {
    if ct in w.sealed && w.sealed[ct].HpkeSeal? && w.sealed[ct].ctx == ctx && w.sealed[ct].aad == aad
    then Ok(w.sealed[ct].plain) else Err(OpenFailed)
  }

  function OpenGcm(w: World, key: Expanded, nonce: Expanded, aad: Bytes, ct: Bytes): Result<Bytes> {
    if ct in w.sealed && w.sealed[ct].GcmSeal? && w.sealed[ct].key == key && w.sealed[ct].nonce == nonce
      && w.sealed[ct].aad == aad
    then Ok(w.sealed[ct].plain) else Err(OpenFailed)
  }

  // ----- Additional data and response secrets

  function QueryAad(keyId: Bytes): Bytes {
    [MESSAGE_QUERY] + Put16(WireLen(|keyId|)) + keyId
  }

  function ResponseAad(nonce: Bytes): Bytes {
    [MESSAGE_RESPONSE] + Put16(WireLen(|nonce|)) + nonce
  }

  function ResponseSalt(queryPlain: Bytes, nonce: Bytes): Bytes {
    queryPlain + Put16(WireLen(|nonce|)) + nonce
  }

  function ResponsePrk(ctx: Context, queryPlain: Bytes, nonce: Bytes): Prk {
    Extract(Export(ctx, "odoh response", KEY_LENGTH), ResponseSalt(queryPlain, nonce))
  }

  function ResponseKey(prk: Prk): Expanded {
    Expand(prk, "odoh key", KEY_LENGTH)
  }

  function ResponseNonce(prk: Prk): Expanded {
    Expand(prk, "odoh nonce", NONCE_LENGTH)
  }

  /** The two kinds of additional data never coincide, and each determines its identifier. */
  lemma AadInjective(a: Bytes, b: Bytes)
    ensures QueryAad(a) == QueryAad(b) <==> a == b
    ensures ResponseAad(a) == ResponseAad(b) <==> a == b
    ensures QueryAad(a) != ResponseAad(b)
  {
    assert QueryAad(a)[3..] == a && QueryAad(b)[3..] == b;
    assert ResponseAad(a)[3..] == a && ResponseAad(b)[3..] == b;
    assert QueryAad(a)[0] != ResponseAad(b)[0];
  }

  /** Byte by byte: the direction, the identifier's length and the identifier. */
  lemma AadLayout(id: Bytes)
    requires |id| <= 65535
    ensures QueryAad(id) == [1, |id| / 0x100, |id| % 0x100] + id
    ensures ResponseAad(id) == [2, |id| / 0x100, |id| % 0x100] + id
  {
    BigEndianBytes(|id|);
  }

  /** For nonces of the fixed length the salt determines both of its parts. */
  lemma SaltInjective(p: Bytes, n: Bytes, q: Bytes, m: Bytes)
    requires |n| == RESPONSE_NONCE_LENGTH && |m| == RESPONSE_NONCE_LENGTH
    ensures ResponseSalt(p, n) == ResponseSalt(q, m) <==> p == q && n == m
  {
    var s, t := ResponseSalt(p, n), ResponseSalt(q, m);
    assert s[..|p|] == p && s[|p| + 2..] == n && t[..|q|] == q && t[|q| + 2..] == m;
    if s == t {
      assert |p| == |q|;
    }
  }

  // ----- The two roles

  /** kid stands for the HKDF of the config bytes. */
  type KeyIdOf = Bytes -> Bytes

  ghost predicate IsKeyId(kid: KeyIdOf) {
    forall b: Bytes :: |kid(b)| == KEY_ID_LENGTH
  }

  datatype Target = Target(contents: Contents, keyId: Bytes)

  function NewTarget(kid: KeyIdOf, publicKey: Bytes): Target {
    var contents := Contents(KEM_X25519, KDF_SHA256, AEAD_AES128, publicKey);
    Target(contents, kid(MarshalContents(contents)))
  }

  datatype Client = Client(config: Contents, keyId: Bytes)

  function NewClient(kid: KeyIdOf, config: Contents): Result<Client> {
    if !Supported(config) then Err(UnsupportedSuite)
    else if config.publicKey == [] then Err(Malformed)
    else Ok(Client(config, kid(MarshalContents(config))))
  }

  /** A client is made exactly for the one supported suite and a key. */
  lemma NewClientExactly(kid: KeyIdOf, config: Contents)
    ensures var r := NewClient(kid, config);
            && (r.Ok? <==> config.kem == 0x20 && config.kdf == 1 && config.aead == 1 && config.publicKey != [])
            && (r.Ok? ==> r.value.config == config && r.value.keyId == kid(MarshalContents(config)))
            && (r == Err(UnsupportedSuite) <==> config.kem != 0x20 || config.kdf != 1 || config.aead != 1)
  {
  }

  datatype Pending = Pending(ctx: Context, queryPlain: Bytes)
  datatype QueryContext = QueryContext(ctx: Context, queryPlain: Bytes)

  function CheckField(n: nat): Result<()> {
    if n > MAX_FIELD then Err(FieldTooLong) else Ok(())
  }

  /** enc is the encapsulated key and ct the ciphertext the sealing produces. */
  function EncryptQuery(c: Client, w: World, q: Bytes, pad: Bytes, enc: Bytes,
          ct: Bytes): (Result<(Message, Pending)>, World) {
    if q == [] then (Err(Malformed), w)
    else if CheckField(|q|).Err? || CheckField(|pad|).Err? then (Err(FieldTooLong), w)
    else if |c.config.publicKey| != ENC_LENGTH then (Err(BadKey), w)
    else
      var ctx := Context(c.config.publicKey, enc, "odoh query");
      var plain := MarshalPlaintext(Plaintext(q, pad));
      (Ok((Message(MESSAGE_QUERY, c.keyId, enc + ct), Pending(ctx, plain))),
        Seal(w, HpkeSeal(ctx, QueryAad(c.keyId), plain), ct))
  }

  function DecryptQuery(t: Target, w: World, m: Message): Result<(Bytes, QueryContext)> {
    if m.mtype != MESSAGE_QUERY then Err(Malformed)
    else if m.keyId != t.keyId then Err(KeyIdMismatch)
    else if |m.encrypted| <= ENC_LENGTH then Err(Malformed)
    else
      var ctx := Context(t.contents.publicKey, m.encrypted[..ENC_LENGTH], "odoh query");
      match OpenHpke(w, ctx, QueryAad(m.keyId), m.encrypted[ENC_LENGTH..])
      case Err(e) => Err(e)
      case Ok(plain) =>
        match PlaintextOf(plain)
        case Err(e) => Err(e)
        case Ok(p) => Ok((p.dnsMessage, QueryContext(ctx, plain)))
  }

  /** nonce is the random response nonce and ct the ciphertext the sealing produces. */
  function EncryptResponse(w: World, qc: QueryContext, r: Bytes, pad: Bytes, nonce: Bytes,
          ct: Bytes): (Result<Message>, World) {
    if CheckField(|r|).Err? || CheckField(|pad|).Err? then (Err(FieldTooLong), w)
    else
      var prk := ResponsePrk(qc.ctx, qc.queryPlain, nonce);
      var plain := MarshalPlaintext(Plaintext(r, pad));
      (Ok(Message(MESSAGE_RESPONSE, nonce, ct)),
        Seal(w, GcmSeal(ResponseKey(prk), ResponseNonce(prk), ResponseAad(nonce), plain), ct))
  }

  function DecryptResponse(w: World, pq: Pending, m: Message): Result<Bytes> {
    if m.mtype != MESSAGE_RESPONSE || |m.keyId| != RESPONSE_NONCE_LENGTH then Err(Malformed)
    else
      var prk := ResponsePrk(pq.ctx, pq.queryPlain, m.keyId);
      match OpenGcm(w, ResponseKey(prk), ResponseNonce(prk), ResponseAad(m.keyId), m.encrypted)
      case Err(e) => Err(e)
      case Ok(plain) =>
        match PlaintextOf(plain)
        case Err(e) => Err(e)
        case Ok(p) => Ok(p.dnsMessage)
  }

  /** What the target makes of the bytes a proxy forwards. */
  function ReceiveQuery(t: Target, w: World, wire: Bytes): Result<(Bytes, QueryContext)> {
    match MessageOf(wire)
    case Err(e) => Err(e)
    case Ok(m) => DecryptQuery(t, w, m)
  }

  function ReceiveResponse(w: World, pq: Pending, wire: Bytes): Result<Bytes> {
    match MessageOf(wire)
    case Err(e) => Err(e)
    case Ok(m) => DecryptResponse(w, pq, m)
  }

  // ----- What is sealed, and who may open it

  /** A query is refused exactly when it is empty, a field is too long for its length prefix, or
      the key has the wrong size; and it is then not sealed. */
  lemma EncryptQueryExactly(c: Client, w: World, q: Bytes, pad: Bytes, enc: Bytes, ct: Bytes)
    ensures var (r, u) := EncryptQuery(c, w, q, pad, enc, ct);
            && (r.Ok? <==> 1 <= |q| <= 65535 && |pad| <= 65535 && |c.config.publicKey| == 32)
            && (r.Err? ==> u == w)
            && (r == Err(BadKey) <==> 1 <= |q| <= 65535 && |pad| <= 65535 && |c.config.publicKey| != 32)
            && (r == Err(Malformed) <==> q == [])
  {
  }

  /** A query is sealed to the target's key under the label "odoh query", with type 1 and the key
      identifier as additional data. */
  lemma QueryIsSealedAs(c: Client, w: World, q: Bytes, pad: Bytes, enc: Bytes, ct: Bytes)
    requires 1 <= |q| <= 65535 && |pad| <= 65535 && |c.config.publicKey| == 32 == |c.keyId|
    ensures var (r, u) := EncryptQuery(c, w, q, pad, enc, ct);
            && r.Ok? && r.value.0 == Message(1, c.keyId, enc + ct) && ct in u.sealed
            && u.sealed[ct] ==
               HpkeSeal(Context(c.config.publicKey, enc, "odoh query"), [1, 0, 32] + c.keyId,
                        MarshalPlaintext(Plaintext(q, pad)))
            && r.value.1 ==
               Pending(Context(c.config.publicKey, enc, "odoh query"), MarshalPlaintext(Plaintext(q, pad)))
  {
    AadLayout(c.keyId);
  }

  /** Which errors a query message meets before it is opened: another type is malformed, another
      key identifier a mismatch, and a missing ciphertext malformed. */
  lemma DecryptQueryErrors(t: Target, w: World, m: Message)
    ensures m.mtype != 1 ==> DecryptQuery(t, w, m) == Err(Malformed)
    ensures m.mtype == 1 && m.keyId != t.keyId ==> DecryptQuery(t, w, m) == Err(KeyIdMismatch)
    ensures m.mtype == 1 && m.keyId == t.keyId && |m.encrypted| <= 32 ==> DecryptQuery(t, w, m) == Err(Malformed)
  {
  }

  /** Parsing a plaintext whose fields are in range: only the padding can be refused. */
  lemma PlaintextParses(p: Plaintext)
    requires |p.dnsMessage| <= MAX_FIELD && |p.padding| <= MAX_FIELD
    ensures PlaintextOf(MarshalPlaintext(p)) ==
              if p.dnsMessage != [] && AllZero(p.padding) then Ok(p) else Err(Malformed)
  {
    TakeFieldExact(MarshalPlaintext(p), p.dnsMessage, Field(p.padding));
    LastFieldExact(Field(p.padding), p.padding);
  }

  /** Whatever arrives with the sealed ciphertext opens exactly at the target it was sealed to, with
      its own type, key identifier and encapsulated key, and then gives the query if its padding is zero. */
  lemma QueryOpensOnlyForItsTarget(c: Client, w: World, q: Bytes, pad: Bytes, enc: Bytes, ct: Bytes, t: Target,
          m: Message)
    requires 1 <= |q| <= MAX_FIELD && |pad| <= MAX_FIELD && |c.config.publicKey| == ENC_LENGTH == |enc|
    requires CanSeal(w, MarshalPlaintext(Plaintext(q, pad)), ct)
    requires |m.encrypted| >= ENC_LENGTH && m.encrypted[ENC_LENGTH..] == ct
    ensures var (r, u) := EncryptQuery(c, w, q, pad, enc, ct);
            && r.Ok?
            && (DecryptQuery(t, u, m).Ok? <==>
              && m == r.value.0 && t.keyId == c.keyId && t.contents.publicKey == c.config.publicKey && AllZero(pad))
            && (DecryptQuery(t, u, m).Ok? ==>
              DecryptQuery(t, u, m) == Ok((q, QueryContext(r.value.1.ctx, r.value.1.queryPlain))))
  {
    var (r, u) := EncryptQuery(c, w, q, pad, enc, ct);
    PlaintextParses(Plaintext(q, pad));
    AadInjective(m.keyId, c.keyId);
    assert m.encrypted == m.encrypted[..ENC_LENGTH] + ct;
    assert (enc + ct)[..ENC_LENGTH] == enc;
  }

  /** A response is refused exactly when a field is too long for its length prefix. */
  lemma EncryptResponseExactly(w: World, qc: QueryContext, r: Bytes, pad: Bytes, nonce: Bytes, ct: Bytes)
    ensures var (sent, u) := EncryptResponse(w, qc, r, pad, nonce, ct);
            (sent.Ok? <==> |r| <= 65535 && |pad| <= 65535) && (sent.Err? ==> sent == Err(FieldTooLong) && u == w)
  {
  }

  /** A response is sealed by AES-GCM under the key and nonce that section 6.2 of RFC 9230 derives
      from the query's context, the query plaintext and the response nonce. */
  lemma ResponseIsSealedAs(w: World, qc: QueryContext, r: Bytes, pad: Bytes, nonce: Bytes, ct: Bytes)
    requires |nonce| == 16 && |r| <= 65535 && |pad| <= 65535
    ensures var (sent, u) := EncryptResponse(w, qc, r, pad, nonce, ct);
            var prk := Extract(Export(qc.ctx, "odoh response", 16), qc.queryPlain + [0, 16] + nonce);
            && sent == Ok(Message(2, nonce, ct)) && ct in u.sealed
            && u.sealed[ct] ==
               GcmSeal(Expand(prk, "odoh key", 16), Expand(prk, "odoh nonce", 12), [2, 0, 16] + nonce,
                       MarshalPlaintext(Plaintext(r, pad)))
  {
    AadLayout(nonce);
    BigEndianBytes(16);
  }

  // ----- Queries

  lemma PlaintextLength(p: Plaintext)
    ensures |MarshalPlaintext(p)| == 4 + |p.dnsMessage| + |p.padding|
  {
  }

  /** A client built from the published bytes shares the target's config and key identifier. */
  lemma ClientFromWire(kid: KeyIdOf, publicKey: Bytes)
    requires IsKeyId(kid) && |publicKey| == ENC_LENGTH
    ensures var t := NewTarget(kid, publicKey);
            && ConfigsOf(MarshalConfigs(t.contents)) == Ok(t.contents)
            && NewClient(kid, t.contents) == Ok(Client(t.contents, t.keyId))
            && |t.keyId| == KEY_ID_LENGTH
  {
    ConfigsRoundTrip(NewTarget(kid, publicKey).contents);
  }

  predicate QueryFits(q: Bytes, pad: Bytes) {
    52 + |q| + |pad| <= MAX_FIELD
  }

  /** The target reads the sealed query back exactly when its padding is zero. */
  lemma QueryOpens(t: Target, w: World, q: Bytes, pad: Bytes, enc: Bytes, ct: Bytes)
    requires |t.contents.publicKey| == ENC_LENGTH == |enc| && 1 <= |q| <= MAX_FIELD && |pad| <= MAX_FIELD
    requires CanSeal(w, MarshalPlaintext(Plaintext(q, pad)), ct)
    ensures var (r, u) := EncryptQuery(Client(t.contents, t.keyId), w, q, pad, enc, ct);
            && r.Ok?
            && DecryptQuery(t, u, r.value.0) ==
              if AllZero(pad) then Ok((q, QueryContext(r.value.1.ctx, r.value.1.queryPlain))) else Err(Malformed)
  {
    var plain := MarshalPlaintext(Plaintext(q, pad));
    PlaintextLength(Plaintext(q, pad));
    PlaintextParses(Plaintext(q, pad));
    assert (enc + ct)[..ENC_LENGTH] == enc && (enc + ct)[ENC_LENGTH..] == ct;
  }

  /** Every encrypted query that is in range is delivered over the wire exactly when its
      padding is zero and the sealed size fits the last length prefix. */
  lemma QueryDelivery(t: Target, w: World, q: Bytes, pad: Bytes, enc: Bytes, ct: Bytes)
    requires |t.contents.publicKey| == ENC_LENGTH == |enc| && |t.keyId| == KEY_ID_LENGTH
    requires 1 <= |q| <= MAX_FIELD && |pad| <= MAX_FIELD
    requires CanSeal(w, MarshalPlaintext(Plaintext(q, pad)), ct)
    ensures var (r, u) := EncryptQuery(Client(t.contents, t.keyId), w, q, pad, enc, ct);
            && r.Ok?
            && ReceiveQuery(t, u, MarshalMessage(r.value.0)) ==
               if QueryFits(q, pad) && AllZero(pad) then Ok((q, QueryContext(r.value.1.ctx, r.value.1.queryPlain)))
                 else Err(Malformed)
  {
    var (r, u) := EncryptQuery(Client(t.contents, t.keyId), w, q, pad, enc, ct);
    var m := r.value.0;
    PlaintextLength(Plaintext(q, pad));
    QueryOpens(t, w, q, pad, enc, ct);
    if QueryFits(q, pad) {
      MessageExact(MarshalMessage(m), m);
    } else {
      OverlongMessageRejected(m);
    }
  }

  // ----- Responses

  /** Whatever arrives with the sealed ciphertext opens exactly for its own query, nonce and
      type, and then gives the response if that is non-empty and zero-padded. */
  lemma ResponseOpensOnlyForItsQuery(w: World, qc: QueryContext, r: Bytes, pad: Bytes, nonce: Bytes, ct: Bytes,
          pq: Pending, m: Message)
    requires |nonce| == RESPONSE_NONCE_LENGTH && |r| <= MAX_FIELD && |pad| <= MAX_FIELD
    requires CanSeal(w, MarshalPlaintext(Plaintext(r, pad)), ct) && m.encrypted == ct
    ensures var (sent, u) := EncryptResponse(w, qc, r, pad, nonce, ct);
            && sent.Ok?
            && (DecryptResponse(u, pq, m).Ok? <==>
              m == sent.value && pq == Pending(qc.ctx, qc.queryPlain) && r != [] && AllZero(pad))
            && (DecryptResponse(u, pq, m).Ok? ==> DecryptResponse(u, pq, m) == Ok(r))
  {
    PlaintextParses(Plaintext(r, pad));
    if |m.keyId| == RESPONSE_NONCE_LENGTH {
      SaltInjective(pq.queryPlain, m.keyId, qc.queryPlain, nonce);
    }
  }

  predicate ResponseFits(r: Bytes, pad: Bytes) {
    20 + |r| + |pad| <= MAX_FIELD
  }

  /** Over the wire: delivered to the pending query it answers exactly when the response is
      non-empty, its padding is zero and the sealed size fits. */
  lemma ResponseDelivery(w: World, qc: QueryContext, r: Bytes, pad: Bytes, nonce: Bytes, ct: Bytes, pq: Pending)
    requires |nonce| == RESPONSE_NONCE_LENGTH && |r| <= MAX_FIELD && |pad| <= MAX_FIELD
    requires CanSeal(w, MarshalPlaintext(Plaintext(r, pad)), ct)
    ensures var (sent, u) := EncryptResponse(w, qc, r, pad, nonce, ct);
            && sent.Ok?
            && (ReceiveResponse(u, pq, MarshalMessage(sent.value)) == Ok(r) <==>
                pq == Pending(qc.ctx, qc.queryPlain) && r != [] && AllZero(pad) && ResponseFits(r, pad))
  {
    var (sent, u) := EncryptResponse(w, qc, r, pad, nonce, ct);
    PlaintextLength(Plaintext(r, pad));
    ResponseOpensOnlyForItsQuery(w, qc, r, pad, nonce, ct, pq, sent.value);
    if ResponseFits(r, pad) {
      MessageExact(MarshalMessage(sent.value), sent.value);
    } else {
      OverlongMessageRejected(sent.value);
    }
  }

  // ----- End to end

  /** From the published config to the opened answer: query and response survive. */
  lemma EndToEnd(kid: KeyIdOf, publicKey: Bytes, w: World, q: Bytes, qpad: Bytes, enc: Bytes, qct: Bytes, r: Bytes,
          rpad: Bytes, nonce: Bytes, rct: Bytes)
    requires IsKeyId(kid) && |publicKey| == ENC_LENGTH == |enc| && |nonce| == RESPONSE_NONCE_LENGTH
    requires q != [] && AllZero(qpad) && QueryFits(q, qpad) && r != [] && AllZero(rpad) && ResponseFits(r, rpad)
    requires CanSeal(w, MarshalPlaintext(Plaintext(q, qpad)), qct)
    requires rct != qct && CanSeal(w, MarshalPlaintext(Plaintext(r, rpad)), rct)
    ensures var t := NewTarget(kid, publicKey);
            var config := ConfigsOf(MarshalConfigs(t.contents));
            && config.Ok?
            && var client := NewClient(kid, config.value);
            && client.Ok?
            && var (query, w1) := EncryptQuery(client.value, w, q, qpad, enc, qct);
            && query.Ok?
            && var received := ReceiveQuery(t, w1, MarshalMessage(query.value.0));
            && received.Ok? && received.value.0 == q
            && var (response, w2) := EncryptResponse(w1, received.value.1, r, rpad, nonce, rct);
            && response.Ok?
            && ReceiveResponse(w2, query.value.1, MarshalMessage(response.value)) == Ok(r)
  {
    var t := NewTarget(kid, publicKey);
    ClientFromWire(kid, publicKey);
    QueryDelivery(t, w, q, qpad, enc, qct);
    var (query, w1) := EncryptQuery(Client(t.contents, t.keyId), w, q, qpad, enc, qct);
    var qc := QueryContext(query.value.1.ctx, query.value.1.queryPlain);
    ResponseDelivery(w1, qc, r, rpad, nonce, rct, query.value.1);
  }

  lemma PlaintextErrors()
    ensures forall b: Bytes :: PlaintextOf(b).Err? ==> PlaintextOf(b).error == Malformed
  {
  }

  /** A query for another target's key is an authorization failure, not a decryption failure. */
  lemma StaleConfigIsKeyIdMismatch(t: Target, w: World, m: Message)
    requires MessageInRange(m) && m.mtype == MESSAGE_QUERY
    ensures ReceiveQuery(t, w, MarshalMessage(m)) == Err(KeyIdMismatch) <==> m.keyId != t.keyId
  {
    MessageExact(MarshalMessage(m), m);
    if |m.encrypted| > ENC_LENGTH {
      PlaintextErrors();
    }
  }
}
