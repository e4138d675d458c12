/** Config lists of section 5 of RFC 9230: what the byte parser makes of a well-framed list,
    and when it gives a published config back. */
module OdohConfigs {
  import opened Bytes
  import opened OdohWire

  const KEM_X25519: U16 := 0x0020
  const KDF_SHA256: U16 := 0x0001
  const AEAD_AES128: U16 := 0x0001
  const CONFIG_VERSION: U16 := 0x0001

  datatype Contents = Contents(kem: U16, kdf: U16, aead: U16, publicKey: Bytes)

  function MarshalContents(c: Contents): Bytes {
    Put16(c.kem) + Put16(c.kdf) + Put16(c.aead) + Field(c.publicKey)
  }

  function MarshalConfig(c: Contents): Bytes {
    Put16(CONFIG_VERSION) + Field(MarshalContents(c))
  }

  function MarshalConfigs(c: Contents): Bytes {
    Field(MarshalConfig(c))
  }

  /** Bytes after the public key are ignored. */
  function ContentsOf(b: Bytes): Result<Contents> {
    if |b| < 8 then Err(Malformed)
    else
      var klen := Get16(b[6..]);
      if klen == 0 || klen > |b| - 8 then Err(Malformed)
      else Ok(Contents(Get16(b), Get16(b[2..]), Get16(b[4..]), b[8..8 + klen]))
  }

  predicate Supported(c: Contents) {
    c.kem == KEM_X25519 && c.kdf == KDF_SHA256 && c.aead == AEAD_AES128
  }

  /** The scan over the entries' bytes. */
  function Scan(b: Bytes): Result<Contents> {
    if b == [] then Err(UnsupportedSuite)
    else if |b| < 4 || Get16(b[2..]) > |b| - 4 then Err(Malformed)
    else
      var body, rest := b[4..4 + Get16(b[2..])], b[4 + Get16(b[2..])..];
      if Get16(b) != CONFIG_VERSION then Scan(rest)
      else
        match ContentsOf(body)
        case Err(e) => Err(e)
        case Ok(c) => if Supported(c) then Ok(c) else Scan(rest)
  }

  function ConfigsOf(b: Bytes): Result<Contents> {
    match LastField(b)
    case Err(e) => Err(e)
    case Ok(list) => Scan(list)
  }

  /** The parser's loop, re-slicing what remains. */
  method ParseConfigs(input: Bytes) returns (r: Result<Contents>)
    ensures r == ConfigsOf(input)
  {
    if |input| < 2 {
      return Err(Malformed);
    }
    var total := Get16(input);
    var b := input[2..];
    if total != |b| {
      return Err(Malformed);
    }
    while |b| > 0
      invariant Scan(b) == Scan(input[2..])
      decreases |b|
    {
      if |b| < 4 {
        return Err(Malformed);
      }
      ghost var whole := b;
      var version, length := Get16(b), Get16(b[2..]);
      b := b[4..];
      if length > |b| {
        return Err(Malformed);
      }
      var body := b[..length];
      b := b[length..];
      assert whole[4..4 + length] == body && whole[4 + length..] == b;
      if version != CONFIG_VERSION {
        continue;
      }
      var c := ContentsOf(body);
      if c.Err? {
        return c;
      }
      if !Supported(c.value) {
        continue;
      }
      return c;
    }
    r := Err(UnsupportedSuite);
  }

  // ----- Lists of entries

  datatype Entry = Entry(version: U16, body: Bytes)

  function EncodeEntry(e: Entry): Bytes {
    Put16(e.version) + Field(e.body)
  }

  function EncodeEntries(es: seq<Entry>): Bytes {
    if es == [] then [] else EncodeEntry(es[0]) + EncodeEntries(es[1..])
  }

  predicate Framed(es: seq<Entry>) {
    forall i :: 0 <= i < |es| ==> |es[i].body| <= MAX_FIELD
  }

  /** A version-1 entry with a supported suite. */
  predicate Offers(e: Entry, c: Contents) {
    e.version == CONFIG_VERSION && ContentsOf(e.body) == Ok(c) && Supported(c)
  }

  /** An unknown version, or a well-formed entry of another suite. */
  predicate Skippable(e: Entry) {
    e.version != CONFIG_VERSION || (ContentsOf(e.body).Ok? && !Supported(ContentsOf(e.body).value))
  }

  predicate Broken(e: Entry) {
    e.version == CONFIG_VERSION && ContentsOf(e.body).Err?
  }

  ghost predicate AllSkippable(es: seq<Entry>, n: nat)
    requires n <= |es|
  {
    forall j :: 0 <= j < n ==> Skippable(es[j])
  }

  /** The first entry that is not skippable decides. */
  ghost predicate IsSelection(es: seq<Entry>, r: Result<Contents>) {
    match r
    case Ok(c) => exists i :: 0 <= i < |es| && Offers(es[i], c) && AllSkippable(es, i)
    case Err(e) =>
      || (e == Malformed && exists i :: 0 <= i < |es| && Broken(es[i]) && AllSkippable(es, i))
      || (e == UnsupportedSuite && AllSkippable(es, |es|))
  }

  lemma ScanEntry(e: Entry, rest: Bytes)
    requires |e.body| <= MAX_FIELD
    ensures var b := EncodeEntry(e) + rest;
            && |b| >= 4 && Get16(b) == e.version && Get16(b[2..]) == |e.body|
            && b[4..4 + |e.body|] == e.body && b[4 + |e.body|..] == rest
  {
    var b := EncodeEntry(e) + rest;
    assert b == Put16(e.version) + (Field(e.body) + rest);
    Get16Put16(e.version, Field(e.body) + rest);
    TakeFieldExact(b[2..], e.body, rest);
    assert b[4..4 + |e.body|] == b[2..][2..2 + |e.body|] && b[4 + |e.body|..] == b[2..][2 + |e.body|..];
  }

  lemma ContentsErrors(b: Bytes)
    ensures ContentsOf(b).Err? ==> ContentsOf(b).error == Malformed
  {
  }

  /** Scanning past one framed entry. */
  lemma ScanStep(e: Entry, rest: Bytes)
    requires |e.body| <= MAX_FIELD
    ensures Scan(EncodeEntry(e) + rest) ==
            if Skippable(e) then Scan(rest) else if Broken(e) then Err(Malformed) else ContentsOf(e.body)
  {
    ScanEntry(e, rest);
    ContentsErrors(e.body);
  }

  lemma ShiftSkippable(es: seq<Entry>, n: nat)
    requires es != [] && Skippable(es[0]) && n < |es| && AllSkippable(es[1..], n)
    ensures AllSkippable(es, n + 1)
  {
    forall j | 0 <= j < n + 1
      ensures Skippable(es[j])
    {
      if j > 0 {
        assert es[j] == es[1..][j - 1];
      }
    }
  }

  lemma SelectionAfterSkip(es: seq<Entry>, r: Result<Contents>)
    requires es != [] && Skippable(es[0]) && IsSelection(es[1..], r)
    ensures IsSelection(es, r)
  {
    match r
    case Ok(c) =>
      var i :| 0 <= i < |es[1..]| && Offers(es[1..][i], c) && AllSkippable(es[1..], i);
      ShiftSkippable(es, i);
      assert Offers(es[i + 1], c);
    case Err(e) =>
      if e == Malformed {
        var i :| 0 <= i < |es[1..]| && Broken(es[1..][i]) && AllSkippable(es[1..], i);
        ShiftSkippable(es, i);
        assert Broken(es[i + 1]);
      } else {
        ShiftSkippable(es, |es| - 1);
      }
  }

  lemma {:induction false} ScanSelects(es: seq<Entry>)
    requires Framed(es)
    ensures IsSelection(es, Scan(EncodeEntries(es)))
  {
    if es == [] {
      assert AllSkippable(es, 0);
    } else {
      ScanStep(es[0], EncodeEntries(es[1..]));
      if Skippable(es[0]) {
        ScanSelects(es[1..]);
        SelectionAfterSkip(es, Scan(EncodeEntries(es)));
      } else {
        assert AllSkippable(es, 0);
        assert Broken(es[0]) || Offers(es[0], ContentsOf(es[0].body).value);
      }
    }
  }

  /** On every well-framed list the parser returns the first supported version-1 entry,
      unless an earlier version-1 entry is malformed. */
  lemma ParseSelectsFirstSupported(es: seq<Entry>)
    requires Framed(es) && |EncodeEntries(es)| <= MAX_FIELD
    ensures IsSelection(es, ConfigsOf(Field(EncodeEntries(es))))
  {
    LastFieldExact(Field(EncodeEntries(es)), EncodeEntries(es));
    ScanSelects(es);
  }

  /** What follows an entry matters only through its scan. */
  lemma ScanBehind(e: Entry, a: Bytes, b: Bytes)
    requires |e.body| <= MAX_FIELD && Scan(a) == Scan(b)
    ensures Scan(EncodeEntry(e) + a) == Scan(EncodeEntry(e) + b)
  {
    ScanStep(e, a);
    ScanStep(e, b);
  }

  lemma EncodeFirst(es: seq<Entry>, rest: seq<Entry>)
    requires es != []
    ensures EncodeEntries(es + rest) == EncodeEntry(es[0]) + EncodeEntries(es[1..] + rest)
  {
    assert (es + rest)[1..] == es[1..] + rest;
  }

  lemma {:induction false} ScanIgnores(a: seq<Entry>, e: Entry, b: seq<Entry>)
    requires Framed(a) && |e.body| <= MAX_FIELD && Skippable(e)
    ensures Scan(EncodeEntries(a + ([e] + b))) == Scan(EncodeEntries(a + b))
  {
    if a == [] {
      assert [] + ([e] + b) == [e] + b && [] + b == b && ([e] + b)[1..] == b;
      ScanStep(e, EncodeEntries(b));
    } else {
      ScanIgnores(a[1..], e, b);
      EncodeFirst(a, [e] + b);
      EncodeFirst(a, b);
      ScanBehind(a[0], EncodeEntries(a[1..] + ([e] + b)), EncodeEntries(a[1..] + b));
    }
  }

  lemma {:induction false} EncodeConcat(a: seq<Entry>, b: seq<Entry>)
    ensures EncodeEntries(a + b) == EncodeEntries(a) + EncodeEntries(b)
  {
    if a == [] {
      assert a + b == b;
    } else {
      assert (a + b)[1..] == a[1..] + b;
      EncodeConcat(a[1..], b);
    }
  }

  lemma ListParses(list: Bytes)
    requires |list| <= MAX_FIELD
    ensures ConfigsOf(Field(list)) == Scan(list)
  {
    LastFieldExact(Field(list), list);
  }

  lemma LessIsShorter(a: seq<Entry>, e: Entry, b: seq<Entry>)
    ensures |EncodeEntries(a + b)| <= |EncodeEntries(a + [e] + b)|
  {
    EncodeConcat(a + [e], b);
    EncodeConcat(a, [e]);
    EncodeConcat(a, b);
  }

  lemma EncodingsScanAlike(a: seq<Entry>, e: Entry, b: seq<Entry>, es: seq<Entry>)
    requires Framed(a) && |e.body| <= MAX_FIELD && Skippable(e) && es == a + [e] + b
    ensures Scan(EncodeEntries(es)) == Scan(EncodeEntries(a + b))
  {
    assert es == a + ([e] + b);
    ScanIgnores(a, e, b);
  }

  /** Within the length limit, a skippable entry anywhere changes nothing. */
  lemma SkippableEntriesAreIgnored(a: seq<Entry>, e: Entry, b: seq<Entry>)
    requires Framed(a) && |e.body| <= MAX_FIELD && Skippable(e) && |EncodeEntries(a + [e] + b)| <= MAX_FIELD
    ensures ConfigsOf(Field(EncodeEntries(a + [e] + b))) == ConfigsOf(Field(EncodeEntries(a + b)))
  {
    LessIsShorter(a, e, b);
    ListParses(EncodeEntries(a + [e] + b));
    ListParses(EncodeEntries(a + b));
    EncodingsScanAlike(a, e, b, a + [e] + b);
  }

  // ----- The published form

  lemma ContentsLength(c: Contents)
    ensures |MarshalContents(c)| == 8 + |c.publicKey| && |MarshalConfig(c)| == 12 + |c.publicKey|
  {
  }

  lemma ContentsLayout(c: Contents)
    requires Supported(c) && |c.publicKey| <= 65535
    ensures MarshalContents(c) ==
            [0, 0x20, 0, 1, 0, 1] + [|c.publicKey| / 0x100, |c.publicKey| % 0x100] + c.publicKey
  {
    BigEndianBytes(0x20);
    BigEndianBytes(1);
    assert Put16(c.kem) == [0, 0x20] && Put16(c.kdf) == [0, 1] && Put16(c.aead) == [0, 1];
    FieldLayout(c.publicKey);
  }

  lemma ConfigLayout(c: Contents, body: Bytes)
    requires body == MarshalContents(c) && |body| <= 65535
    ensures MarshalConfig(c) == [0, 1] + [|body| / 0x100, |body| % 0x100] + body
  {
    BigEndianBytes(1);
    FieldLayout(body);
  }

  /** A published config of a supported suite, byte by byte: the list's length, version 1, the
      config's length, the three suite identifiers 0x0020, 0x0001 and 0x0001, and the key. */
  lemma ConfigsLayout(c: Contents)
    requires Supported(c) && |c.publicKey| <= 65523
    ensures var n := |c.publicKey|;
            MarshalConfigs(c) ==
            [(n + 12) / 0x100, (n + 12) % 0x100] + [0, 1] + [(n + 8) / 0x100, (n + 8) % 0x100]
            + [0, 0x20, 0, 1, 0, 1] + [n / 0x100, n % 0x100] + c.publicKey
  {
    ContentsLength(c);
    ContentsLayout(c);
    ConfigLayout(c, MarshalContents(c));
    FieldLayout(MarshalConfig(c));
  }

  lemma ContentsRoundTrip(c: Contents)
    ensures |c.publicKey| <= MAX_FIELD ==>
              ContentsOf(MarshalContents(c)) == if c.publicKey == [] then Err(Malformed) else Ok(c)
  {
    if |c.publicKey| <= MAX_FIELD {
      var b := MarshalContents(c);
      var b2 := Put16(c.kdf) + (Put16(c.aead) + Field(c.publicKey));
      var b4 := Put16(c.aead) + Field(c.publicKey);
      assert b == Put16(c.kem) + b2;
      Get16Put16(c.kem, b2);
      Get16Put16(c.kdf, b4);
      Get16Put16(c.aead, Field(c.publicKey));
      Get16Put16(|c.publicKey|, c.publicKey);
      assert b[2..] == b2 && b[4..] == b4 && b[6..] == Field(c.publicKey);
      assert Field(c.publicKey) == Put16(|c.publicKey|) + c.publicKey;
      assert |b| == 8 + |c.publicKey| && b[8..8 + |c.publicKey|] == c.publicKey;
    }
  }

  lemma NumberAt(b: Bytes, i: nat)
    requires i + 2 <= |b|
    ensures b[i..i + 2] == Put16(Get16(b[i..]))
  {
    Put16Get16(b[i..]);
  }

  lemma FourNumbers(b: Bytes)
    requires |b| >= 8
    ensures b[..8] == Put16(Get16(b)) + Put16(Get16(b[2..])) + Put16(Get16(b[4..])) + Put16(Get16(b[6..]))
  {
    assert b[0..] == b;
    NumberAt(b, 0);
    NumberAt(b, 2);
    NumberAt(b, 4);
    NumberAt(b, 6);
    assert b[..8] == b[0..2] + b[2..4] + b[4..6] + b[6..8];
  }

  lemma ContentsPrefix(b: Bytes, c: Contents)
    requires ContentsOf(b) == Ok(c)
    ensures 1 <= |c.publicKey| <= MAX_FIELD && MarshalContents(c) == b[..8 + |c.publicKey|]
  {
    FourNumbers(b);
    assert MarshalContents(c) == b[..8] + c.publicKey;
    assert b[..8 + |c.publicKey|] == b[..8] + b[8..8 + |c.publicKey|];
  }

  lemma ContentsIgnoresRest(b: Bytes, rest: Bytes)
    requires ContentsOf(b).Ok?
    ensures ContentsOf(b + rest) == ContentsOf(b)
  {
    assert (b + rest)[..2] == b[..2] && (b + rest)[2..][..2] == b[2..][..2];
    assert (b + rest)[4..][..2] == b[4..][..2] && (b + rest)[6..][..2] == b[6..][..2];
    var n := 8 + Get16(b[6..]);
    assert (b + rest)[8..n] == b[8..n];
  }

  /** A config's contents are read exactly from the bytes that start with their encoding. */
  lemma ContentsExact(b: Bytes, c: Contents)
    ensures ContentsOf(b) == Ok(c) <==> 1 <= |c.publicKey| <= 65535 && MarshalContents(c) <= b
  {
    if ContentsOf(b) == Ok(c) {
      ContentsPrefix(b, c);
    }
    if 1 <= |c.publicKey| <= 65535 && MarshalContents(c) <= b {
      var n := |MarshalContents(c)|;
      ContentsRoundTrip(c);
      ContentsIgnoresRest(MarshalContents(c), b[n..]);
      assert b == MarshalContents(c) + b[n..];
    }
  }

  /** Publishing and parsing gives the config back exactly for supported suites and keys of
      1 to 65523 bytes. */
  lemma ConfigsRoundTrip(c: Contents)
    ensures ConfigsOf(MarshalConfigs(c)) == Ok(c) <==> Supported(c) && 1 <= |c.publicKey| <= 65523
  {
    var cfg, contents := MarshalConfig(c), MarshalContents(c);
    ContentsLength(c);
    LastFieldExact(Field(cfg), cfg);
    if |c.publicKey| <= 65523 {
      ContentsRoundTrip(c);
      var e := Entry(CONFIG_VERSION, contents);
      assert EncodeEntry(e) + [] == cfg;
      ScanStep(e, []);
    }
  }
}
