/** Names, store keys and record encodings of the myaddr service. A Go string is a
    sequence of characters below 256, one per byte. */
module MyaddrRecords {
  import opened Text
  import opened Bytes
  import opened Clock
  import opened TtlStore
  import opened AsciiCase

  // ----- Names and hashes

  predicate IsLetter(c: char) {
    'a' <= c <= 'z' || 'A' <= c <= 'Z'
  }

  predicate IsLetterOrDigit(c: char) {
    IsLetter(c) || '0' <= c <= '9'
  }

  /** 6 to 40 letters, digits and hyphens, starting with a letter and not ending with a hyphen. */
  predicate ValidName(s: string) {
    && 6 <= |s| <= 40
    && IsLetter(s[0]) && IsLetterOrDigit(s[|s| - 1])
    && forall i :: 0 <= i < |s| ==> IsLetterOrDigit(s[i]) || s[i] == '-'
  }

  method IsValidName(s: string) returns (r: bool)
    ensures r <==> ValidName(s)
  {
    if |s| < 6 || |s| > 40 {
      return false;
    }
    for i := 0 to |s|
      invariant i > 0 ==> IsLetter(s[0])
      invariant forall j :: 0 <= j < i ==> IsLetterOrDigit(s[j]) || (s[j] == '-' && j < |s| - 1)
    {
      var c := s[i];
      if c >= '0' && c <= '9' && i > 0 {
      } else if c >= 'A' && c <= 'Z' {
      } else if c >= 'a' && c <= 'z' {
      } else if c == '-' && i > 0 && i < |s| - 1 {
      } else {
        return false;
      }
    }
    return true;
  }

  const DIGITS := "0123456789"

  lemma InUpper(c: char)
    ensures 'A' <= c <= 'Z' <==> c in UPPER
  {
    assert 'A' <= c <= 'Z' ==> UPPER[c as int - 'A' as int] == c;
  }

  lemma InLower(c: char)
    ensures 'a' <= c <= 'z' <==> c in LOWER
  {
    assert 'a' <= c <= 'z' ==> LOWER[c as int - 'a' as int] == c;
  }

  lemma InDigits(c: char)
    ensures '0' <= c <= '9' <==> c in DIGITS
  {
    assert '0' <= c <= '9' ==> DIGITS[c as int - '0' as int] == c;
  }

  lemma LetterMeaning(c: char)
    ensures IsLetter(c) <==> c in UPPER || c in LOWER
    ensures IsLetterOrDigit(c) <==> c in UPPER || c in LOWER || c in DIGITS
  {
    InUpper(c);
    InLower(c);
    InDigits(c);
  }

  predicate IsNameChar(c: char) {
    c in UPPER || c in LOWER || c in DIGITS || c == '-'
  }

  /** The same over the three alphabets. */
  lemma NameMeaning(s: string)
    ensures ValidName(s) <==>
            && 6 <= |s| <= 40 && (s[0] in UPPER || s[0] in LOWER) && s[|s| - 1] != '-'
            && forall i :: 0 <= i < |s| ==> IsNameChar(s[i])
  {
    forall i | 0 <= i < |s|
      ensures IsLetter(s[i]) <==> s[i] in UPPER || s[i] in LOWER
      ensures IsLetterOrDigit(s[i]) || s[i] == '-' <==> IsNameChar(s[i])
    {
      LetterMeaning(s[i]);
    }
    if s != "" {
      LetterMeaning(s[|s| - 1]);
    }
  }

  /** A stored name. */
  predicate IsOwned(n: string) {
    ValidName(n) && Lower(n) == n
  }

  lemma LoweredName(s: string)
    requires ValidName(s)
    ensures IsOwned(Lower(s))
  {
    LowerIdempotent(s);
  }

  /** The lower-case hex text of a SHA-256 digest. */
  predicate IsHash(h: string) {
    |h| == 64 && forall i :: 0 <= i < |h| ==> '0' <= h[i] <= '9' || 'a' <= h[i] <= 'f'
  }

  // ----- Store keys

  /** What a data store key stands for. */
  datatype Kind = Reg(name: string) | Ip(name: string, four: bool) | Hash(hash: string)

  const PREFIX := "myaddr:"

  /** A key without the prefix is a body and a four-character ending for registrations and
      addresses, and `hash:` and the digest otherwise. */
  function Ending(k: Kind): string
    requires !k.Hash?
  {
    if k.Reg? then ":reg" else if k.four then ":ip4" else ":ip6"
  }

  function Body(k: Kind): string {
    match k
    case Hash(h) => "hash:" + h
    case _ => k.name + Ending(k)
  }

  function Key(k: Kind): string {
    PREFIX + Body(k)
  }

  /** The store keys, spelled out. */
  lemma KeyLayout(n: string)
    ensures Key(Reg(n)) == "myaddr:" + n + ":reg"
    ensures Key(Ip(n, true)) == "myaddr:" + n + ":ip4" && Key(Ip(n, false)) == "myaddr:" + n + ":ip6"
    ensures Key(Hash(n)) == "myaddr:hash:" + n
  {
    assert "myaddr:" + "hash:" == "myaddr:hash:";
    assert Key(Hash(n)) == "myaddr:" + "hash:" + n;
  }

  predicate WellFormed(k: Kind) {
    match k
    case Reg(n) => IsOwned(n)
    case Ip(n, _) => IsOwned(n)
    case Hash(h) => IsHash(h)
  }

  lemma EndingsDiffer(a: string, x: string, b: string, y: string)
    requires |x| == |y| && (a != b || x != y)
    ensures a + x != b + y
  {
    var s, t := a + x, b + y;
    if |a| == |b| {
      assert s[..|a|] == a && t[..|a|] == b && s[|a|..] == x && t[|a|..] == y;
    } else {
      assert |s| != |t|;
    }
  }

  lemma PrefixedDiffer(p: string, a: string, b: string)
    requires a != b
    ensures p + a != p + b
  {
    assert (p + a)[|p|..] == a && (p + b)[|p|..] == b;
  }

  /** A hash key never ends in a colon and three characters. */
  lemma HashKeyDiffers(h: string, n: string, ending: string)
    requires IsHash(h) && |ending| == 4 && ending[0] == ':'
    ensures "hash:" + h != n + ending
  {
    var s, t := "hash:" + h, n + ending;
    if |s| == |t| {
      assert s[65] == h[60] && t[65] == ending[0];
    }
  }

  lemma BodiesDiffer(a: Kind, b: Kind)
    requires a != b && (a.Hash? ==> IsHash(a.hash)) && (b.Hash? ==> IsHash(b.hash))
    ensures Body(a) != Body(b)
  {
    if a.Hash? && b.Hash? {
      PrefixedDiffer("hash:", a.hash, b.hash);
    } else if a.Hash? {
      HashKeyDiffers(a.hash, b.name, Ending(b));
    } else if b.Hash? {
      HashKeyDiffers(b.hash, a.name, Ending(a));
    } else {
      assert ":reg"[1] == 'r' && ":ip4"[1] == ":ip6"[1] == 'i' && ":ip4"[3] == '4' && ":ip6"[3] == '6';
      EndingsDiffer(a.name, Ending(a), b.name, Ending(b));
    }
  }

  /** Distinct kinds have distinct store keys, whatever text stands for the name. */
  lemma KeyInjective(a: Kind, b: Kind)
    requires (a.Hash? ==> IsHash(a.hash)) && (b.Hash? ==> IsHash(b.hash))
    ensures Key(a) == Key(b) <==> a == b
  {
    if a != b {
      BodiesDiffer(a, b);
      PrefixedDiffer(PREFIX, Body(a), Body(b));
    }
  }

  function ChallengeKey(n: string): string {
    PREFIX + n
  }

  // ----- Record encodings

  function FourByteTime(b: Bytes): Time
    requires |b| == 4
  {
    Limits();
    FromBigEndianRoundTrip(b);
    FromBigEndian(b)
  }

  lemma TimeRoundTrip(x: Time)
    ensures FourByteTime(BigEndian(x, 4)) == x
  {
    Limits();
    BigEndianRoundTrip(x, 4);
  }

  function BytesOf(s: string): Bytes {
    seq(|s|, i requires 0 <= i < |s| => s[i] as int % 256)
  }

  function StringOf(b: Bytes): string {
    seq(|b|, i requires 0 <= i < |b| => b[i] as char)
  }

  predicate IsByteString(s: string) {
    forall i :: 0 <= i < |s| ==> s[i] as int < 256
  }

  lemma StringRoundTrip(s: string)
    requires IsByteString(s)
    ensures StringOf(BytesOf(s)) == s
  {
  }

  const PENDING_TTL: Time := 3600
  const REGISTRATION_TTL: Time := 120 * 86400
  const ADDRESS_TTL: Time := 90 * 86400
  const CHALLENGE_TTL: Time := 120

  datatype Registration = Registration(created: Time, updated: Time, hash: string)

  /** What the service reports as the expiry, in 32-bit arithmetic. */
  function Expires(r: Registration): Time {
    Expiry(r.updated, if r.created == r.updated then PENDING_TTL else REGISTRATION_TTL)
  }

  function MarshalRegistration(r: Registration): Bytes {
    BigEndian(r.created, 4) + BigEndian(r.updated, 4) + BytesOf(r.hash)
  }

  function UnmarshalRegistration(data: Bytes): Option<Registration> {
    if |data| < 8 then None
    else Some(Registration(FourByteTime(data[..4]), FourByteTime(data[4..8]), StringOf(data[8..])))
  }

  /** Creation, last update, then the digest's text. */
  lemma RegistrationLayout(r: Registration)
    requires IsByteString(r.hash)
    ensures var d := MarshalRegistration(r);
            && |d| == 8 + |r.hash|
            && FromBigEndian(d[..4]) == r.created && FromBigEndian(d[4..8]) == r.updated
            && forall i :: 0 <= i < |r.hash| ==> d[8 + i] == r.hash[i] as int
  {
    var d := MarshalRegistration(r);
    assert d[..4] == BigEndian(r.created, 4) && d[4..8] == BigEndian(r.updated, 4);
    TimeRoundTrip(r.created);
    TimeRoundTrip(r.updated);
  }

  lemma RegistrationRoundTrip(r: Registration)
    requires IsByteString(r.hash)
    ensures UnmarshalRegistration(MarshalRegistration(r)) == Some(r)
  {
    var d := MarshalRegistration(r);
    assert d[..4] == BigEndian(r.created, 4) && d[4..8] == BigEndian(r.updated, 4) && d[8..] == BytesOf(r.hash);
    TimeRoundTrip(r.created);
    TimeRoundTrip(r.updated);
    StringRoundTrip(r.hash);
  }

  datatype Address = Address(updated: Time, ip: Bytes)

  function MarshalAddress(a: Address): Bytes {
    BigEndian(a.updated, 4) + a.ip
  }

  function UnmarshalAddress(data: Bytes): Option<Address> {
    if |data| != 8 && |data| != 20 then None
    else Some(Address(FourByteTime(data[..4]), data[4..]))
  }

  /** The update time, then the address bytes. */
  lemma AddressLayout(a: Address)
    ensures var d := MarshalAddress(a); |d| >= 4 && FromBigEndian(d[..4]) == a.updated && d[4..] == a.ip
  {
    var d := MarshalAddress(a);
    assert d[..4] == BigEndian(a.updated, 4);
    TimeRoundTrip(a.updated);
  }

  /** Exactly the four- and sixteen-byte addresses survive. */
  lemma AddressRoundTrip(a: Address)
    ensures UnmarshalAddress(MarshalAddress(a)) == Some(a) <==> |a.ip| == 4 || |a.ip| == 16
  {
    var d := MarshalAddress(a);
    if |d| == 8 || |d| == 20 {
      assert d[..4] == BigEndian(a.updated, 4) && d[4..] == a.ip;
      TimeRoundTrip(a.updated);
    }
  }

  /** The IPv4-mapped prefix: ten zero bytes and two bytes 255. */
  predicate IsMapped(ip: Bytes) {
    |ip| == 16 && (forall i :: 0 <= i < 10 ==> ip[i] == 0) && ip[10] == 255 && ip[11] == 255
  }

  /** Go's `net.IP.To4`: the four bytes of an IPv4 or IPv4-mapped address. */
  function To4(ip: Bytes): Option<Bytes> {
    if |ip| == 4 then Some(ip)
    else if IsMapped(ip) then Some(ip[12..])
    else None
  }

  /** ip is the IPv4-mapped form of the four bytes b (section 2.5.5.2 of RFC 4291). */
  predicate MapsTo(ip: Bytes, b: Bytes) {
    |b| == 4 && ip == [0, 0, 0, 0, 0, 0, 0, 0, 0, 0, 255, 255] + b
  }

  /** An address of the IPv4 family: four bytes, or their mapped form. */
  ghost predicate IsFour(ip: Bytes) {
    |ip| == 4 || exists b :: MapsTo(ip, b)
  }

  lemma MappedBytes(ip: Bytes, b: Bytes)
    requires MapsTo(ip, b)
    ensures IsMapped(ip) && ip[12..] == b
  {
  }

  lemma To4Meaning(ip: Bytes)
    ensures |ip| == 4 ==> To4(ip) == Some(ip)
    ensures forall b :: MapsTo(ip, b) ==> To4(ip) == Some(b)
    ensures !IsFour(ip) ==> To4(ip) == None
  {
    forall b | MapsTo(ip, b)
      ensures To4(ip) == Some(b)
    {
      MappedBytes(ip, b);
    }
    if IsMapped(ip) {
      assert MapsTo(ip, ip[12..]);
    }
  }

  lemma OwnedIsByteString(n: string)
    requires IsOwned(n) || IsHash(n) || n == ""
    ensures IsByteString(n)
  {
  }
}
