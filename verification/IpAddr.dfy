/** IPv4 and IPv6 addresses as 128-bit values, their text forms, and the parser.
    IPv4 addresses are the IPv4-mapped values of section 2.5.5.2 of RFC 4291. */
module IpAddr {
  import opened Bits
  import opened Text

  const LIMIT: nat := 0x1_0000_0000_0000_0000_0000_0000_0000_0000
  const MAPPED: nat := 0xffff_0000_0000

  type Address = v: nat | v < LIMIT

  function WordLimit(n: nat): nat {
    if n == 0 then 1 else 65536 * WordLimit(n - 1)
  }

  lemma {:induction false} PowHex(n: nat)
    ensures Pow(Hex, 4 * n) == WordLimit(n)
  {
    if n == 0 {
    } else {
      PowHex(n - 1);
      var p := Pow(Hex, 4 * n - 4);
      assert Pow(Hex, 4 * n - 3) == 16 * p && Pow(Hex, 4 * n - 2) == 256 * p && Pow(Hex, 4 * n - 1) == 4096 * p;
    }
  }

  lemma Limits()
    ensures Mask(128) == LIMIT - 1 && Mask(32) == 0xffff_ffff
    ensures Pow(Hex, 32) == LIMIT && Pow(Hex, 4) == 65536 && WordLimit(8) == LIMIT
  {
    Pow2Values();
    Pow2At128();
    assert WordLimit(2) == 0x1_0000_0000 && WordLimit(4) == 0x1_0000_0000_0000_0000;
    assert WordLimit(6) == 0x1_0000_0000_0000_0000_0000_0000;
    PowHex(1);
    PowHex(8);
  }

  /** The address lies in ::ffff:0:0/96. */
  predicate Is4(v: Address) {
    AndNot(v, 0xffff_ffff) == MAPPED
  }

  lemma MappedArithmetic(v: nat, high: nat, low: nat)
    requires v == high * 0x1_0000_0000 + low && low < 0x1_0000_0000
    ensures v - low == MAPPED <==> MAPPED <= v <= MAPPED + 0xffff_ffff
  {
  }

  lemma Is4Range(v: Address)
    ensures Is4(v) <==> 0xffff_0000_0000 <= v <= 0xffff_ffff_ffff
  {
    Limits();
    Pow2Values();
    AndNotMask(v, 32);
    LowBound(v, 32);
    SplitAt(v, 32);
    Scale32(Shr(v, 32));
    MappedArithmetic(v, Shr(v, 32), Low(v, 32));
  }

  // ----- IPv4 text

  predicate Between(c: char, lo: char, hi: char) {
    lo <= c <= hi
  }

  /** 25[0-5] | 2[0-4][0-9] | 1[0-9][0-9] | [1-9][0-9] | [0-9] */
  predicate IsOctet(p: string) {
    || (|p| == 3 && p[0] == '2' && p[1] == '5' && Between(p[2], '0', '5'))
    || (|p| == 3 && p[0] == '2' && Between(p[1], '0', '4') && Between(p[2], '0', '9'))
    || (|p| == 3 && p[0] == '1' && Between(p[1], '0', '9') && Between(p[2], '0', '9'))
    || (|p| == 2 && Between(p[0], '1', '9') && Between(p[1], '0', '9'))
    || (|p| == 1 && Between(p[0], '0', '9'))
  }

  lemma OneDigit(p: string, b: Base)
    requires |p| == 1 && AllDigits(p, b)
    ensures NumeralValue(p, b) == DigitValue(p[0])
  {
    assert p[..0] == "";
  }

  lemma TwoDigits(p: string, b: Base)
    requires |p| == 2 && AllDigits(p, b)
    ensures NumeralValue(p, b) == Times(b, DigitValue(p[0])) + DigitValue(p[1])
  {
    OneDigit(p[..1], b);
  }

  lemma ThreeDigits(p: string, b: Base)
    requires |p| == 3 && AllDigits(p, b)
    ensures NumeralValue(p, b) == Times(b, Times(b, DigitValue(p[0])) + DigitValue(p[1])) + DigitValue(p[2])
  {
    TwoDigits(p[..2], b);
  }

  lemma ShortValue(p: string, b: Base)
    requires 1 <= |p| <= 3 && AllDigits(p, b)
    ensures |p| == 1 ==> NumeralValue(p, b) == DigitValue(p[0])
    ensures |p| == 2 ==> NumeralValue(p, b) == Times(b, DigitValue(p[0])) + DigitValue(p[1])
    ensures |p| == 3 ==>
              NumeralValue(p, b) == Times(b, Times(b, DigitValue(p[0])) + DigitValue(p[1])) + DigitValue(p[2])
  {
    if |p| == 1 {
      OneDigit(p, b);
    } else if |p| == 2 {
      TwoDigits(p, b);
    } else {
      ThreeDigits(p, b);
    }
  }

  lemma {:induction false} LeadingDigit(p: string)
    requires AllDigits(p, Decimal) && p != "" && p[0] != '0'
    ensures NumeralValue(p, Decimal) >= 1
  {
    if |p| == 1 {
      ShortValue(p, Decimal);
    } else {
      LeadingDigit(p[..|p| - 1]);
    }
  }

  /** More than n canonical digits: the value is at least 10^n. */
  lemma {:induction false} LongNumeral(p: string, n: nat)
    requires Canonical(p, Decimal) && |p| > n >= 1
    ensures NumeralValue(p, Decimal) >= Pow(Decimal, n)
    decreases |p|
  {
    var q := p[..|p| - 1];
    if n == 1 {
      LeadingDigit(q);
    } else {
      LongNumeral(q, n - 1);
    }
  }

  /** The octet pattern matches exactly the canonical decimals up to 255. */
  lemma OctetMeaning(p: string)
    ensures IsOctet(p) <==> Canonical(p, Decimal) && NumeralValue(p, Decimal) <= 255
  {
    if Canonical(p, Decimal) {
      if |p| <= 3 {
        ShortValue(p, Decimal);
      } else {
        LongNumeral(p, 3);
      }
    } else if IsOctet(p) {
      assert AllDigits(p, Decimal);
    }
  }

  predicate IsIPv4Parts(parts: seq<string>) {
    |parts| == 4 && forall p :: p in parts ==> IsOctet(p)
  }

  predicate IsIPv4(s: string) {
    IsIPv4Parts(Split(s, '.'))
  }

  function OctetValue(p: string): nat {
    if AllDigits(p, Decimal) then NumeralValue(p, Decimal) else 0
  }

  function FourBytes(a: nat, b: nat, c: nat, d: nat): nat {
    ((a * 256 + b) * 256 + c) * 256 + d
  }

  /** Big-endian value of four bytes. */
  function Uint32(b: seq<nat>): nat
    requires |b| == 4
  {
    FourBytes(b[0], b[1], b[2], b[3])
  }

  function OctetAt(v: Address, i: nat): nat
    requires i < 4
  {
    And(Shr(v, 24 - 8 * i), 0xff)
  }

  function Octets(v: Address): seq<nat> {
    seq(4, i requires 0 <= i < 4 => OctetAt(v, i))
  }

  function DecimalTexts(ns: seq<nat>): (ts: seq<string>)
    ensures |ts| == |ns|
  {
    seq(|ns|, i requires 0 <= i < |ns| => Numeral(ns[i], Decimal))
  }

  function DottedQuad(v: Address): string {
    Join(DecimalTexts(Octets(v)), '.')
  }

  // ----- IPv6 text

  /** [0-9a-fA-F]{1,4} */
  predicate IsHextet(p: string) {
    1 <= |p| <= 4 && AllDigits(p, Hex)
  }

  predicate HextetsIn(parts: seq<string>, i: nat, j: nat)
    requires j <= |parts|
  {
    forall k :: i <= k < j ==> IsHextet(parts[k])
  }

  predicate AllHextets(parts: seq<string>) {
    HextetsIn(parts, 0, |parts|)
  }

  /** The colon-separated pieces of a text with `::` after l groups:
      for l = 0 `:((:h){1,7}|:)`, otherwise `(h:){l}((:h){1,7-l}|:)` with l <= 7. */
  predicate GapAt(parts: seq<string>, l: nat) {
    if l == 0 then
      && |parts| >= 3 && parts[0] == parts[1] == ""
      && ((|parts| == 3 && parts[2] == "") || (|parts| <= 9 && HextetsIn(parts, 2, |parts|)))
    else
      && l <= 7 && |parts| >= l + 2 && HextetsIn(parts, 0, l) && parts[l] == ""
      && ((|parts| == l + 2 && parts[l + 1] == "") || (l <= 6 && |parts| <= 8 && HextetsIn(parts, l + 1, |parts|)))
  }

  predicate IsIPv6Parts(parts: seq<string>) {
    (|parts| == 8 && AllHextets(parts)) || exists l :: 0 <= l <= 7 && GapAt(parts, l)
  }

  predicate IsIPv6(s: string) {
    IsIPv6Parts(Split(s, ':'))
  }

  function HextetValue(p: string): nat {
    if AllDigits(p, Hex) then NumeralValue(p, Hex) else 0
  }

  function FirstEmpty(parts: seq<string>, i: nat): (n: nat)
    requires i <= |parts|
    ensures i <= n <= |parts|
    ensures forall k :: i <= k < n ==> parts[k] != ""
    ensures n < |parts| ==> parts[n] == ""
    decreases |parts| - i
  {
    if i == |parts| || parts[i] == "" then i else FirstEmpty(parts, i + 1)
  }

  /** How many pieces come before the first empty one. */
  function Leading(parts: seq<string>): (n: nat)
    ensures n <= |parts|
    ensures forall i :: 0 <= i < n ==> parts[i] != ""
    ensures n < |parts| ==> parts[n] == ""
  {
    FirstEmpty(parts, 0)
  }

  function AfterLastEmpty(parts: seq<string>, j: nat): (n: nat)
    requires j <= |parts|
    ensures n <= j
    ensures forall k :: n <= k < j ==> parts[k] != ""
    ensures n > 0 ==> parts[n - 1] == ""
  {
    if j == 0 || parts[j - 1] == "" then j else AfterLastEmpty(parts, j - 1)
  }

  /** How many pieces come after the last empty one. */
  function Trailing(parts: seq<string>): (n: nat)
    ensures n <= |parts|
    ensures forall i :: |parts| - n <= i < |parts| ==> parts[i] != ""
    ensures n < |parts| ==> parts[|parts| - n - 1] == ""
  {
    |parts| - AfterLastEmpty(parts, |parts|)
  }

  /** Word k of the eight a text denotes: leading groups, zeros, trailing groups. */
  function WordAt(parts: seq<string>, k: nat): nat
    requires k < 8
  {
    if k < Leading(parts) then HextetValue(parts[k])
    else if k >= 8 - Trailing(parts) && |parts| + k >= 8 then HextetValue(parts[|parts| + k - 8])
    else 0
  }

  function WordsOf(parts: seq<string>): (ws: seq<nat>)
    ensures |ws| == 8
  {
    seq(8, k requires 0 <= k < 8 => WordAt(parts, k))
  }

  /** Big-endian value of 16-bit words. */
  function WordsValue(ws: seq<nat>): nat {
    if ws == [] then 0 else 65536 * WordsValue(ws[..|ws| - 1]) + ws[|ws| - 1]
  }

  /** The n low 16-bit words of v, most significant first. */
  function Words(v: nat, n: nat): (ws: seq<nat>)
    ensures |ws| == n && forall i :: 0 <= i < n ==> ws[i] < 65536
    decreases n, v
  {
    if n == 0 then [] else Words(v / 65536, n - 1) + [v % 65536]
  }

  lemma {:induction false} WordsRoundTrip(v: nat, n: nat)
    requires v < WordLimit(n)
    ensures WordsValue(Words(v, n)) == v
    decreases n
  {
    if n == 0 {
    } else {
      WordsRoundTrip(v / 65536, n - 1);
      assert Words(v, n)[..n - 1] == Words(v / 65536, n - 1);
    }
  }

  lemma {:induction false} WordsValueBound(ws: seq<nat>)
    requires forall i :: 0 <= i < |ws| ==> ws[i] < 65536
    ensures WordsValue(ws) < WordLimit(|ws|)
  {
    if ws == [] {
    } else {
      WordsValueBound(ws[..|ws| - 1]);
    }
  }

  // ----- Parsing

  /** Every non-empty piece of an accepted text is a group of hex digits. */
  lemma HextetPieces(parts: seq<string>)
    requires IsIPv6Parts(parts)
    ensures forall i :: 0 <= i < |parts| && parts[i] != "" ==> IsHextet(parts[i])
  {
    if !(|parts| == 8 && AllHextets(parts)) {
      var l :| 0 <= l <= 7 && GapAt(parts, l);
    }
  }

  lemma HextetBound(p: string)
    requires IsHextet(p)
    ensures HextetValue(p) < 65536
  {
    NumeralBound(p, Hex);
    assert Pow(Hex, 2) == 256 && Pow(Hex, 4) == 65536;
  }

  lemma {:induction false} WordsAreSmall(parts: seq<string>)
    requires IsIPv6Parts(parts)
    ensures WordsValue(WordsOf(parts)) < LIMIT
  {
    var ws := WordsOf(parts);
    forall k | 0 <= k < 8
      ensures ws[k] < 65536
    {
      HextetPieces(parts);
      forall p | IsHextet(p)
        ensures HextetValue(p) < 65536
      {
        HextetBound(p);
      }
    }
    WordsValueBound(ws);
    Limits();
  }

  lemma OctetsAreSmall(parts: seq<string>)
    requires IsIPv4Parts(parts)
    ensures forall i :: 0 <= i < 4 ==> OctetValue(parts[i]) <= 255
  {
    forall i | 0 <= i < 4
      ensures OctetValue(parts[i]) <= 255
    {
      OctetMeaning(parts[i]);
    }
  }

  function V4Value(parts: seq<string>): (n: nat)
    requires |parts| == 4
  {
    Uint32(seq(4, i requires 0 <= i < 4 => OctetValue(parts[i])))
  }

  lemma MappedOr(n: nat)
    requires n < 0x1_0000_0000
    ensures Or(n, MAPPED) == n + MAPPED
  {
    Pow2Values();
    LowOfScaled(0xffff, 32);
    Scale32(0xffff);
    OrDisjoint(n, MAPPED, 32);
  }

  function Address4(s: string): Address
    requires IsIPv4(s)
  {
    OctetsAreSmall(Split(s, '.'));
    V4Value(Split(s, '.')) + MAPPED
  }

  function Address6(s: string): Address
    requires IsIPv6(s)
  {
    WordsAreSmall(Split(s, ':'));
    WordsValue(WordsOf(Split(s, ':')))
  }

  /** What a text denotes: nothing when it is neither an IPv4 nor an IPv6 address. */
  function AddressOf(s: string): Option<Address> {
    if IsIPv4(s) then Some(Address4(s))
    else if IsIPv6(s) then Some(Address6(s))
    else None
  }

  method FillOctets(octets: seq<string>) returns (n: nat)
    requires IsIPv4Parts(octets)
    ensures n == V4Value(octets) && Or(n, MAPPED) == n + MAPPED < LIMIT
  {
    OctetsAreSmall(octets);
    var buffer := new nat[4](_ => 0);
    for i := 0 to 4
      invariant forall j :: 0 <= j < i ==> buffer[j] == OctetValue(octets[j])
    {
      buffer[i] := OctetValue(octets[i]);
    }
    assert buffer[..] == seq(4, i requires 0 <= i < 4 => OctetValue(octets[i]));
    n := Uint32(buffer[..]);
    MappedOr(n);
  }

  /** Where the empty piece of `::` stands: after the leading groups, or second when there are none. */
  function GapIndex(parts: seq<string>): nat {
    if Leading(parts) == 0 then 1 else Leading(parts)
  }

  lemma LeadingIs(parts: seq<string>, n: nat)
    requires n <= |parts| && (forall i :: 0 <= i < n ==> parts[i] != "") && (n < |parts| ==> parts[n] == "")
    ensures Leading(parts) == n
  {
  }

  lemma TrailingIs(parts: seq<string>, n: nat)
    requires n <= |parts| && (forall i :: |parts| - n <= i < |parts| ==> parts[i] != "")
    requires n < |parts| ==> parts[|parts| - n - 1] == ""
    ensures Trailing(parts) == n
  {
  }

  lemma GapLeading(parts: seq<string>, l: nat)
    requires GapAt(parts, l)
    ensures Leading(parts) == l
    ensures var g := if l == 0 then 1 else l;
            if |parts| == g + 2 && parts[g + 1] == "" then Trailing(parts) == 0
            else Trailing(parts) == |parts| - g - 1
  {
    var g := if l == 0 then 1 else l;
    LeadingIs(parts, l);
    TrailingIs(parts, if |parts| == g + 2 && parts[g + 1] == "" then 0 else |parts| - g - 1);
  }

  /** An accepted text is eight groups, or leading groups, `::` and trailing groups, at most seven in all. */
  lemma GapShape(parts: seq<string>)
    requires IsIPv6Parts(parts)
    ensures || Leading(parts) == |parts| == 8
            || (&& Leading(parts) + Trailing(parts) <= 7
                && |parts| == GapIndex(parts) + 1 + (if Trailing(parts) == 0 then 1 else Trailing(parts))
                && parts[GapIndex(parts)] == "")
  {
    if !(|parts| == 8 && AllHextets(parts)) {
      var l :| 0 <= l <= 7 && GapAt(parts, l);
      GapLeading(parts, l);
    }
  }

  /** The inner loop: from the right, down to the gap at i. */
  method FillTail(hextets: seq<string>, i: nat, buffer: array<nat>)
    requires IsIPv6Parts(hextets) && i < |hextets| && i == GapIndex(hextets) && Leading(hextets) < |hextets|
    requires buffer.Length == 8 && forall k :: Leading(hextets) <= k < 8 ==> buffer[k] == 0
    modifies buffer
    ensures forall k :: 0 <= k < Leading(hextets) ==> buffer[k] == old(buffer[k])
    ensures forall k :: Leading(hextets) <= k < 8 ==> buffer[k] == WordAt(hextets, k)
  {
    GapShape(hextets);
    ghost var l, t := Leading(hextets), Trailing(hextets);
    var j, k := |hextets| - 1, 7;
    while j > i
      invariant i <= j < |hextets| && k == 7 - (|hextets| - 1 - j)
      invariant forall m :: 0 <= m < l ==> buffer[m] == old(buffer[m])
      invariant forall m :: k < m < 8 && l <= m ==> buffer[m] == WordAt(hextets, m)
      invariant forall m :: l <= m <= k ==> buffer[m] == 0
    {
      if hextets[j] != "" {
        buffer[k] := HextetValue(hextets[j]);
      }
      j, k := j - 1, k - 1;
    }
  }

  method FillWords(hextets: seq<string>, buffer: array<nat>)
    requires IsIPv6Parts(hextets)
    requires buffer.Length == 8 && forall k :: 0 <= k < 8 ==> buffer[k] == 0
    modifies buffer
    ensures buffer[..] == WordsOf(hextets)
  {
    GapShape(hextets);
    ghost var l := Leading(hextets);
    var i := 0;
    while i < |hextets|
      invariant 0 <= i <= |hextets| && i <= GapIndex(hextets)
      invariant forall k :: 0 <= k < i && k < l ==> buffer[k] == WordAt(hextets, k)
      invariant forall k :: l <= k < 8 ==> buffer[k] == 0
    {
      if hextets[i] != "" {
        buffer[i] := HextetValue(hextets[i]);
      } else if i > 0 {
        FillTail(hextets, i, buffer);
        break;
      }
      i := i + 1;
    }
    assert forall k :: 0 <= k < 8 ==> buffer[k] == WordAt(hextets, k);
  }

  /** The constructor's two buffer-filling loops; an error is `None`. */
  method ParseAddress(value: string) returns (r: Option<Address>)
    ensures r == AddressOf(value)
  {
    if IsIPv4(value) {
      var n := FillOctets(Split(value, '.'));
      r := Some(Or(n, MAPPED));
    } else if IsIPv6(value) {
      var hextets := Split(value, ':');
      var buffer := new nat[8](_ => 0);
      FillWords(hextets, buffer);
      ghost var a := Address6(value);
      r := Some(WordsValue(buffer[..]));
    } else {
      r := None;
    }
  }
}
