/** Address ranges: CIDR parsing, printing, containment, and exactly when printing a
    range and parsing the text gives the range back. */
module IpRange {
  import opened Bits
  import opened Text
  import opened IpAddr
  import opened AddrText
  import opened AddrGrammar

  datatype Range = Range(start: Address, end: Address)

  datatype Query = Single(address: Address) | Span(range: Range)

  predicate Holds(r: Range, a: Address) {
    r.start <= a <= r.end
  }

  predicate Contains(r: Range, q: Query) {
    match q
    case Single(a) => Holds(r, a)
    case Span(s) => Holds(r, s.start) && Holds(r, s.end)
  }

  /** A range contains an address between its two ends, and another range exactly when it
      contains every address of it. */
  lemma ContainsMeaning(r: Range, s: Range, a: Address)
    ensures Contains(r, Single(a)) <==> r.start <= a <= r.end
    ensures s.start <= s.end ==>
              (Contains(r, Span(s)) <==> forall b :: Contains(s, Single(b)) ==> Contains(r, Single(b)))
  {
    if forall b :: Contains(s, Single(b)) ==> Contains(r, Single(b)) {
      assert Contains(s, Single(s.start)) ==> Contains(r, Single(s.start));
      assert Contains(s, Single(s.end)) ==> Contains(r, Single(s.end));
    }
  }

  // ----- Construction

  /** 3[0-2] | [1-2][0-9] | [0-9] */
  predicate IsPrefix4(p: string) {
    || (|p| == 2 && p[0] == '3' && Between(p[1], '0', '2'))
    || (|p| == 2 && Between(p[0], '1', '2') && Between(p[1], '0', '9'))
    || (|p| == 1 && Between(p[0], '0', '9'))
  }

  /** 12[0-8] | 1[0-1][0-9] | [1-9][0-9] | [0-9] */
  predicate IsPrefix6(p: string) {
    || (|p| == 3 && p[0] == '1' && p[1] == '2' && Between(p[2], '0', '8'))
    || (|p| == 3 && p[0] == '1' && Between(p[1], '0', '1') && Between(p[2], '0', '9'))
    || (|p| == 2 && Between(p[0], '1', '9') && Between(p[1], '0', '9'))
    || (|p| == 1 && Between(p[0], '0', '9'))
  }

  lemma PrefixMeaning(p: string)
    ensures IsPrefix4(p) <==> Canonical(p, Decimal) && NumeralValue(p, Decimal) <= 32
    ensures IsPrefix6(p) <==> Canonical(p, Decimal) && NumeralValue(p, Decimal) <= 128
  {
    if Canonical(p, Decimal) {
      if |p| <= 3 {
        ShortValue(p, Decimal);
      } else {
        LongNumeral(p, 3);
        assert Pow(Decimal, 1) == 10 && Pow(Decimal, 2) == 100;
      }
    } else if IsPrefix4(p) || IsPrefix6(p) {
      assert AllDigits(p, Decimal);
    }
  }

  /** A family's all-ones host mask and its width. */
  function AllOnes(four: bool): nat {
    if four then 0xffff_ffff else LIMIT - 1
  }

  function Width(four: bool): nat {
    if four then 32 else 128
  }

  lemma HostBits(four: bool, prefix: nat)
    requires prefix <= Width(four)
    ensures Shr(AllOnes(four), prefix) == Mask(Width(four) - prefix)
  {
    Limits();
    ShrMask(Width(four), prefix);
  }

  lemma {:induction false} RoundUpBound(a: nat, k: nat, n: nat)
    requires k <= n && a < Pow2(n)
    ensures a - Low(a, k) + Mask(k) < Pow2(n)
    decreases k
  {
    LowBound(a, k);
    if k == 0 {
    } else {
      RoundUpBound(a / 2, k - 1, n - 1);
    }
  }

  lemma BelowLimit(a: Address, k: nat)
    requires k <= 128
    ensures Low(a, k) <= a && a - Low(a, k) + Mask(k) < LIMIT
  {
    Pow2At128();
    LowBound(a, k);
    RoundUpBound(a, k, 128);
  }

  lemma BlockAround(a: Address, k: nat)
    requires k <= 128
    ensures IsBlock(AndNot(a, Mask(k)), Or(a, Mask(k)), k)
    ensures AndNot(a, Mask(k)) == a - Low(a, k) <= a <= Or(a, Mask(k)) < LIMIT
  {
    RoundingMakesBlock(a, k);
    AndNotMask(a, k);
    OrMask(a, k);
    BelowLimit(a, k);
  }

  /** `ip & ~hostBits` to `ip | hostBits`, with hostBits the family's all-ones value
      shifted right by the prefix length. */
  function Around(a: Address, four: bool, prefix: nat): (r: Range)
    requires prefix <= Width(four)
    ensures IsBlock(r.start, r.end, Width(four) - prefix) && Holds(r, a)
    ensures r.start == a - Low(a, Width(four) - prefix)
  {
    HostBits(four, prefix);
    BlockAround(a, Width(four) - prefix);
    Range(AndNot(a, Shr(AllOnes(four), prefix)), Or(a, Shr(AllOnes(four), prefix)))
  }

  /** The one-argument constructor; an error is `None`. */
  function RangeOf(s: string): Option<Range> {
    var parts := Split(s, '/');
    if |parts| != 2 || AddressOf(parts[0]).None? then None
    else if IsIPv4(parts[0]) && IsPrefix4(parts[1]) then
      PrefixMeaning(parts[1]);
      Some(Around(AddressOf(parts[0]).value, true, OctetValue(parts[1])))
    else if IsIPv6(parts[0]) && IsPrefix6(parts[1]) then
      PrefixMeaning(parts[1]);
      Some(Around(AddressOf(parts[0]).value, false, OctetValue(parts[1])))
    else None
  }

  /** The two-argument constructor. */
  function RangeOfBounds(start: Address, end: Address): Option<Range> {
    if start > end then None else Some(Range(start, end))
  }

  /** `toRange`: a prefix length that is negative or too long for the family is an error. */
  function ToRange(a: Address, prefixLen: int): Option<Range> {
    if prefixLen < 0 || prefixLen > Width(Is4(a)) then None
    else Some(Around(a, Is4(a), prefixLen))
  }

  // ----- Printing

  function Integer(n: int): string {
    if n < 0 then "-" + Numeral(-n, Decimal) else Numeral(n, Decimal)
  }

  /** Some k with end = start XOR (2^k - 1). */
  predicate IsMaskApart(r: Range) {
    var m := Xor(r.start, r.end);
    And(m + 1, m) == 0
  }

  function RangeText(r: Range, short6: bool): string {
    if !IsMaskApart(r) then
      var force6 := !Is4(r.start) || !Is4(r.end);
      ToText(r.start, short6, force6) + " - " + ToText(r.end, short6, force6)
    else
      var prefix := 128 - BitLength(Xor(r.start, r.end));
      ToText(r.start, short6, false) + "/" + Integer(if Is4(r.start) then prefix - 96 else prefix)
  }

  lemma EightBits(m: nat)
    requires m >= 0xff
    ensures BitLength(m) >= 8
  {
    Pow2Values();
    assert Pow2(7) == 128;
    BitLengthBound(m, 7);
  }

  /** The two shift loops count the bits of the host mask. */
  method ComputePrefixLength(mask: nat) returns (prefixLength: int)
    ensures prefixLength == 128 - BitLength(mask)
  {
    var hostBits := mask;
    prefixLength := 128;
    while hostBits >= 0xff
      invariant prefixLength == 128 - BitLength(mask) + BitLength(hostBits)
      decreases hostBits
    {
      EightBits(hostBits);
      ByteShift(hostBits);
      BitLengthShift(hostBits, 8);
      hostBits := Shr(hostBits, 8);
      prefixLength := prefixLength - 8;
    }
    while hostBits != 0
      invariant prefixLength == 128 - BitLength(mask) + BitLength(hostBits)
      decreases hostBits
    {
      assert Shr(hostBits, 1) == hostBits / 2;
      hostBits := Shr(hostBits, 1);
      prefixLength := prefixLength - 1;
    }
  }

  method FormatRange(r: Range, short6: bool) returns (s: string)
    ensures s == RangeText(r, short6)
  {
    var hostBits := Xor(r.start, r.end);
    if And(hostBits + 1, hostBits) != 0 {
      var force6 := !Is4(r.start) || !Is4(r.end);
      return ToText(r.start, short6, force6) + " - " + ToText(r.end, short6, force6);
    }
    var prefixLength := ComputePrefixLength(hostBits);
    s := ToText(r.start, short6, false) + "/" + Integer(if Is4(r.start) then prefixLength - 96 else prefixLength);
  }

  // ----- Round trip

  /** The range is an aligned block: checkable from its two ends. */
  predicate IsCidr(r: Range) {
    IsMaskApart(r) && And(r.start, Xor(r.start, r.end)) == 0
  }

  lemma {:induction false} XorBound(a: nat, b: nat, k: nat)
    requires a < Pow2(k) && b < Pow2(k)
    ensures Xor(a, b) < Pow2(k)
    decreases k
  {
    if k == 0 {
    } else {
      XorBound(a / 2, b / 2, k - 1);
    }
  }

  lemma {:induction false} XorMask(a: nat, k: nat)
    requires Low(a, k) == 0
    ensures Xor(a, Mask(k)) == a + Mask(k)
    decreases k, a
  {
    if k > 0 {
      assert Mask(k) / 2 == Mask(k - 1);
      XorMask(a / 2, k - 1);
    } else if a > 0 {
      XorMask(a / 2, 0);
    } else {
    }
  }

  lemma XorWidth(r: Range)
    ensures BitLength(Xor(r.start, r.end)) <= 128
  {
    Pow2At128();
    XorBound(r.start, r.end, 128);
    BitLengthBound(Xor(r.start, r.end), 128);
  }

  lemma MaskApart(r: Range, m: nat, k: nat)
    requires m == Xor(r.start, r.end) && k == BitLength(m)
    ensures k <= 128
    ensures IsMaskApart(r) <==> m == Mask(k)
  {
    XorWidth(r);
    MaskTest(m);
  }

  /** `IsCidr` says: some aligned block of 2^k addresses, k the bit length of the xor. */
  lemma CidrMeaning(r: Range, m: nat, k: nat)
    requires m == Xor(r.start, r.end) && k == BitLength(m)
    ensures IsMaskApart(r) ==> (IsCidr(r) <==> Low(r.start, k) == 0)
    ensures IsCidr(r) <==> IsBlock(r.start, r.end, k)
  {
    MaskApart(r, m, k);
    if IsMaskApart(r) {
      AndIsLow(r.start, k);
      if IsCidr(r) {
        XorInverse(r.start, r.end);
        XorMask(r.start, k);
      }
    } else if IsBlock(r.start, r.end, k) {
      XorOfBlock(r.start, k);
    }
  }

  lemma BlockIsCidr(r: Range, k: nat)
    requires IsBlock(r.start, r.end, k)
    ensures IsCidr(r) && BitLength(Xor(r.start, r.end)) == k
  {
    XorOfBlock(r.start, k);
    BitLengthOfMask(k);
    MaskTest(Mask(k));
    AndIsLow(r.start, k);
  }

  lemma ParsedBlock(s: string) returns (k: nat)
    requires RangeOf(s).Some?
    ensures k <= 128 && IsBlock(RangeOf(s).value.start, RangeOf(s).value.end, k)
  {
    var parts := Split(s, '/');
    PrefixMeaning(parts[1]);
    k := Width(IsIPv4(parts[0]) && IsPrefix4(parts[1])) - OctetValue(parts[1]);
  }

  /** Parsing CIDR notation always gives an aligned block. */
  lemma ParsedIsCidr(s: string)
    requires RangeOf(s).Some?
    ensures IsCidr(RangeOf(s).value)
  {
    var k := ParsedBlock(s);
    BlockIsCidr(RangeOf(s).value, k);
  }

  lemma AroundIsCidr(a: Address, four: bool, prefixLen: nat, size: nat)
    requires prefixLen <= Width(four) && size == Pow2(Width(four) - prefixLen)
    ensures var r := Around(a, four, prefixLen);
            IsCidr(r) && r.start <= a <= r.end && r.start % size == 0 && r.end == r.start + size - 1
  {
    var r, k := Around(a, four, prefixLen), Width(four) - prefixLen;
    BlockIsCidr(r, k);
    LowIsRemainder(r.start, k);
  }

  /** `toRange` succeeds exactly within the family's width, with an aligned block around the address. */
  lemma ToRangeIsCidr(a: Address, prefixLen: int)
    ensures var width := if 0xffff_0000_0000 <= a <= 0xffff_ffff_ffff then 32 else 128;
            && (ToRange(a, prefixLen).Some? <==> 0 <= prefixLen <= width)
            && (ToRange(a, prefixLen).Some? ==>
              var r, size := ToRange(a, prefixLen).value, Pow2(width - prefixLen);
              IsCidr(r) && r.start <= a <= r.end && r.start % size == 0 && r.end == r.start + size - 1)
  {
    Is4Range(a);
    if ToRange(a, prefixLen).Some? {
      AroundIsCidr(a, Is4(a), prefixLen, Pow2(Width(Is4(a)) - prefixLen));
    }
  }

  lemma MappedHigh(a: Address)
    requires Is4(a)
    ensures Shr(a, 32) == 0xffff
  {
    Is4Range(a);
    Pow2Values();
    SplitAt(a, 32);
    LowBound(a, 32);
    Scale32(Shr(a, 32));
  }

  /** An IPv4-mapped address has an odd bit 32, so no block of more than 2^32 starts there. */
  lemma MappedBlock(a: Address, k: nat)
    requires Is4(a) && Low(a, k) == 0
    ensures k <= 32
  {
    if k > 32 {
      LowMonotone(a, 33, k);
      LowSucc(a, 32);
      MappedHigh(a);
      Scale32(1);
    }
  }

  /** The text before the slash: parses back, and says which family it is. */
  lemma AddressTextShape(a: Address, short6: bool, force6: bool)
    ensures var t := ToText(a, short6, force6);
            && AddressOf(t) == Some(a) && Free(t, '/')
            && (Is4(a) && !force6 ==> IsIPv4(t))
            && (!(Is4(a) && !force6) ==> !IsIPv4(t) && IsIPv6(t))
  {
    TextRoundTrip(a, short6, force6);
    if Is4(a) && !force6 {
      QuadRoundTrip(a);
    } else {
      Text6Shape(a, short6);
    }
  }

  lemma SplitPrefix(t: string, p: string)
    requires Free(t, '/') && Free(p, '/')
    ensures Split(t + "/" + p, '/') == [t, p]
  {
    assert t + "/" + p == t + ['/'] + p;
    SplitAtSeparator(t, p, '/');
    SplitFree(t, '/');
    SplitFree(p, '/');
  }

  lemma IntegerShape(n: int)
    ensures Free(Integer(n), '/')
    ensures n < 0 ==> !IsPrefix4(Integer(n)) && !IsPrefix6(Integer(n))
    ensures n >= 0 ==> (IsPrefix4(Integer(n)) <==> n <= 32) && (IsPrefix6(Integer(n)) <==> n <= 128)
    ensures n >= 0 ==> OctetValue(Integer(n)) == n
  {
    var m := if n < 0 then -n else n;
    var d := Numeral(m, Decimal);
    assert AllDigits(d, Decimal);
    if n >= 0 {
      NumeralRoundTrip(n, Decimal);
      NumeralCanonical(n, Decimal);
      PrefixMeaning(Integer(n));
    } else {
      assert Integer(n)[0] == '-';
    }
  }

  lemma CidrTextForm(r: Range, short6: bool, m: nat, k: nat)
    requires IsMaskApart(r) && m == Xor(r.start, r.end) && k == BitLength(m)
    ensures k <= 128 && RangeText(r, short6) == ToText(r.start, short6, false) + "/" + Integer(Width(Is4(r.start)) - k)
  {
    MaskApart(r, m, k);
  }

  lemma CidrTextParts(r: Range, short6: bool, t: string, n: int)
    requires t == ToText(r.start, short6, false)
    ensures Split(t + "/" + Integer(n), '/') == [t, Integer(n)]
  {
    AddressTextShape(r.start, short6, false);
    IntegerShape(n);
    SplitPrefix(t, Integer(n));
  }

  lemma FourNotSix(t: string)
    requires IsIPv4(t)
    ensures !IsIPv6(t)
  {
    var parts := Split(t, '.');
    forall i | 0 <= i < 4
      ensures Free(parts[i], ':')
    {
      assert parts[i] in parts;
    }
    JoinSplit(t, '.');
    JoinFree(parts, '.', ':');
    SplitFree(t, ':');
  }

  /** What an address text and a prefix text denote together. */
  lemma ParsePair(s: string, t: string, p: string, n: int, a: Address, four: bool)
    requires Split(s, '/') == [t, p] && AddressOf(t) == Some(a)
    requires if four then IsIPv4(t) else !IsIPv4(t) && IsIPv6(t)
    requires if n < 0 then !IsPrefix4(p) && !IsPrefix6(p)
             else (IsPrefix4(p) <==> n <= 32) && (IsPrefix6(p) <==> n <= 128) && OctetValue(p) == n
    ensures RangeOf(s) == if 0 <= n <= Width(four) then Some(Around(a, four, n)) else None
  {
    if four {
      FourNotSix(t);
    }
  }

  lemma PairOfInteger(s: string, t: string, n: int, a: Address, four: bool)
    requires Split(s, '/') == [t, Integer(n)] && AddressOf(t) == Some(a)
    requires if four then IsIPv4(t) else !IsIPv4(t) && IsIPv6(t)
    ensures RangeOf(s) == if 0 <= n <= Width(four) then Some(Around(a, four, n)) else None
  {
    IntegerShape(n);
    ParsePair(s, t, Integer(n), n, a, four);
  }

  /** No address text has a slash in it. */
  lemma AddressIsSlashFree(t: string)
    requires AddressOf(t).Some?
    ensures Free(t, '/')
  {
    var c := if IsIPv4(t) then '.' else ':';
    var parts := Split(t, c);
    if !IsIPv4(t) {
      HextetPieces(parts);
    }
    forall p | p in parts
      ensures Free(p, '/')
    {
      var i :| 0 <= i < |parts| && parts[i] == p;
    }
    JoinFree(parts, c, '/');
    JoinSplit(t, c);
  }

  /** r is the aligned block around the address t denotes that leaves n bits of the family's width fixed. */
  ghost predicate Denotes(t: string, n: nat, r: Range) {
    && AddressOf(t).Some? && n <= (if IsIPv4(t) then 32 else 128)
    && r.start <= AddressOf(t).value <= r.end
    && var size := Pow2((if IsIPv4(t) then 32 else 128) - n);
       r.start % size == 0 && r.end == r.start + size - 1
  }

  /** Only one block of a size holds an address. */
  lemma BlockIsUnique(a: Address, r: Range, q: Range, k: nat)
    requires IsBlock(r.start, r.end, k) && IsBlock(q.start, q.end, k) && Holds(r, a) && Holds(q, a)
    ensures r == q
  {
    NestedOrDisjoint(r.start, q.start, k, k);
  }

  lemma AroundMeaning(t: string, n: nat, a: Address, r: Range)
    requires AddressOf(t) == Some(a) && n <= Width(IsIPv4(t))
    ensures Around(a, IsIPv4(t), n) == r <==> Denotes(t, n, r)
  {
    var k := Width(IsIPv4(t)) - n;
    var q := Around(a, IsIPv4(t), n);
    LowIsRemainder(r.start, k);
    LowIsRemainder(q.start, k);
    if Denotes(t, n, r) {
      BlockIsUnique(a, r, q, k);
    }
  }

  lemma ParseCidr(t: string, n: nat)
    requires AddressOf(t).Some?
    ensures RangeOf(t + "/" + Numeral(n, Decimal)) ==
              if n <= Width(IsIPv4(t)) then Some(Around(AddressOf(t).value, IsIPv4(t), n)) else None
  {
    AddressIsSlashFree(t);
    IntegerShape(n);
    SplitPrefix(t, Integer(n));
    PairOfInteger(t + "/" + Integer(n), t, n, AddressOf(t).value, IsIPv4(t));
  }

  lemma JoinPair(ts: seq<string>)
    requires |ts| == 2
    ensures Join(ts, '/') == ts[0] + "/" + ts[1]
  {
    assert Join(ts[1..], '/') == ts[1];
  }

  lemma CidrPieces(s: string) returns (t: string, n: nat)
    requires RangeOf(s).Some?
    ensures AddressOf(t).Some? && s == t + "/" + Numeral(n, Decimal) && n <= Width(IsIPv4(t))
  {
    var parts := Split(s, '/');
    JoinSplit(s, '/');
    JoinPair(parts);
    t := parts[0];
    if IsIPv4(t) {
      FourNotSix(t);
    }
    PrefixMeaning(parts[1]);
    CanonicalNumeral(parts[1]);
    n := NumeralValue(parts[1], Decimal);
  }

  /** Which texts are CIDR notation, and the range of each: an address text, a slash and a
      prefix length within the family's width denote the aligned block around the address. */
  lemma CidrGrammar(s: string, r: Range)
    ensures RangeOf(s) == Some(r) <==> exists t, n: nat :: s == t + "/" + Numeral(n, Decimal) && Denotes(t, n, r)
  {
    if RangeOf(s) == Some(r) {
      var t, n := CidrPieces(s);
      ParseCidr(t, n);
      AroundMeaning(t, n, AddressOf(t).value, r);
    }
    forall t, n: nat | s == t + "/" + Numeral(n, Decimal) && Denotes(t, n, r)
      ensures RangeOf(s) == Some(r)
    {
      ParseCidr(t, n);
      AroundMeaning(t, n, AddressOf(t).value, r);
    }
  }

  /** Only the number of host bits matters, not the family's width. */
  lemma SameAround(a: Address, k: nat)
    requires k <= 32
    ensures Around(a, true, 32 - k) == Around(a, false, 128 - k)
  {
  }

  /** Parsing the CIDR text of a range rounds its start at the mask's length. */
  lemma ParseCidrText(r: Range, short6: bool, m: nat, k: nat)
    requires IsMaskApart(r) && m == Xor(r.start, r.end) && k == BitLength(m)
    ensures k <= 128
    ensures RangeOf(RangeText(r, short6)) ==
              if Is4(r.start) && k > 32 then None else Some(Around(r.start, false, 128 - k))
  {
    CidrTextForm(r, short6, m, k);
    var t, n := ToText(r.start, short6, false), Width(Is4(r.start)) - k;
    CidrTextParts(r, short6, t, n);
    AddressTextShape(r.start, short6, false);
    PairOfInteger(t + "/" + Integer(n), t, n, r.start, Is4(r.start));
    if Is4(r.start) && k <= 32 {
      SameAround(r.start, k);
    }
  }

  /** The hyphenated text of other ranges is not CIDR notation. */
  lemma HyphenTextFails(r: Range, short6: bool)
    requires !IsMaskApart(r)
    ensures RangeOf(RangeText(r, short6)) == None
  {
    var force6 := !Is4(r.start) || !Is4(r.end);
    AddressTextShape(r.start, short6, force6);
    AddressTextShape(r.end, short6, force6);
    var t := RangeText(r, short6);
    assert Free(" - ", '/');
    assert Free(t, '/');
    SplitFree(t, '/');
  }

  /** A range with no CIDR form prints as its two ends around " - ", the start first. */
  lemma HyphenText(r: Range, short6: bool) returns (a: string, b: string)
    requires !IsMaskApart(r)
    ensures RangeText(r, short6) == a + " - " + b && AddressOf(a) == Some(r.start) && AddressOf(b) == Some(r.end)
    ensures IsIPv4(a) <==> IsIPv4(b)
    ensures IsIPv4(a) <==> Is4(r.start) && Is4(r.end)
  {
    var force6 := !Is4(r.start) || !Is4(r.end);
    AddressTextShape(r.start, short6, force6);
    AddressTextShape(r.end, short6, force6);
    a, b := ToText(r.start, short6, force6), ToText(r.end, short6, force6);
  }

  lemma AroundSame(r: Range, k: nat)
    requires k <= 128
    ensures Around(r.start, false, 128 - k) == r <==> IsBlock(r.start, r.end, k)
  {
  }

  lemma CidrRoundTrip(r: Range, short6: bool, m: nat, k: nat)
    requires IsMaskApart(r) && m == Xor(r.start, r.end) && k == BitLength(m)
    ensures RangeOf(RangeText(r, short6)) == Some(r) <==> IsCidr(r)
  {
    ParseCidrText(r, short6, m, k);
    assert IsCidr(r) <==> IsBlock(r.start, r.end, k) by { CidrMeaning(r, m, k); }
    AroundSame(r, k);
    if IsBlock(r.start, r.end, k) && Is4(r.start) {
      MappedBlock(r.start, k);
    }
  }

  /** Exactly the aligned blocks survive printing and parsing. */
  lemma RangeRoundTrip(r: Range, short6: bool)
    ensures RangeOf(RangeText(r, short6)) == Some(r) <==> IsCidr(r)
  {
    if !IsMaskApart(r) {
      HyphenTextFails(r, short6);
    } else {
      CidrRoundTrip(r, short6, Xor(r.start, r.end), BitLength(Xor(r.start, r.end)));
    }
  }

  /** An aligned block of 2^k addresses prints as its start, a slash and the number of fixed
      bits: in dotted-quad form and out of 32 exactly when the start is IPv4-mapped. */
  lemma BlockText(r: Range, short6: bool, k: nat) returns (t: string, n: nat)
    requires IsBlock(r.start, r.end, k)
    ensures RangeText(r, short6) == t + "/" + Numeral(n, Decimal)
    ensures AddressOf(t) == Some(r.start) && n + k == (if IsIPv4(t) then 32 else 128)
    ensures IsIPv4(t) <==> 0xffff_0000_0000 <= r.start <= 0xffff_ffff_ffff
  {
    BlockIsCidr(r, k);
    CidrTextForm(r, short6, Xor(r.start, r.end), k);
    AddressTextShape(r.start, short6, false);
    Is4Range(r.start);
    if Is4(r.start) {
      MappedBlock(r.start, k);
    }
    t, n := ToText(r.start, short6, false), Width(Is4(r.start)) - k;
  }

  /** Every range parsed from CIDR notation prints to a text that parses to the same range. */
  lemma CidrTextRoundTrip(s: string, short6: bool)
    requires RangeOf(s).Some?
    ensures RangeOf(RangeText(RangeOf(s).value, short6)) == RangeOf(s)
  {
    ParsedIsCidr(s);
    RangeRoundTrip(RangeOf(s).value, short6);
  }

  lemma FiveXorTen()
    ensures Xor(5, 10) == 15 && And(16, 15) == 0 && BitLength(15) == 4
  {
    assert Xor(0, 1) == 1;
    assert Xor(1, 2) == 3;
    assert Xor(2, 5) == 7;
    assert And(2, 1) == 0;
    assert And(4, 3) == 0;
    assert And(8, 7) == 0;
    assert BitLength(3) == 2;
  }

  lemma NotMapped()
    ensures !Is4(5)
  {
    Is4Range(5);
  }

  lemma LowOfFive()
    ensures Low(5, 4) == 5 && Mask(4) == 15
  {
    assert Pow2(4) == 16;
    LowOfLess(5, 4);
  }

  /** ::5 to ::a prints as ::5/124, which is ::0 to ::f. */
  lemma UnalignedExample(short6: bool)
    ensures RangeOfBounds(5, 10) == Some(Range(5, 10))
    ensures IsMaskApart(Range(5, 10)) && RangeOf(RangeText(Range(5, 10), short6)) == Some(Range(0, 15))
  {
    var r := Range(5, 10);
    FiveXorTen();
    ParseCidrText(r, short6, 15, 4);
    NotMapped();
    LowOfFive();
  }

  /** Scaled values, the second with all the low bits set. */
  lemma {:induction false} XorScaled(x: nat, y: nat, k: nat)
    ensures Xor(Scale(x, k), Scale(y, k) + Mask(k)) == Scale(Xor(x, y), k) + Mask(k)
    decreases k
  {
    if k == 0 {
    } else {
      assert Scale(x, k) / 2 == Scale(x, k - 1);
      assert (Scale(y, k) + Mask(k)) / 2 == Scale(y, k - 1) + Mask(k - 1);
      XorScaled(x, y, k - 1);
    }
  }

  /** A mask and the power above it. */
  lemma {:induction false} XorOfNext(k: nat)
    ensures Xor(Mask(k), Pow2(k)) == Mask(k + 1)
  {
    if k == 0 {
      assert Xor(0, 1) == 1;
    } else {
      assert Mask(k) / 2 == Mask(k - 1) && Pow2(k) / 2 == Pow2(k - 1);
      XorOfNext(k - 1);
    }
  }

  lemma {:induction false} ScaleMask(j: nat, k: nat)
    ensures Scale(Mask(j), k) + Mask(k) == Mask(j + k)
    decreases k
  {
    if k == 0 {
    } else {
      ScaleMask(j, k - 1);
    }
  }

  lemma MappedXor(k: nat)
    requires k == 49
    ensures Xor(MAPPED, 0x1_0000_ffff_ffff) == Mask(k)
  {
    Pow2Values();
    Limits();
    Scale32(0xffff);
    Scale32(0x1_0000);
    XorOfNext(16);
    XorScaled(0xffff, 0x1_0000, 32);
    ScaleMask(17, 32);
  }

  /** A range that starts at a mapped address and has more than 32 host bits prints with a
      negative prefix length and parses as nothing. */
  lemma NegativePrefix(r: Range, short6: bool, k: nat)
    requires Xor(r.start, r.end) == Mask(k) && Is4(r.start) && k > 32
    ensures IsMaskApart(r) && RangeText(r, short6) == DottedQuad(r.start) + "/" + Integer(32 - k)
    ensures RangeOf(RangeText(r, short6)) == None
  {
    BitLengthOfMask(k);
    MaskTest(Mask(k));
    CidrTextForm(r, short6, Mask(k), k);
    ParseCidrText(r, short6, Mask(k), k);
  }

  lemma FirstMapped(a: Address)
    requires a == MAPPED
    ensures Is4(a)
  {
    Is4Range(a);
  }

  /** 0.0.0.0 up to ::1:0:ffff:ffff is accepted. It prints as 0.0.0.0 with the prefix length
      -17, which parses as nothing. */
  lemma NegativePrefixExample(start: Address, end: Address, short6: bool)
    requires start == MAPPED && end == 0x1_0000_ffff_ffff
    ensures var r := RangeOfBounds(start, end);
            && r.Some?
            && RangeText(r.value, short6) == DottedQuad(start) + "/" + Integer(-17)
            && RangeOf(RangeText(r.value, short6)) == None
  {
    MappedXor(49);
    FirstMapped(start);
    NegativePrefix(Range(start, end), short6, 49);
  }
}
