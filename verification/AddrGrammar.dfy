/** The address texts the parser accepts, written out group by group with the value of
    each, and the proof that the letter case of a text does not matter. */
module AddrGrammar {
  import opened Text
  import opened AsciiCase
  import opened IpAddr
  import opened AddrText

  // ----- Digits

  /** The sixteen digits in order, in either letter case, and no others. */
  lemma DigitTable(d: nat, c: char)
    requires d < 16
    ensures DigitValue("0123456789abcdef"[d]) == d && DigitValue("0123456789ABCDEF"[d]) == d
    ensures DigitValue(c) == d ==> c == "0123456789abcdef"[d] || c == "0123456789ABCDEF"[d]
  {
  }

  /** A group of one to four digits by place value. */
  lemma HextetMeaning(p: string)
    requires IsHextet(p)
    ensures |p| == 1 ==> HextetValue(p) == DigitValue(p[0])
    ensures |p| == 2 ==> HextetValue(p) == 16 * DigitValue(p[0]) + DigitValue(p[1])
    ensures |p| == 3 ==> HextetValue(p) == 256 * DigitValue(p[0]) + 16 * DigitValue(p[1]) + DigitValue(p[2])
    ensures |p| == 4 ==>
              HextetValue(p) ==
              4096 * DigitValue(p[0]) + 256 * DigitValue(p[1]) + 16 * DigitValue(p[2]) + DigitValue(p[3])
  {
    if |p| < 4 {
      ShortValue(p, Hex);
    } else {
      ThreeDigits(p[..3], Hex);
    }
  }

  // ----- IPv4

  lemma DecimalDigit(c: char)
    requires IsDigit(c, Decimal)
    ensures DigitChar(DigitValue(c)) == c
  {
  }

  lemma SnocNumeral(q: nat, d: nat)
    requires q >= 1 && d < 10
    ensures Numeral(10 * q + d, Decimal) == Numeral(q, Decimal) + [DigitChar(d)]
  {
  }

  /** A text without superfluous zeros is the numeral of its value. */
  lemma {:induction false} CanonicalNumeral(p: string)
    requires Canonical(p, Decimal)
    ensures p == Numeral(NumeralValue(p, Decimal), Decimal)
    decreases |p|
  {
    var n := |p| - 1;
    DecimalDigit(p[n]);
    if n == 0 {
      OneDigit(p, Decimal);
    } else {
      CanonicalNumeral(p[..n]);
      LeadingDigit(p[..n]);
      SnocNumeral(NumeralValue(p[..n], Decimal), DigitValue(p[n]));
    }
  }

  predicate IsByte(n: nat) {
    n <= 255
  }

  function Quad(a: nat, b: nat, c: nat, d: nat): string {
    Numeral(a, Decimal) + "." + Numeral(b, Decimal) + "." + Numeral(c, Decimal) + "." + Numeral(d, Decimal)
  }

  lemma JoinFour(ts: seq<string>)
    requires |ts| == 4
    ensures Join(ts, '.') == ts[0] + "." + ts[1] + "." + ts[2] + "." + ts[3]
  {
    assert ts[1..][1..] == ts[2..] && ts[2..][1..] == ts[3..];
    assert Join(ts[3..], '.') == ts[3];
    assert Join(ts[2..], '.') == ts[2] + "." + ts[3];
    assert Join(ts[1..], '.') == ts[1] + "." + (ts[2] + "." + ts[3]);
    assert Join(ts, '.') == ts[0] + "." + (ts[1] + "." + (ts[2] + "." + ts[3]));
  }

  /** A dotted quad and its value. */
  lemma QuadMeaning(a: nat, b: nat, c: nat, d: nat)
    requires IsByte(a) && IsByte(b) && IsByte(c) && IsByte(d)
    ensures IsIPv4(Quad(a, b, c, d))
    ensures AddressOf(Quad(a, b, c, d)) == Some(0xffff_0000_0000 + 0x100_0000 * a + 0x1_0000 * b + 0x100 * c + d)
  {
    var ns := [a, b, c, d];
    QuadTexts(ns);
    JoinFour(DecimalTexts(ns));
    V4Denotes(Quad(a, b, c, d));
  }

  /** Exactly the dotted quads are IPv4 texts. */
  lemma FourGrammar(s: string)
    ensures IsIPv4(s) <==>
            exists a, b, c, d :: IsByte(a) && IsByte(b) && IsByte(c) && IsByte(d) && s == Quad(a, b, c, d)
  {
    if IsIPv4(s) {
      var ts := Split(s, '.');
      forall i | 0 <= i < 4
        ensures IsByte(OctetValue(ts[i])) && ts[i] == Numeral(OctetValue(ts[i]), Decimal)
      {
        OctetMeaning(ts[i]);
        CanonicalNumeral(ts[i]);
      }
      JoinSplit(s, '.');
      JoinFour(ts);
      assert s == Quad(OctetValue(ts[0]), OctetValue(ts[1]), OctetValue(ts[2]), OctetValue(ts[3]));
    }
    forall a, b, c, d | IsByte(a) && IsByte(b) && IsByte(c) && IsByte(d) && s == Quad(a, b, c, d)
      ensures IsIPv4(s)
    {
      QuadMeaning(a, b, c, d);
    }
  }

  // ----- IPv6

  predicate IsFull(hs: seq<string>) {
    |hs| == 8 && AllHextets(hs)
  }

  predicate IsGap(left: seq<string>, right: seq<string>) {
    |left| + |right| <= 7 && AllHextets(left) && AllHextets(right)
  }

  function GapForm(left: seq<string>, right: seq<string>): string {
    Join(left, ':') + "::" + Join(right, ':')
  }

  function GroupValues(hs: seq<string>): (ws: seq<nat>)
    ensures |ws| == |hs|
  {
    seq(|hs|, i requires 0 <= i < |hs| => HextetValue(hs[i]))
  }

  /** Eight words by place value. */
  lemma EightWords(ws: seq<nat>)
    requires |ws| == 8
    ensures WordsValue(ws) ==
            0x1_0000_0000_0000_0000_0000_0000_0000 * ws[0] + 0x1_0000_0000_0000_0000_0000_0000 * ws[1]
              + 0x1_0000_0000_0000_0000_0000 * ws[2] + 0x1_0000_0000_0000_0000 * ws[3]
              + 0x1_0000_0000_0000 * ws[4] + 0x1_0000_0000 * ws[5] + 0x1_0000 * ws[6] + ws[7]
  {
    assert WordsValue(ws[..0]) == 0;
    assert ws[..1][..0] == ws[..0] && ws[..2][..1] == ws[..1] && ws[..3][..2] == ws[..2] && ws[..4][..3] == ws[..3];
    assert ws[..5][..4] == ws[..4] && ws[..6][..5] == ws[..5] && ws[..7][..6] == ws[..6];
    assert WordsValue(ws[..1]) == ws[0];
    assert WordsValue(ws[..2]) == 65536 * WordsValue(ws[..1]) + ws[1];
    assert WordsValue(ws[..3]) == 65536 * WordsValue(ws[..2]) + ws[2];
    assert WordsValue(ws[..4]) == 65536 * WordsValue(ws[..3]) + ws[3];
    assert WordsValue(ws[..5]) == 65536 * WordsValue(ws[..4]) + ws[4];
    assert WordsValue(ws[..6]) == 65536 * WordsValue(ws[..5]) + ws[5];
    assert WordsValue(ws[..7]) == 65536 * WordsValue(ws[..6]) + ws[6];
  }

  /** Eight groups denote their eight values. */
  lemma FullMeaning(hs: seq<string>)
    requires IsFull(hs)
    ensures IsIPv6(Join(hs, ':')) && AddressOf(Join(hs, ':')).Some?
    ensures AddressOf(Join(hs, ':')).value == WordsValue(GroupValues(hs))
  {
    FullText(hs, GroupValues(hs));
    FullShape(hs);
  }

  lemma ZeroGroup()
    ensures IsHextet("0") && HextetValue("0") == 0
  {
    OneDigit("0", Hex);
  }

  lemma GapIsGapped(left: seq<string>, right: seq<string>, n: nat, hs: seq<string>, ws: seq<nat>)
    requires IsGap(left, right) && |left| + n + |right| == 8
    requires hs == left + seq(n, _ => "0") + right
    requires ws == GroupValues(left) + seq(n, _ => 0) + GroupValues(right)
    ensures Gapped(hs, ws, |left|, |left| + n) && hs[..|left|] == left && hs[|left| + n..] == right
  {
    ZeroGroup();
  }

  lemma GapValue(left: seq<string>, right: seq<string>, n: nat, hs: seq<string>, ws: seq<nat>)
    requires IsGap(left, right) && |left| + n + |right| == 8
    requires hs == left + seq(n, _ => "0") + right
    requires ws == GroupValues(left) + seq(n, _ => 0) + GroupValues(right)
    ensures IsIPv6(GapForm(left, right)) && AddressOf(GapForm(left, right)).Some?
    ensures AddressOf(GapForm(left, right)).value == WordsValue(ws)
  {
    GapIsGapped(left, right, n, hs, ws);
    GapText(hs, ws, |left|, |left| + n);
  }

  /** `::` stands for as many zero words as are missing. */
  lemma GapMeaning(left: seq<string>, right: seq<string>)
    requires IsGap(left, right)
    ensures IsIPv6(GapForm(left, right)) && AddressOf(GapForm(left, right)).Some?
    ensures AddressOf(GapForm(left, right)).value ==
            WordsValue(GroupValues(left) + seq(8 - |left| - |right|, _ => 0) + GroupValues(right))
  {
    var n := 8 - |left| - |right|;
    GapValue(left, right, n, left + seq(n, _ => "0") + right, GroupValues(left) + seq(n, _ => 0) + GroupValues(right));
  }

  lemma JoinPieces(hs: seq<string>)
    ensures Join(Pieces(hs), ':') == Join(hs, ':')
  {
  }

  lemma {:induction false} JoinConcat(a: seq<string>, b: seq<string>, c: char)
    requires a != [] && b != []
    ensures Join(a + b, c) == Join(a, c) + [c] + Join(b, c)
  {
    if |a| == 1 {
      assert (a + b)[1..] == b;
    } else {
      JoinConcat(a[1..], b, c);
      assert (a + b)[1..] == a[1..] + b;
    }
  }

  lemma GapJoined(left: seq<string>, right: seq<string>)
    ensures Join(Pieces(left) + [""] + Pieces(right), ':') == GapForm(left, right)
  {
    var a, b := Pieces(left), Pieces(right);
    assert a + [""] + b == a + ([""] + b);
    JoinConcat(a, [""] + b, ':');
    JoinConcat([""], b, ':');
    JoinPieces(left);
    JoinPieces(right);
    assert Join([""], ':') == "";
    assert Join(left, ':') + [':'] + ("" + [':'] + Join(right, ':')) == GapForm(left, right);
  }

  lemma GapSides(parts: seq<string>, l: nat) returns (left: seq<string>, right: seq<string>)
    requires l <= 7 && GapAt(parts, l)
    ensures IsGap(left, right) && parts == Pieces(left) + [""] + Pieces(right)
  {
    var g := if l == 0 then 1 else l;
    left := parts[..l];
    right := if |parts| == g + 2 && parts[g + 1] == "" then [] else parts[g + 1..];
    assert parts[g + 1..] == Pieces(right);
    assert parts[..g] == Pieces(left);
    assert parts == parts[..g] + [parts[g]] + parts[g + 1..];
  }

  /** Exactly the joined eight groups and the joined lists around `::` are IPv6 texts. */
  lemma SixGrammar(s: string)
    ensures IsIPv6(s) <==>
            || (exists hs :: IsFull(hs) && s == Join(hs, ':'))
            || (exists left, right :: IsGap(left, right) && s == GapForm(left, right))
  {
    if IsIPv6(s) {
      var parts := Split(s, ':');
      JoinSplit(s, ':');
      if !IsFull(parts) {
        var l :| 0 <= l <= 7 && GapAt(parts, l);
        var left, right := GapSides(parts, l);
        GapJoined(left, right);
      }
    }
    forall hs | IsFull(hs) && s == Join(hs, ':')
      ensures IsIPv6(s)
    {
      FullMeaning(hs);
    }
    forall left, right | IsGap(left, right) && s == GapForm(left, right)
      ensures IsIPv6(s)
    {
      GapMeaning(left, right);
    }
  }

  // ----- What is printed

  lemma OctetsOf(v: Address)
    requires Is4(v)
    ensures var o := Octets(v);
            && IsByte(o[0]) && IsByte(o[1]) && IsByte(o[2]) && IsByte(o[3])
            && v == 0xffff_0000_0000 + 0x100_0000 * o[0] + 0x1_0000 * o[1] + 0x100 * o[2] + o[3]
            && DottedQuad(v) == Quad(o[0], o[1], o[2], o[3])
  {
    OctetsValue(v);
    JoinFour(DecimalTexts(Octets(v)));
  }

  /** Without force6 an IPv4-mapped value prints as its dotted quad, and force6 makes no
      difference to any other. */
  lemma PrintedQuad(v: Address, short6: bool) returns (a: nat, b: nat, c: nat, d: nat)
    ensures v < 0xffff_0000_0000 || v > 0xffff_ffff_ffff ==> ToText(v, short6, false) == ToText(v, short6, true)
    ensures 0xffff_0000_0000 <= v <= 0xffff_ffff_ffff ==>
              && ToText(v, short6, false) == Quad(a, b, c, d)
              && IsByte(a) && IsByte(b) && IsByte(c) && IsByte(d)
              && v == 0xffff_0000_0000 + 0x100_0000 * a + 0x1_0000 * b + 0x100 * c + d
  {
    Is4Range(v);
    var o := Octets(v);
    a, b, c, d := o[0], o[1], o[2], o[3];
    if Is4(v) {
      OctetsOf(v);
    }
  }

  lemma CompressedTexts(gs: seq<string>, ws: seq<nat>, r: Run)
    requires StripAll(gs) == HexTexts(ws) && r.start + r.len <= |ws|
    ensures |gs| == |ws| && CompressedAt(gs, r) == GapForm(HexTexts(ws[..r.start]), HexTexts(ws[r.start + r.len..]))
  {
    assert |gs| == |StripAll(gs)|;
    CompressedForm(gs, r);
    assert HexTexts(ws)[..r.start] == HexTexts(ws[..r.start]);
    assert HexTexts(ws)[r.start + r.len..] == HexTexts(ws[r.start + r.len..]);
  }

  /** The short text of words compressed at a run. */
  ghost predicate IsCompressed(text: string, ws: seq<nat>, r: Run) {
    && FirstLongest(ws, r)
    && text == GapForm(HexTexts(ws[..r.start]), HexTexts(ws[r.start + r.len..]))
  }

  /** The long form prints the eight words with four digits each; the short form prints their
      shortest numerals, with `::` for the first longest run of at least two zero words if any. */
  lemma PrintedWords(v: Address, ws: seq<nat>)
    requires ws == Words(v, 8)
    ensures ToText(v, false, true) == Join(PaddedWords(ws), ':')
    ensures !HasZeroRun(ws) ==> ToText(v, true, true) == Join(HexTexts(ws), ':')
    ensures HasZeroRun(ws) ==> exists r :: IsCompressed(ToText(v, true, true), ws, r)
  {
    PrintedGroups(v);
    ShortFormCompressesFirstLongestRun(v);
    var gs := Groups(v);
    if HasZeroRun(ws) {
      var r: Run :| FirstLongest(ws, r) && Short6(gs) == CompressedAt(gs, r);
      CompressedTexts(gs, ws, r);
      assert IsCompressed(ToText(v, true, true), ws, r);
    }
  }

  // ----- Letter case

  lemma DigitFold(c: char)
    ensures DigitValue(LowerChar(c)) == DigitValue(c)
  {
  }

  lemma {:induction false} NumeralFold(p: string, b: Base)
    ensures AllDigits(Lower(p), b) <==> AllDigits(p, b)
    ensures AllDigits(p, b) ==> NumeralValue(Lower(p), b) == NumeralValue(p, b)
  {
    forall i | 0 <= i < |p|
      ensures DigitValue(Lower(p)[i]) == DigitValue(p[i])
    {
      DigitFold(p[i]);
    }
    if p == "" {
    } else {
      NumeralFold(p[..|p| - 1], b);
      assert Lower(p)[..|p| - 1] == Lower(p[..|p| - 1]);
    }
  }

  /** Putting a character before the first piece. */
  lemma FirstPieceFold(c: char, parts: seq<string>)
    requires parts != []
    ensures LowerAll([[c] + parts[0]] + parts[1..]) == [[LowerChar(c)] + LowerAll(parts)[0]] + LowerAll(parts)[1..]
  {
    assert Lower([c] + parts[0]) == [LowerChar(c)] + Lower(parts[0]);
  }

  lemma EmptyPieceFold(parts: seq<string>)
    ensures LowerAll([""] + parts) == [""] + LowerAll(parts)
  {
  }

  /** Splitting at a character that is no letter. */
  lemma {:induction false} SplitFold(s: string, c: char)
    requires c < 'A'
    ensures Split(Lower(s), c) == LowerAll(Split(s, c))
  {
    if s == "" {
    } else {
      SplitFold(s[1..], c);
      assert Lower(s)[1..] == Lower(s[1..]);
      if s[0] == c {
        EmptyPieceFold(Split(s[1..], c));
      } else {
        FirstPieceFold(s[0], Split(s[1..], c));
      }
    }
  }

  lemma OctetFold(p: string)
    ensures IsOctet(Lower(p)) <==> IsOctet(p)
    ensures OctetValue(Lower(p)) == OctetValue(p)
  {
    NumeralFold(p, Decimal);
  }

  lemma HextetFold(p: string)
    ensures IsHextet(Lower(p)) <==> IsHextet(p)
    ensures HextetValue(Lower(p)) == HextetValue(p)
  {
    NumeralFold(p, Hex);
  }

  lemma HextetsFold(parts: seq<string>, i: nat, j: nat)
    requires j <= |parts|
    ensures HextetsIn(LowerAll(parts), i, j) <==> HextetsIn(parts, i, j)
  {
    forall k | 0 <= k < |parts|
      ensures IsHextet(LowerAll(parts)[k]) <==> IsHextet(parts[k])
    {
      HextetFold(parts[k]);
    }
  }

  lemma GapFold(parts: seq<string>, l: nat)
    ensures GapAt(LowerAll(parts), l) <==> GapAt(parts, l)
  {
    assert forall k :: 0 <= k < |parts| ==> (LowerAll(parts)[k] == "" <==> parts[k] == "");
    HextetsFold(parts, 2, |parts|);
    HextetsFold(parts, l + 1, |parts|);
    if l <= |parts| {
      HextetsFold(parts, 0, l);
    }
  }

  lemma SixPartsFold(parts: seq<string>)
    ensures IsIPv6Parts(LowerAll(parts)) <==> IsIPv6Parts(parts)
  {
    HextetsFold(parts, 0, |parts|);
    forall l | 0 <= l <= 7
      ensures GapAt(LowerAll(parts), l) <==> GapAt(parts, l)
    {
      GapFold(parts, l);
    }
  }

  lemma SameGaps(parts: seq<string>)
    ensures Leading(LowerAll(parts)) == Leading(parts) && Trailing(LowerAll(parts)) == Trailing(parts)
  {
    var ls := LowerAll(parts);
    assert forall k :: 0 <= k < |parts| ==> (ls[k] == "" <==> parts[k] == "");
    LeadingIs(ls, Leading(parts));
    TrailingIs(ls, Trailing(parts));
  }

  lemma WordFold(parts: seq<string>, k: nat)
    requires k < 8
    ensures WordAt(LowerAll(parts), k) == WordAt(parts, k)
  {
    SameGaps(parts);
    if k < Leading(parts) {
      HextetFold(parts[k]);
    } else if k >= 8 - Trailing(parts) && |parts| + k >= 8 {
      HextetFold(parts[|parts| + k - 8]);
    }
  }

  lemma WordsFold(parts: seq<string>)
    ensures WordsOf(LowerAll(parts)) == WordsOf(parts)
  {
    forall k: nat | k < 8
      ensures WordAt(LowerAll(parts), k) == WordAt(parts, k)
    {
      WordFold(parts, k);
    }
  }

  lemma FourFold(s: string)
    ensures IsIPv4(Lower(s)) <==> IsIPv4(s)
    ensures IsIPv4(s) ==> Address4(Lower(s)) == Address4(s)
  {
    SplitFold(s, '.');
    var parts := Split(s, '.');
    forall i | 0 <= i < |parts|
      ensures IsOctet(LowerAll(parts)[i]) <==> IsOctet(parts[i])
      ensures OctetValue(LowerAll(parts)[i]) == OctetValue(parts[i])
    {
      OctetFold(parts[i]);
    }
  }

  lemma SixFold(s: string)
    ensures IsIPv6(Lower(s)) <==> IsIPv6(s)
    ensures IsIPv6(s) ==> Address6(Lower(s)) == Address6(s)
  {
    SplitFold(s, ':');
    SixPartsFold(Split(s, ':'));
    WordsFold(Split(s, ':'));
  }

  /** The letter case of a text does not matter. */
  lemma AddressFold(s: string)
    ensures AddressOf(Lower(s)) == AddressOf(s)
  {
    FourFold(s);
    SixFold(s);
  }
}
