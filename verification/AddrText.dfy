/** Printing addresses, and the proof that parsing undoes printing for every
    value and every choice of form. Zero-run compression follows section 4.2 of RFC 5952. */
module AddrText {
  import opened Bits
  import opened Text
  import opened IpAddr

  function HexString(v: Address): string {
    PadStart(Numeral(v, Hex), 32)
  }

  /** Consecutive four-character pieces. */
  function Chunks(s: string): seq<string> {
    if |s| < 4 then [] else [s[..4]] + Chunks(s[4..])
  }

  /** The eight groups of four hex digits. */
  function Groups(v: Address): seq<string> {
    Chunks(HexString(v))
  }

  /** Drop at most n leading zero digits. */
  function Strip(g: string, n: nat): string
    decreases n
  {
    if n > 0 && g != "" && g[0] == '0' then Strip(g[1..], n - 1) else g
  }

  function StripAll(gs: seq<string>): (ts: seq<string>)
    ensures |ts| == |gs|
  {
    seq(|gs|, i requires 0 <= i < |gs| => Strip(gs[i], 3))
  }

  datatype Run = Run(start: nat, len: nat)

  const ZERO := "0000"

  /** How many consecutive zero groups start at i. */
  function RunLength(gs: seq<string>, i: nat): (n: nat)
    requires i <= |gs|
    ensures i + n <= |gs|
    ensures forall k :: i <= k < i + n ==> gs[k] == ZERO
    ensures i + n < |gs| ==> gs[i + n] != ZERO
    decreases |gs| - i
  {
    if i == |gs| || gs[i] != ZERO then 0 else 1 + RunLength(gs, i + 1)
  }

  /** The maximal runs of two or more zero groups, left to right. */
  function Runs(gs: seq<string>, i: nat): (rs: seq<Run>)
    requires i <= |gs|
    ensures forall r :: r in rs ==> i <= r.start && 2 <= r.len && r.start + r.len <= |gs|
    decreases |gs| - i
  {
    if i == |gs| then []
    else
      var n := RunLength(gs, i);
      if n >= 2 then [Run(i, n)] + Runs(gs, i + n) else Runs(gs, i + 1)
  }

  /** Reduce keeping the left run unless the right one is strictly longer. */
  function Longest(rs: seq<Run>): (r: Run)
    requires rs != []
    ensures r in rs
  {
    if |rs| == 1 then rs[0]
    else
      var a := Longest(rs[..|rs| - 1]);
      if rs[|rs| - 1].len > a.len then rs[|rs| - 1] else a
  }

  /** `::` in place of a run. */
  function CompressedAt(gs: seq<string>, r: Run): string
    requires r.start + r.len <= |gs|
  {
    Join(StripAll(gs[..r.start]), ':') + "::" + Join(StripAll(gs[r.start + r.len..]), ':')
  }

  function Short6(gs: seq<string>): string {
    var rs := Runs(gs, 0);
    if rs == [] then Join(StripAll(gs), ':') else CompressedAt(gs, Longest(rs))
  }

  function ToText(v: Address, short6: bool, force6: bool): string {
    if Is4(v) && !force6 then DottedQuad(v)
    else if short6 then Short6(Groups(v))
    else Join(Groups(v), ':')
  }

  // ----- Groups

  function PaddedWords(ws: seq<nat>): (gs: seq<string>)
    ensures |gs| == |ws|
  {
    seq(|ws|, i requires 0 <= i < |ws| => Padded(ws[i], Hex, 4))
  }

  lemma {:induction false} ChunksSnoc(s: string, g: string)
    requires |s| % 4 == 0 && |g| == 4
    ensures Chunks(s + g) == Chunks(s) + [g]
  {
    if s == "" {
      assert s + g == g && g[..4] == g && Chunks(g[4..]) == [];
    } else {
      assert (s + g)[..4] == s[..4] && (s + g)[4..] == s[4..] + g;
      ChunksSnoc(s[4..], g);
    }
  }

  lemma GrowByOne(h: nat, k: nat)
    requires k > 0
    ensures Grow(Hex, h, k) == 16 * Grow(Hex, h, k - 1)
  {
  }

  lemma Grow4(h: nat)
    ensures Grow(Hex, h, 4) == 65536 * h
  {
    assert Grow(Hex, h, 0) == h;
    GrowByOne(h, 1);
    GrowByOne(h, 2);
    GrowByOne(h, 3);
    GrowByOne(h, 4);
  }

  lemma {:induction false} GroupsArePaddedWords(v: nat, n: nat)
    ensures Chunks(Padded(v, Hex, 4 * n)) == PaddedWords(Words(v, n))
    decreases n
  {
    if n == 0 {
    } else {
      assert Pow(Hex, 4) == 65536 by { Limits(); }
      Grow4(v / 65536);
      PaddedSplit(v / 65536, v % 65536, Hex, 4 * (n - 1), 4);
      GroupsArePaddedWords(v / 65536, n - 1);
      ChunksSnoc(Padded(v / 65536, Hex, 4 * (n - 1)), Padded(v % 65536, Hex, 4));
    }
  }

  lemma GroupsMeaning(v: Address)
    ensures Groups(v) == PaddedWords(Words(v, 8))
    ensures WordsValue(Words(v, 8)) == v
  {
    Limits();
    PadNumeral(v, Hex, 32);
    GroupsArePaddedWords(v, 8);
    WordsRoundTrip(v, 8);
  }

  lemma PaddedWord(w: nat)
    requires w < 65536
    ensures IsHextet(Padded(w, Hex, 4)) && HextetValue(Padded(w, Hex, 4)) == w
    ensures Padded(w, Hex, 4) == ZERO <==> w == 0
  {
    Limits();
    PaddedRoundTrip(w, Hex, 4);
    ZeroPadded(Hex, 4);
    assert Zeros(4) == ZERO;
  }

  lemma {:induction false} StripValue(g: string, n: nat)
    requires IsHextet(g) && n < |g|
    ensures IsHextet(Strip(g, n)) && HextetValue(Strip(g, n)) == HextetValue(g)
    decreases n
  {
    if n > 0 && g[0] == '0' {
      LeadingZero(g[1..], Hex);
      assert "0" + g[1..] == g;
      StripValue(g[1..], n - 1);
    } else {
    }
  }

  // ----- Texts of hextet lists

  lemma HextetFree(p: string, c: char)
    requires IsHextet(p) && DigitValue(c) >= 16
    ensures Free(p, c)
  {
  }

  /** A list of hextets, joined. */
  lemma JoinedHextets(hs: seq<string>)
    requires AllHextets(hs)
    ensures Split(Join(hs, ':'), ':') == if hs == [] then [""] else hs
    ensures Free(Join(hs, ':'), '.') && Free(Join(hs, ':'), '/')
  {
    forall i | 0 <= i < |hs|
      ensures Free(hs[i], ':') && Free(hs[i], '.') && Free(hs[i], '/')
    {
      HextetFree(hs[i], ':');
      HextetFree(hs[i], '.');
      HextetFree(hs[i], '/');
    }
    JoinFree(hs, ':', '.');
    JoinFree(hs, ':', '/');
    if hs != [] {
      SplitJoin(hs, ':');
    }
  }

  lemma NotIPv4(s: string)
    requires Free(s, '.')
    ensures !IsIPv4(s)
  {
    SplitFree(s, '.');
  }

  lemma FullText(hs: seq<string>, ws: seq<nat>)
    requires |hs| == |ws| == 8 && AllHextets(hs)
    requires forall i :: 0 <= i < 8 ==> HextetValue(hs[i]) == ws[i]
    ensures AddressOf(Join(hs, ':')).Some? && AddressOf(Join(hs, ':')).value == WordsValue(ws)
  {
    JoinedHextets(hs);
    NotIPv4(Join(hs, ':'));
    GapShape(hs);
    assert forall i :: 0 <= i < 8 ==> hs[i] != "";
    assert WordsOf(hs) == ws;
  }

  function Pieces(hs: seq<string>): seq<string> {
    if hs == [] then [""] else hs
  }

  lemma GapPieces(left: seq<string>, right: seq<string>)
    requires AllHextets(left) && AllHextets(right) && |left| + |right| <= 7
    ensures IsIPv6Parts(Pieces(left) + [""] + Pieces(right))
    ensures Leading(Pieces(left) + [""] + Pieces(right)) == |left|
    ensures Trailing(Pieces(left) + [""] + Pieces(right)) == |right|
  {
    var a, b, l := Pieces(left), Pieces(right), |left|;
    var parts := a + [""] + b;
    var g := |a|;
    assert parts[g] == "" && forall i :: 0 <= i < |b| ==> parts[g + 1 + i] == b[i];
    assert forall i :: 0 <= i < l ==> parts[i] == left[i];
    if right != [] {
      assert forall k :: g < k < |parts| ==> parts[k] == right[k - g - 1];
    }
    assert GapAt(parts, l);
    GapLeading(parts, l);
  }

  /** Eight groups with zero words from s up to e, written with the groups s..e left out. */
  ghost predicate Gapped(hs: seq<string>, ws: seq<nat>, s: nat, e: nat) {
    && |hs| == |ws| == 8 && s < e <= 8 && AllHextets(hs)
    && (forall i :: 0 <= i < 8 ==> HextetValue(hs[i]) == ws[i])
    && (forall i :: s <= i < e ==> ws[i] == 0)
  }

  lemma GapWordAt(hs: seq<string>, ws: seq<nat>, s: nat, e: nat, k: nat)
    requires Gapped(hs, ws, s, e) && k < 8
    ensures WordAt(Pieces(hs[..s]) + [""] + Pieces(hs[e..]), k) == ws[k]
  {
    var a, b := Pieces(hs[..s]), Pieces(hs[e..]);
    var parts := a + [""] + b;
    GapPieces(hs[..s], hs[e..]);
    if k < s {
      assert a == hs[..s];
      assert parts[k] == a[k] == hs[k];
    } else if k >= e {
      assert b == hs[e..];
      var i := |parts| + k - 8;
      assert i == |a| + 1 + (k - e);
      assert parts[i] == b[k - e] == hs[k];
    }
  }

  lemma GapWords(hs: seq<string>, ws: seq<nat>, s: nat, e: nat)
    requires Gapped(hs, ws, s, e)
    ensures WordsOf(Pieces(hs[..s]) + [""] + Pieces(hs[e..])) == ws
  {
    forall k: nat | k < 8
      ensures WordAt(Pieces(hs[..s]) + [""] + Pieces(hs[e..]), k) == ws[k]
    {
      GapWordAt(hs, ws, s, e, k);
    }
  }

  lemma SplitGap(a: string, b: string)
    requires Free(a, '.') && Free(b, '.') && Free(a, '/') && Free(b, '/')
    ensures Split(a + "::" + b, ':') == Split(a, ':') + [""] + Split(b, ':')
    ensures Free(a + "::" + b, '.') && Free(a + "::" + b, '/')
  {
    var tail := "" + [':'] + b;
    assert a + "::" + b == a + [':'] + tail;
    SplitAtSeparator(a, tail, ':');
    SplitAtSeparator("", b, ':');
  }

  lemma V6Denotes(s: string)
    requires IsIPv6(s) && Free(s, '.')
    ensures AddressOf(s).Some? && AddressOf(s).value == WordsValue(WordsOf(Split(s, ':')))
  {
    NotIPv4(s);
  }

  lemma GapText(hs: seq<string>, ws: seq<nat>, s: nat, e: nat)
    requires Gapped(hs, ws, s, e)
    ensures var t := Join(hs[..s], ':') + "::" + Join(hs[e..], ':');
            IsIPv6(t) && Free(t, '.') && Free(t, '/') && AddressOf(t).Some? && AddressOf(t).value == WordsValue(ws)
  {
    JoinedHextets(hs[..s]);
    JoinedHextets(hs[e..]);
    SplitGap(Join(hs[..s], ':'), Join(hs[e..], ':'));
    GapPieces(hs[..s], hs[e..]);
    GapWords(hs, ws, s, e);
    V6Denotes(Join(hs[..s], ':') + "::" + Join(hs[e..], ':'));
  }

  // ----- Round trips

  lemma {:induction false} StrippedGroups(ws: seq<nat>)
    requires forall i :: 0 <= i < |ws| ==> ws[i] < 65536
    ensures AllHextets(PaddedWords(ws)) && AllHextets(StripAll(PaddedWords(ws)))
    ensures forall i :: 0 <= i < |ws| ==>
              HextetValue(PaddedWords(ws)[i]) == ws[i] && HextetValue(StripAll(PaddedWords(ws))[i]) == ws[i]
    ensures forall i :: 0 <= i < |ws| ==> (PaddedWords(ws)[i] == ZERO <==> ws[i] == 0)
  {
    forall i | 0 <= i < |ws|
      ensures IsHextet(PaddedWords(ws)[i]) && IsHextet(StripAll(PaddedWords(ws))[i])
      ensures HextetValue(PaddedWords(ws)[i]) == ws[i] && HextetValue(StripAll(PaddedWords(ws))[i]) == ws[i]
      ensures PaddedWords(ws)[i] == ZERO <==> ws[i] == 0
    {
      PaddedWord(ws[i]);
      StripValue(Padded(ws[i], Hex, 4), 3);
    }
  }

  lemma StripSlice(gs: seq<string>, i: nat, j: nat)
    requires i <= j <= |gs|
    ensures StripAll(gs[i..j]) == StripAll(gs)[i..j]
  {
  }

  lemma CompressedForm(gs: seq<string>, r: Run)
    requires r.start + r.len <= |gs|
    ensures CompressedAt(gs, r) ==
              Join(StripAll(gs)[..r.start], ':') + "::" + Join(StripAll(gs)[r.start + r.len..], ':')
  {
    var e := r.start + r.len;
    StripSlice(gs, 0, r.start);
    StripSlice(gs, e, |gs|);
    assert gs[0..r.start] == gs[..r.start] && StripAll(gs)[0..r.start] == StripAll(gs)[..r.start];
    assert gs[e..|gs|] == gs[e..] && StripAll(gs)[e..|gs|] == StripAll(gs)[e..];
  }

  lemma CompressedGapped(gs: seq<string>, ws: seq<nat>, r: Run)
    requires |ws| == 8 && (forall i :: 0 <= i < 8 ==> ws[i] < 65536) && gs == PaddedWords(ws)
    requires r.len >= 2 && r.start + r.len <= 8 && forall k :: r.start <= k < r.start + r.len ==> gs[k] == ZERO
    ensures Gapped(StripAll(gs), ws, r.start, r.start + r.len)
  {
    StrippedGroups(ws);
  }

  lemma CompressedRoundTrip(gs: seq<string>, ws: seq<nat>, r: Run)
    requires |ws| == 8 && (forall i :: 0 <= i < 8 ==> ws[i] < 65536) && gs == PaddedWords(ws)
    requires r.len >= 2 && r.start + r.len <= 8 && forall k :: r.start <= k < r.start + r.len ==> gs[k] == ZERO
    ensures AddressOf(CompressedAt(gs, r)).Some? && AddressOf(CompressedAt(gs, r)).value == WordsValue(ws)
  {
    CompressedGapped(gs, ws, r);
    GapText(StripAll(gs), ws, r.start, r.start + r.len);
    CompressedForm(gs, r);
  }

  lemma {:induction false} RunsAreZero(gs: seq<string>, i: nat)
    requires i <= |gs|
    ensures forall r, k :: r in Runs(gs, i) && r.start <= k < r.start + r.len ==> gs[k] == ZERO
    decreases |gs| - i
  {
    if i == |gs| {
    } else {
      var n := RunLength(gs, i);
      RunsAreZero(gs, if n >= 2 then i + n else i + 1);
    }
  }

  lemma ShortRoundTrip(gs: seq<string>, ws: seq<nat>)
    requires |ws| == 8 && (forall i :: 0 <= i < 8 ==> ws[i] < 65536) && gs == PaddedWords(ws)
    ensures AddressOf(Short6(gs)).Some? && AddressOf(Short6(gs)).value == WordsValue(ws)
  {
    if Runs(gs, 0) == [] {
      StrippedGroups(ws);
      FullText(StripAll(gs), ws);
    } else {
      RunsAreZero(gs, 0);
      CompressedRoundTrip(gs, ws, Longest(Runs(gs, 0)));
    }
  }

  lemma FullShape(hs: seq<string>)
    requires |hs| == 8 && AllHextets(hs)
    ensures IsIPv6(Join(hs, ':')) && !IsIPv4(Join(hs, ':')) && Free(Join(hs, ':'), '/')
  {
    JoinedHextets(hs);
    NotIPv4(Join(hs, ':'));
  }

  lemma CompressedShape(gs: seq<string>, ws: seq<nat>, r: Run)
    requires |ws| == 8 && (forall i :: 0 <= i < 8 ==> ws[i] < 65536) && gs == PaddedWords(ws)
    requires r.len >= 2 && r.start + r.len <= 8 && forall k :: r.start <= k < r.start + r.len ==> gs[k] == ZERO
    ensures var t := CompressedAt(gs, r); IsIPv6(t) && !IsIPv4(t) && Free(t, '/')
  {
    CompressedGapped(gs, ws, r);
    GapText(StripAll(gs), ws, r.start, r.start + r.len);
    CompressedForm(gs, r);
    NotIPv4(CompressedAt(gs, r));
  }

  /** An IPv6 text is accepted as one, and never as IPv4 or with a slash. */
  lemma Text6Shape(v: Address, short6: bool)
    ensures var t := if short6 then Short6(Groups(v)) else Join(Groups(v), ':');
            IsIPv6(t) && !IsIPv4(t) && Free(t, '/')
  {
    GroupsMeaning(v);
    StrippedGroups(Words(v, 8));
    if !short6 {
      FullShape(Groups(v));
    } else if Runs(Groups(v), 0) == [] {
      FullShape(StripAll(Groups(v)));
    } else {
      RunsAreZero(Groups(v), 0);
      CompressedShape(Groups(v), Words(v, 8), Longest(Runs(Groups(v), 0)));
    }
  }

  lemma Text6RoundTrip(v: Address, short6: bool)
    ensures AddressOf(if short6 then Short6(Groups(v)) else Join(Groups(v), ':')) == Some(v)
  {
    GroupsMeaning(v);
    if short6 {
      ShortRoundTrip(Groups(v), Words(v, 8));
    } else {
      StrippedGroups(Words(v, 8));
      FullText(Groups(v), Words(v, 8));
    }
  }

  /** `(v >> 8 * i) & 0xff` for each i, by repeated division. */
  lemma OctetTerms(v: Address) returns (v1: nat, v2: nat, v3: nat, h: nat)
    ensures var o := Octets(v);
            && v == 256 * v1 + o[3] && v1 == 256 * v2 + o[2] && v2 == 256 * v3 + o[1] && v3 == 256 * h + o[0]
            && o[0] < 256 && o[1] < 256 && o[2] < 256 && o[3] < 256
  {
    v1 := v / 256;
    v2 := v1 / 256;
    v3 := v2 / 256;
    h := v3 / 256;
    ByteShift(v);
    ByteShift(v1);
    ByteShift(v2);
    ByteShift(v3);
    ShrShr(v, 8, 8);
    ShrShr(v, 16, 8);
  }

  lemma FourOctets(v: nat, v1: nat, v2: nat, v3: nat, h: nat, a: nat, b: nat, c: nat, d: nat)
    requires v == 256 * v1 + d && v1 == 256 * v2 + c && v2 == 256 * v3 + b && v3 == 256 * h + a
    requires a < 256 && b < 256 && c < 256 && d < 256
    requires MAPPED <= v <= MAPPED + 0xffff_ffff
    ensures FourBytes(a, b, c, d) + MAPPED == v
  {
    assert h * 0x1_0000_0000 + FourBytes(a, b, c, d) == v;
  }

  lemma QuadTexts(ns: seq<nat>)
    requires |ns| == 4 && forall i :: 0 <= i < 4 ==> ns[i] < 256
    ensures Split(Join(DecimalTexts(ns), '.'), '.') == DecimalTexts(ns)
    ensures IsIPv4Parts(DecimalTexts(ns)) && V4Value(DecimalTexts(ns)) == Uint32(ns)
    ensures Free(Join(DecimalTexts(ns), '.'), '/')
  {
    var ts := DecimalTexts(ns);
    forall i | 0 <= i < 4
      ensures IsOctet(ts[i]) && OctetValue(ts[i]) == ns[i] && Free(ts[i], '.') && Free(ts[i], '/')
    {
      NumeralRoundTrip(ns[i], Decimal);
      NumeralCanonical(ns[i], Decimal);
      OctetMeaning(ts[i]);
    }
    SplitJoin(ts, '.');
    JoinFree(ts, '.', '/');
    assert seq(4, i requires 0 <= i < 4 => OctetValue(ts[i])) == ns;
  }

  lemma OctetsFit(v: nat, o: seq<nat>, v1: nat, v2: nat, v3: nat, h: nat)
    requires |o| == 4 && MAPPED <= v <= MAPPED + 0xffff_ffff
    requires v == 256 * v1 + o[3] && v1 == 256 * v2 + o[2] && v2 == 256 * v3 + o[1] && v3 == 256 * h + o[0]
    requires o[0] < 256 && o[1] < 256 && o[2] < 256 && o[3] < 256
    ensures Uint32(o) + MAPPED == v && forall i :: 0 <= i < 4 ==> o[i] < 256
  {
    FourOctets(v, v1, v2, v3, h, o[0], o[1], o[2], o[3]);
  }

  lemma OctetsValue(v: Address)
    requires Is4(v)
    ensures Uint32(Octets(v)) + MAPPED == v
    ensures forall i :: 0 <= i < 4 ==> Octets(v)[i] < 256
  {
    Is4Range(v);
    var v1, v2, v3, h := OctetTerms(v);
    OctetsFit(v, Octets(v), v1, v2, v3, h);
  }

  lemma V4Denotes(s: string)
    requires IsIPv4(s)
    ensures AddressOf(s).Some? && AddressOf(s).value == V4Value(Split(s, '.')) + MAPPED
  {
  }

  lemma QuadRoundTrip(v: Address)
    requires Is4(v)
    ensures AddressOf(DottedQuad(v)) == Some(v)
    ensures IsIPv4(DottedQuad(v)) && Free(DottedQuad(v), '/')
  {
    OctetsValue(v);
    QuadTexts(Octets(v));
    V4Denotes(DottedQuad(v));
  }

  /** Parsing undoes printing: every 128-bit value, every form. */
  lemma TextRoundTrip(v: Address, short6: bool, force6: bool)
    ensures AddressOf(ToText(v, short6, force6)) == Some(v)
  {
    if Is4(v) && !force6 {
      QuadRoundTrip(v);
    } else {
      Text6RoundTrip(v, short6);
    }
  }

  // ----- The printed groups

  lemma {:induction false} StripZeros(s: string, k: nat, n: nat)
    requires k <= n && s != "" && (k == n || s[0] != '0')
    ensures Strip(Zeros(k) + s, n) == s
  {
    if k > 0 {
      assert (Zeros(k) + s)[1..] == Zeros(k - 1) + s;
      StripZeros(s, k - 1, n - 1);
    } else {
      assert Zeros(0) + s == s;
    }
  }

  lemma StrippedWord(w: nat)
    requires w < 65536
    ensures Strip(Padded(w, Hex, 4), 3) == Numeral(w, Hex)
  {
    Limits();
    PadNumeral(w, Hex, 4);
    NumeralLength(w, Hex, 4);
    NumeralCanonical(w, Hex);
    var s := Numeral(w, Hex);
    if |s| < 4 {
      StripZeros(s, 4 - |s|, 3);
    }
  }

  function HexTexts(ws: seq<nat>): seq<string> {
    seq(|ws|, i requires 0 <= i < |ws| => Numeral(ws[i], Hex))
  }

  /** The groups printed are the eight words, four digits each in the long form and without
      leading zeros in the short one (sections 4.1 and 4.3 of RFC 5952). */
  lemma PrintedGroups(v: Address)
    ensures Groups(v) == PaddedWords(Words(v, 8)) && StripAll(Groups(v)) == HexTexts(Words(v, 8))
    ensures WordsValue(Words(v, 8)) == v
  {
    GroupsMeaning(v);
    var ws := Words(v, 8);
    forall i | 0 <= i < 8
      ensures StripAll(Groups(v))[i] == HexTexts(ws)[i]
    {
      StrippedWord(ws[i]);
    }
  }

  // ----- What the short form compresses

  predicate ZeroRun(ws: seq<nat>, start: nat, len: nat) {
    start + len <= |ws| && forall k :: start <= k < start + len ==> ws[k] == 0
  }

  /** A longest run of at least two zero words, and the first one of its length. */
  ghost predicate FirstLongest(ws: seq<nat>, r: Run) {
    && 2 <= r.len && ZeroRun(ws, r.start, r.len)
    && forall s: nat, n: nat :: n >= 2 && ZeroRun(ws, s, n) ==> n < r.len || (n == r.len && r.start <= s)
  }

  ghost predicate HasZeroRun(ws: seq<nat>) {
    exists s: nat, n: nat :: n >= 2 && ZeroRun(ws, s, n)
  }

  predicate SortedRuns(rs: seq<Run>) {
    forall i, j :: 0 <= i < j < |rs| ==> rs[i].start < rs[j].start
  }

  lemma {:induction false} RunsSorted(gs: seq<string>, i: nat)
    requires i <= |gs|
    ensures SortedRuns(Runs(gs, i))
    decreases |gs| - i
  {
    if i == |gs| {
    } else {
      var n := RunLength(gs, i);
      var k := if n >= 2 then i + n else i + 1;
      RunsSorted(gs, k);
      assert forall j :: 0 <= j < |Runs(gs, k)| ==> Runs(gs, k)[j] in Runs(gs, k);
    }
  }

  lemma {:induction false} LongestIsFirstLongest(rs: seq<Run>) returns (i: nat)
    requires rs != []
    ensures i < |rs| && rs[i] == Longest(rs)
    ensures forall j :: 0 <= j < |rs| ==> rs[j].len <= rs[i].len
    ensures forall j :: 0 <= j < i ==> rs[j].len < rs[i].len
  {
    var n := |rs| - 1;
    if n == 0 {
      i := 0;
    } else {
      i := LongestIsFirstLongest(rs[..n]);
      assert forall j :: 0 <= j < n ==> rs[j] == rs[..n][j];
      if rs[n].len > rs[i].len {
        i := n;
      }
    }
  }

  lemma {:induction false} RunsCover(gs: seq<string>, i: nat, s: nat, n: nat)
    requires i <= s && n >= 2 && s + n <= |gs| && forall k :: s <= k < s + n ==> gs[k] == ZERO
    ensures exists r :: r in Runs(gs, i) && r.start <= s && s + n <= r.start + r.len
    decreases |gs| - i
  {
    var m := RunLength(gs, i);
    if m >= 2 && s < i + m {
      assert Run(i, m) in Runs(gs, i);
    } else {
      var k := if m >= 2 then i + m else i + 1;
      RunsCover(gs, k, s, n);
      var r :| r in Runs(gs, k) && r.start <= s && s + n <= r.start + r.len;
      assert r in Runs(gs, i);
    }
  }

  lemma LongestDominates(gs: seq<string>, s: nat, n: nat)
    requires n >= 2 && s + n <= |gs| && forall k :: s <= k < s + n ==> gs[k] == ZERO
    requires Runs(gs, 0) != []
    ensures var r := Longest(Runs(gs, 0)); n < r.len || (n == r.len && r.start <= s)
  {
    var rs := Runs(gs, 0);
    RunsSorted(gs, 0);
    var i := LongestIsFirstLongest(rs);
    RunsCover(gs, 0, s, n);
    var q :| q in rs && q.start <= s && s + n <= q.start + q.len;
    var j :| 0 <= j < |rs| && rs[j] == q;
  }

  lemma FirstOfRuns(ws: seq<nat>, gs: seq<string>)
    requires |ws| == |gs| && forall i :: 0 <= i < |ws| ==> (gs[i] == ZERO <==> ws[i] == 0)
    requires Runs(gs, 0) != []
    ensures FirstLongest(ws, Longest(Runs(gs, 0)))
  {
    RunsAreZero(gs, 0);
    forall s: nat, n: nat | n >= 2 && ZeroRun(ws, s, n)
      ensures var r := Longest(Runs(gs, 0)); n < r.len || (n == r.len && r.start <= s)
    {
      LongestDominates(gs, s, n);
    }
  }

  lemma RunsIffZeroRun(ws: seq<nat>, gs: seq<string>)
    requires |ws| == |gs| && forall i :: 0 <= i < |ws| ==> (gs[i] == ZERO <==> ws[i] == 0)
    ensures HasZeroRun(ws) <==> Runs(gs, 0) != []
  {
    if Runs(gs, 0) != [] {
      FirstOfRuns(ws, gs);
      assert ZeroRun(ws, Longest(Runs(gs, 0)).start, Longest(Runs(gs, 0)).len);
    } else if HasZeroRun(ws) {
      var s: nat, n: nat :| n >= 2 && ZeroRun(ws, s, n);
      RunsCover(gs, 0, s, n);
    }
  }

  /** The short form replaces the first longest run of at least two zero words, and
      replaces nothing exactly when no two adjacent words are zero. */
  lemma ShortFormCompressesFirstLongestRun(v: Address)
    ensures |Groups(v)| == 8
    ensures HasZeroRun(Words(v, 8)) ==>
              exists r: Run :: FirstLongest(Words(v, 8), r) && Short6(Groups(v)) == CompressedAt(Groups(v), r)
    ensures !HasZeroRun(Words(v, 8)) ==> Short6(Groups(v)) == Join(StripAll(Groups(v)), ':')
  {
    GroupsMeaning(v);
    StrippedGroups(Words(v, 8));
    RunsIffZeroRun(Words(v, 8), Groups(v));
    if Runs(Groups(v), 0) != [] {
      FirstOfRuns(Words(v, 8), Groups(v));
    }
  }
}
