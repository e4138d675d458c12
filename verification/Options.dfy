/** The dnscheck query options: dash-separated words of the last label before the zone. */
module Options {
  import opened Text
  import opened AsciiCase

  datatype Options = Options(
    random: string, compress: bool, truncate: bool, noTruncate: bool, badSig: bool,
    expiredSig: int, noSig: bool, rcode: int, nullIp: bool, txtFill: int)

  const EMPTY := Options("", false, false, false, false, 0, false, 0, false, 0)
  const NXDOMAIN := 3
  const REFUSED := 5
  const MAX_EXPIRED := 99999999
  const MAX_FILL := 4096

  // ----- Numbers

  const MAX_INT: int := 0x7fff_ffff_ffff_ffff

  function Clamp(n: int): int {
    if n > MAX_INT then MAX_INT else if n < -MAX_INT - 1 then -MAX_INT - 1 else n
  }

  predicate IsSign(c: char) {
    c == '+' || c == '-'
  }

  predicate AllDecimal(s: string) {
    s != "" && forall i :: 0 <= i < |s| ==> '0' <= s[i] <= '9'
  }

  lemma DecimalDigits(s: string)
    requires AllDecimal(s)
    ensures AllDigits(s, Decimal)
  {
  }

  /** Go's `strconv.Atoi` with its error ignored: zero for bad syntax, the nearest
      representable number when out of range. */
  function Atoi(s: string): int {
    var digits := if s != "" && IsSign(s[0]) then s[1..] else s;
    if !AllDecimal(digits) then 0
    else
      DecimalDigits(digits);
      var n: int := NumeralValue(digits, Decimal);
      Clamp(if s[0] == '-' then -n else n)
  }

  // ----- Words

  datatype Effect =
    | Compress | Truncate | NoTruncate
    | BadSig | ExpiredSig(seconds: int) | NoSig
    | Nxdomain | Refused | NullIp | TxtFill(size: int)
    | Random(hex: string)

  /** Effects of one group exclude each other. */
  datatype Group = Compression | Truncation | Signature | AnswerShape | Randomness

  function GroupOf(e: Effect): Group {
    match e
    case Compress => Compression
    case Truncate => Truncation
    case NoTruncate => Truncation
    case BadSig => Signature
    case ExpiredSig(_) => Signature
    case NoSig => Signature
    case Nxdomain => AnswerShape
    case Refused => AnswerShape
    case NullIp => AnswerShape
    case TxtFill(_) => AnswerShape
    case Random(_) => Randomness
  }

  predicate IsHexWord(s: string) {
    1 <= |s| <= 8 && forall i :: 0 <= i < |s| ==> IsDigit(s[i], Hex)
  }

  /** What a word means on its own, in any letter case; nothing for an invalid word. */
  function Meaning(s: string): Option<Effect> {
    var l := Lower(s);
    if l == "compress" then Some(Compress)
    else if l == "truncate" then Some(Truncate)
    else if l == "notruncate" then Some(NoTruncate)
    else if l == "badsig" then Some(BadSig)
    else if "expiredsig" <= l then
      if |s| == 10 then Some(ExpiredSig(86400))
      else if 1 <= Atoi(s[10..]) <= MAX_EXPIRED then Some(ExpiredSig(Atoi(s[10..]))) else None
    else if l == "nosig" then Some(NoSig)
    else if l == "nxdomain" then Some(Nxdomain)
    else if l == "refused" then Some(Refused)
    else if l == "nullip" then Some(NullIp)
    else if "txtfill" <= l then
      if 1 <= Atoi(s[7..]) <= MAX_FILL then Some(TxtFill(Atoi(s[7..]))) else None
    else if IsHexWord(s) then Some(Random(l))
    else None
  }

  predicate Used(o: Options, g: Group) {
    match g
    case Compression => o.compress
    case Truncation => o.truncate || o.noTruncate
    case Signature => o.badSig || o.expiredSig != 0 || o.noSig
    case AnswerShape => o.rcode != 0 || o.nullIp || o.txtFill != 0
    case Randomness => |o.random| > 0
  }

  function Apply(o: Options, e: Effect): Options {
    match e
    case Compress => o.(compress := true)
    case Truncate => o.(truncate := true)
    case NoTruncate => o.(noTruncate := true)
    case BadSig => o.(badSig := true)
    case ExpiredSig(n) => o.(expiredSig := n)
    case NoSig => o.(noSig := true)
    case Nxdomain => o.(rcode := NXDOMAIN)
    case Refused => o.(rcode := REFUSED)
    case NullIp => o.(nullIp := true)
    case TxtFill(n) => o.(txtFill := n)
    case Random(h) => o.(random := h)
  }

  function Step(o: Options, s: string): Option<Options> {
    match Meaning(s)
    case None => None
    case Some(e) => if Used(o, GroupOf(e)) then None else Some(Apply(o, e))
  }

  function Fold(o: Options, words: seq<string>): Option<Options>
    decreases |words|
  {
    if words == [] then Some(o)
    else
      match Step(o, words[0])
      case None => None
      case Some(p) => Fold(p, words[1..])
  }

  // ----- The parser

  function Trimmed(sub: string): string {
    if sub != "" && sub[|sub| - 1] == '.' then sub[..|sub| - 1] else sub
  }

  /** The dash-separated words of the last label; none for an empty text. */
  function Words(sub: string): seq<string> {
    var s := Trimmed(sub);
    if s == "" then [] else Split(AfterLastDot(s), '-')
  }

  method IndexByte(s: string, c: char) returns (i: int)
    ensures i < 0 ==> Free(s, c)
    ensures i >= 0 ==> i < |s| && s[i] == c && Free(s[..i], c)
  {
    i := 0;
    while i < |s|
      invariant 0 <= i <= |s| && Free(s[..i], c)
    {
      if s[i] == c {
        return;
      }
      assert s[..i + 1] == s[..i] + [s[i]];
      i := i + 1;
    }
    assert s[..i] == s;
    i := -1;
  }

  lemma Keywords()
    ensures Lower("compress") == "compress" && Lower("truncate") == "truncate" && Lower("notruncate") == "notruncate"
    ensures Lower("badsig") == "badsig" && Lower("expiredsig") == "expiredsig" && Lower("nosig") == "nosig"
    ensures Lower("nxdomain") == "nxdomain" && Lower("refused") == "refused" && Lower("nullip") == "nullip"
              && Lower("txtfill") == "txtfill"
  {
  }

  lemma PrefixFold(s: string, word: string)
    requires Lower(word) == word
    ensures HasPrefixFold(s, word) <==> word <= Lower(s)
  {
    if |word| <= |s| {
      assert Lower(s[..|word|]) == Lower(s)[..|word|];
    }
  }

  method CheckHexWord(s: string) returns (r: bool)
    ensures r <==> IsHexWord(s)
  {
    if |s| < 1 || |s| > 8 {
      return false;
    }
    for i := 0 to |s|
      invariant forall j :: 0 <= j < i ==> IsDigit(s[j], Hex)
    {
      var c := s[i];
      if c >= '0' && c <= '9' {
      } else if c >= 'A' && c <= 'F' {
      } else if c >= 'a' && c <= 'f' {
      } else {
        return false;
      }
    }
    return true;
  }

  method ApplyLongWord(o: Options, s: string) returns (r: Option<Options>)
    requires Lower(s) != "compress" && Lower(s) != "truncate" && Lower(s) != "notruncate" && Lower(s) != "badsig"
    requires Lower(s) != "nosig" && Lower(s) != "nxdomain" && Lower(s) != "refused" && Lower(s) != "nullip"
    requires !("expiredsig" <= Lower(s))
    ensures r == Step(o, s)
  {
    Keywords();
    var b := HasPrefixAsciiIgnoreCase(s, "txtfill");
    PrefixFold(s, "txtfill");
    if b {
      if o.rcode != 0 || o.nullIp || o.txtFill != 0 {
        return None;
      }
      var n := Atoi(s[7..]);
      return if n < 1 || n > MAX_FILL then None else Some(o.(txtFill := n));
    }
    if |o.random| > 0 {
      return None;
    }
    b := CheckHexWord(s);
    if !b {
      return None;
    }
    var lowered := ToLowerAscii(s);
    r := Some(o.(random := lowered));
  }

  method ApplyOtherWord(o: Options, s: string) returns (r: Option<Options>)
    requires Lower(s) != "compress" && Lower(s) != "truncate" && Lower(s) != "notruncate" && Lower(s) != "badsig"
    requires !("expiredsig" <= Lower(s))
    ensures r == Step(o, s)
  {
    Keywords();
    var b := EqualsAsciiIgnoreCase(s, "nosig");
    if b {
      return if o.badSig || o.expiredSig != 0 || o.noSig then None else Some(o.(noSig := true));
    }
    b := EqualsAsciiIgnoreCase(s, "nxdomain");
    if b {
      return if o.rcode != 0 || o.nullIp || o.txtFill != 0 then None else Some(o.(rcode := NXDOMAIN));
    }
    b := EqualsAsciiIgnoreCase(s, "refused");
    if b {
      return if o.rcode != 0 || o.nullIp || o.txtFill != 0 then None else Some(o.(rcode := REFUSED));
    }
    b := EqualsAsciiIgnoreCase(s, "nullip");
    if b {
      return if o.rcode != 0 || o.nullIp || o.txtFill != 0 then None else Some(o.(nullIp := true));
    }
    r := ApplyLongWord(o, s);
  }

  method ApplyPrefixWord(o: Options, s: string) returns (r: Option<Options>)
    requires Lower(s) != "compress" && Lower(s) != "truncate" && Lower(s) != "notruncate" && Lower(s) != "badsig"
    ensures r == Step(o, s)
  {
    Keywords();
    var b := HasPrefixAsciiIgnoreCase(s, "expiredsig");
    PrefixFold(s, "expiredsig");
    if b {
      if o.badSig || o.expiredSig != 0 || o.noSig {
        return None;
      }
      if |s| > 10 {
        var n := Atoi(s[10..]);
        return if n < 1 || n > MAX_EXPIRED then None else Some(o.(expiredSig := n));
      }
      return Some(o.(expiredSig := 86400));
    }
    r := ApplyOtherWord(o, s);
  }

  /** The switch over one word, with each case's exclusion check. */
  method ApplyWord(o: Options, s: string) returns (r: Option<Options>)
    ensures r == Step(o, s)
  {
    Keywords();
    var b := EqualsAsciiIgnoreCase(s, "compress");
    if b {
      return if o.compress then None else Some(o.(compress := true));
    }
    b := EqualsAsciiIgnoreCase(s, "truncate");
    if b {
      return if o.truncate || o.noTruncate then None else Some(o.(truncate := true));
    }
    b := EqualsAsciiIgnoreCase(s, "notruncate");
    if b {
      return if o.truncate || o.noTruncate then None else Some(o.(noTruncate := true));
    }
    b := EqualsAsciiIgnoreCase(s, "badsig");
    if b {
      return if o.badSig || o.expiredSig != 0 || o.noSig then None else Some(o.(badSig := true));
    }
    r := ApplyPrefixWord(o, s);
  }

  lemma SplitFirst(a: string, b: string, c: char)
    requires Free(a, c)
    ensures Split(a + [c] + b, c) == [a] + Split(b, c)
  {
    SplitAtSeparator(a, b, c);
    SplitFree(a, c);
  }

  /** The text before the first dash and what follows it; all of it when there is none. */
  method NextWord(sub: string) returns (s: string, rest: Option<string>)
    ensures match rest
            case None => Split(sub, '-') == [s]
            case Some(t) => Split(sub, '-') == [s] + Split(t, '-') && |t| < |sub|
  {
    var i := IndexByte(sub, '-');
    if i < 0 {
      SplitFree(sub, '-');
      return sub, None;
    }
    s := sub[..i];
    rest := Some(sub[i + 1..]);
    assert sub == s + ['-'] + sub[i + 1..];
    SplitFirst(s, sub[i + 1..], '-');
  }

  lemma FoldFirst(o: Options, s: string, words: seq<string>)
    ensures Fold(o, [s] + words) == match Step(o, s) case None => None case Some(p) => Fold(p, words)
  {
    assert ([s] + words)[1..] == words;
  }

  /** The loop takes words off the front; `None` is the rejected request. */
  method ParseOptions(input: string) returns (r: Option<Options>)
    ensures r == Fold(EMPTY, Words(input))
  {
    var sub := input;
    if |sub| > 0 && sub[|sub| - 1] == '.' {
      sub := sub[..|sub| - 1];
    }
    if |sub| == 0 {
      return Some(EMPTY);
    }
    sub := LastLabel(sub);
    var o := EMPTY;
    while true
      invariant Fold(o, Split(sub, '-')) == Fold(EMPTY, Words(input))
      decreases |sub|
    {
      var s, rest := NextWord(sub);
      FoldFirst(o, s, if rest.None? then [] else Split(rest.value, '-'));
      assert [s] + [] == [s];
      var next := ApplyWord(o, s);
      if next.None? {
        return None;
      }
      o := next.value;
      if rest.None? {
        return Some(o);
      }
      sub := rest.value;
    }
  }

  // ----- Order and letter case do not matter

  function Bind(r: Option<Options>, s: string): Option<Options> {
    match r
    case None => None
    case Some(o) => Step(o, s)
  }

  /** The number or text an effect carries is not the unset value. */
  predicate Proper(e: Effect) {
    && (e.ExpiredSig? ==> 1 <= e.seconds <= MAX_EXPIRED)
    && (e.TxtFill? ==> 1 <= e.size <= MAX_FILL)
    && (e.Random? ==> 1 <= |e.hex| <= 8)
  }

  lemma MeaningIsProper(s: string)
    ensures Meaning(s).Some? ==> Proper(Meaning(s).value)
  {
  }

  lemma ApplyUses(o: Options, a: Effect, g: Group)
    requires Proper(a)
    ensures Used(Apply(o, a), g) <==> Used(o, g) || GroupOf(a) == g
  {
  }

  // The fields an effect sets belong to its group, so effects of two groups commute.

  function CompressionPart(o: Options): bool {
    o.compress
  }

  function TruncationPart(o: Options): (bool, bool) {
    (o.truncate, o.noTruncate)
  }

  function SignaturePart(o: Options): (bool, int, bool) {
    (o.badSig, o.expiredSig, o.noSig)
  }

  function AnswerPart(o: Options): (int, bool, int) {
    (o.rcode, o.nullIp, o.txtFill)
  }

  /** The parts of o, with this group's taken from p. */
  predicate SetsOnly(o: Options, g: Group, p: Options) {
    && (g != Compression ==> CompressionPart(p) == CompressionPart(o))
    && (g != Truncation ==> TruncationPart(p) == TruncationPart(o))
    && (g != Signature ==> SignaturePart(p) == SignaturePart(o))
    && (g != AnswerShape ==> AnswerPart(p) == AnswerPart(o))
    && (g != Randomness ==> p.random == o.random)
  }

  predicate SamePart(g: Group, p: Options, q: Options) {
    match g
    case Compression => CompressionPart(p) == CompressionPart(q)
    case Truncation => TruncationPart(p) == TruncationPart(q)
    case Signature => SignaturePart(p) == SignaturePart(q)
    case AnswerShape => AnswerPart(p) == AnswerPart(q)
    case Randomness => p.random == q.random
  }

  lemma ApplySetsOnly(o: Options, e: Effect)
    ensures SetsOnly(o, GroupOf(e), Apply(o, e))
  {
  }

  /** What an effect makes of its own group does not depend on the other groups. */
  lemma ApplySetsAlike(o: Options, p: Options, e: Effect)
    requires SamePart(GroupOf(e), o, p)
    ensures SamePart(GroupOf(e), Apply(o, e), Apply(p, e))
  {
  }

  lemma OtherPartSame(o: Options, g: Group, p: Options, h: Group)
    requires SetsOnly(o, g, p) && g != h
    ensures SamePart(h, o, p)
  {
  }

  /** Setting one group and then another, in both orders. */
  lemma PartsCommute(o: Options, g: Group, h: Group, og: Options, oh: Options, ogh: Options, ohg: Options)
    requires g != h && SetsOnly(o, g, og) && SetsOnly(o, h, oh) && SetsOnly(og, h, ogh) && SetsOnly(oh, g, ohg)
    requires SamePart(g, og, ohg) && SamePart(h, oh, ogh)
    ensures ogh == ohg
  {
  }

  lemma ApplyCommutes(o: Options, a: Effect, b: Effect)
    requires GroupOf(a) != GroupOf(b)
    ensures Apply(Apply(o, a), b) == Apply(Apply(o, b), a)
  {
    var oa, ob := Apply(o, a), Apply(o, b);
    ApplySetsOnly(o, a);
    ApplySetsOnly(o, b);
    ApplySetsOnly(oa, b);
    ApplySetsOnly(ob, a);
    OtherPartSame(o, GroupOf(b), ob, GroupOf(a));
    OtherPartSame(o, GroupOf(a), oa, GroupOf(b));
    ApplySetsAlike(o, ob, a);
    ApplySetsAlike(o, oa, b);
    PartsCommute(o, GroupOf(a), GroupOf(b), oa, ob, Apply(oa, b), Apply(ob, a));
  }

  lemma StepsCommute(o: Options, a: string, b: string)
    ensures Bind(Step(o, a), b) == Bind(Step(o, b), a)
  {
    if Meaning(a).Some? && Meaning(b).Some? {
      var e, f := Meaning(a).value, Meaning(b).value;
      MeaningIsProper(a);
      MeaningIsProper(b);
      ApplyUses(o, e, GroupOf(f));
      ApplyUses(o, f, GroupOf(e));
      if GroupOf(e) != GroupOf(f) {
        ApplyCommutes(o, e, f);
      }
    }
  }

  lemma {:induction false} MoveToFront(o: Options, p: seq<string>, s: string, q: seq<string>)
    ensures Fold(o, p + [s] + q) == Fold(o, [s] + p + q)
    decreases |p|
  {
    if p == [] {
      assert p + [s] + q == [s] + p + q;
    } else {
      var rest := p[1..] + [s] + q;
      assert (p + [s] + q)[1..] == rest;
      assert ([s] + p + q)[1..] == p + q && (p + q)[1..] == p[1..] + q;
      assert ([s] + p[1..] + q)[1..] == p[1..] + q;
      StepsCommute(o, p[0], s);
      if Step(o, p[0]).Some? {
        MoveToFront(Step(o, p[0]).value, p[1..], s, q);
      } else if Step(o, s).Some? {
        assert Fold(Step(o, s).value, p + q) == None;
      }
    }
  }

  lemma Occurrence(a: seq<string>, b: seq<string>) returns (k: nat)
    requires a != [] && multiset(a) == multiset(b)
    ensures k < |b| && b[k] == a[0] && multiset(a[1..]) == multiset(b[..k] + b[k + 1..])
  {
    var s := a[0];
    assert a == [s] + a[1..];
    assert s in multiset(b);
    k :| 0 <= k < |b| && b[k] == s;
    assert b == b[..k] + [s] + b[k + 1..];
    assert multiset(b) == multiset(b[..k]) + multiset([s]) + multiset(b[k + 1..]);
    assert multiset(a) == multiset([s]) + multiset(a[1..]);
    assert multiset(b[..k] + b[k + 1..]) == multiset(b) - multiset([s]) == multiset(a[1..]);
  }

  /** The outcome depends on the multiset of words only. */
  lemma {:induction false} OrderIndependent(o: Options, a: seq<string>, b: seq<string>)
    requires multiset(a) == multiset(b)
    ensures Fold(o, a) == Fold(o, b)
    decreases |a|
  {
    if a == [] {
      assert |b| == |multiset(b)| == 0;
    } else {
      var s := a[0];
      var k := Occurrence(a, b);
      var p, q := b[..k], b[k + 1..];
      assert b == p + [s] + q;
      MoveToFront(o, p, s, q);
      assert ([s] + p + q)[1..] == p + q;
      if Step(o, s).Some? {
        OrderIndependent(Step(o, s).value, a[1..], p + q);
      }
    }
  }

  lemma DecimalFold(s: string)
    ensures AllDecimal(Lower(s)) <==> AllDecimal(s)
    ensures AllDecimal(s) ==> Lower(s) == s
  {
    assert forall i :: 0 <= i < |s| ==> ('0' <= s[i] <= '9' <==> '0' <= Lower(s)[i] <= '9');
  }

  lemma AtoiFold(s: string)
    ensures Atoi(Lower(s)) == Atoi(s)
  {
    DecimalFold(s);
    if s != "" && IsSign(s[0]) {
      DecimalFold(s[1..]);
      assert Lower(s)[1..] == Lower(s[1..]);
    }
  }

  lemma SuffixFold(s: string, n: nat)
    ensures n <= |s| ==> Atoi(Lower(s)[n..]) == Atoi(s[n..])
  {
    if n <= |s| {
      assert Lower(s[n..]) == Lower(s)[n..];
      AtoiFold(s[n..]);
    }
  }

  lemma HexFold(s: string)
    ensures IsHexWord(Lower(s)) <==> IsHexWord(s)
  {
    assert forall i :: 0 <= i < |s| ==> (IsDigit(Lower(s)[i], Hex) <==> IsDigit(s[i], Hex));
  }

  lemma MeaningFold(s: string)
    ensures Meaning(Lower(s)) == Meaning(s)
  {
    LowerIdempotent(s);
    SuffixFold(s, 10);
    SuffixFold(s, 7);
    HexFold(s);
  }

  lemma {:induction false} FoldFold(o: Options, words: seq<string>)
    ensures Fold(o, LowerAll(words)) == Fold(o, words)
    decreases |words|
  {
    if words == [] {
    } else {
      MeaningFold(words[0]);
      assert LowerAll(words)[1..] == LowerAll(words[1..]);
      if Step(o, words[0]).Some? {
        FoldFold(Step(o, words[0]).value, words[1..]);
      }
    }
  }

  /** Two names whose last labels have the same words, in any order and letter case, get
      the same options or are both rejected. */
  lemma OptionsDependOnWordsOnly(a: string, b: string)
    requires multiset(LowerAll(Words(a))) == multiset(LowerAll(Words(b)))
    ensures Fold(EMPTY, Words(a)) == Fold(EMPTY, Words(b))
  {
    FoldFold(EMPTY, Words(a));
    FoldFold(EMPTY, Words(b));
    OrderIndependent(EMPTY, LowerAll(Words(a)), LowerAll(Words(b)));
  }

  // ----- What is accepted

  predicate Compatible(words: seq<string>) {
    && (forall i :: 0 <= i < |words| ==> Meaning(words[i]).Some?)
    && (forall i, j :: 0 <= i < j < |words| ==> GroupOf(Meaning(words[i]).value) != GroupOf(Meaning(words[j]).value))
  }

  predicate Unused(o: Options, words: seq<string>) {
    forall i :: 0 <= i < |words| && Meaning(words[i]).Some? ==> !Used(o, GroupOf(Meaning(words[i]).value))
  }

  lemma AcceptStep(o: Options, p: Options, words: seq<string>, e: Effect)
    requires words != [] && Meaning(words[0]) == Some(e) && !Used(o, GroupOf(e))
    requires forall g: Group :: Used(p, g) <==> Used(o, g) || GroupOf(e) == g
    ensures Compatible(words[1..]) && Unused(p, words[1..]) <==> Compatible(words) && Unused(o, words)
  {
    var rest := words[1..];
    assert forall i :: 0 < i < |words| ==> words[i] == rest[i - 1];
    assert forall i :: 0 <= i < |rest| ==> rest[i] == words[i + 1];
  }

  lemma {:induction false} FoldAccepts(o: Options, words: seq<string>)
    ensures Fold(o, words).Some? <==> Compatible(words) && Unused(o, words)
    decreases |words|
  {
    if words == [] {
    } else {
      var rest := words[1..];
      assert forall i :: 0 < i < |words| ==> words[i] == rest[i - 1];
      if Step(o, words[0]).Some? {
        var e := Meaning(words[0]).value;
        var p := Apply(o, e);
        MeaningIsProper(words[0]);
        FoldAccepts(p, rest);
        forall g: Group
          ensures Used(p, g) <==> Used(o, g) || GroupOf(e) == g
        {
          ApplyUses(o, e, g);
        }
        AcceptStep(o, p, words, e);
      }
    }
  }

  /** A name is accepted exactly when every word is valid and no group is used twice. */
  lemma AcceptedExactly(sub: string)
    ensures Fold(EMPTY, Words(sub)).Some? <==> Compatible(Words(sub))
  {
    FoldAccepts(EMPTY, Words(sub));
  }

  function Count(b: bool): nat {
    if b then 1 else 0
  }

  predicate SignatureFits(o: Options) {
    Count(o.badSig) + Count(o.expiredSig != 0) + Count(o.noSig) <= 1 && 0 <= o.expiredSig <= MAX_EXPIRED
  }

  predicate AnswerFits(o: Options) {
    && Count(o.rcode != 0) + Count(o.nullIp) + Count(o.txtFill != 0) <= 1
    && (o.rcode == 0 || o.rcode == NXDOMAIN || o.rcode == REFUSED) && 0 <= o.txtFill <= MAX_FILL
  }

  /** At most one option of each exclusive group, and every number in its range. */
  predicate WellFormed(o: Options) {
    Count(o.truncate) + Count(o.noTruncate) <= 1 && SignatureFits(o) && AnswerFits(o) && |o.random| <= 8
  }

  lemma SignatureStaysFit(o: Options, e: Effect)
    requires SignatureFits(o) && Proper(e) && !Used(o, GroupOf(e))
    ensures SignatureFits(Apply(o, e))
  {
    if GroupOf(e) != Signature {
      ApplySetsOnly(o, e);
    }
  }

  lemma AnswerStaysFit(o: Options, e: Effect)
    requires AnswerFits(o) && Proper(e) && !Used(o, GroupOf(e))
    ensures AnswerFits(Apply(o, e))
  {
    if GroupOf(e) != AnswerShape {
      ApplySetsOnly(o, e);
    }
  }

  lemma ApplyIsWellFormed(o: Options, e: Effect)
    requires WellFormed(o) && Proper(e) && !Used(o, GroupOf(e))
    ensures WellFormed(Apply(o, e))
  {
    SignatureStaysFit(o, e);
    AnswerStaysFit(o, e);
    ApplySetsOnly(o, e);
  }

  lemma {:induction false} FoldIsWellFormed(o: Options, words: seq<string>)
    requires WellFormed(o)
    ensures Fold(o, words).Some? ==> WellFormed(Fold(o, words).value)
    decreases |words|
  {
    if words != [] && Step(o, words[0]).Some? {
      MeaningIsProper(words[0]);
      ApplyIsWellFormed(o, Meaning(words[0]).value);
      FoldIsWellFormed(Step(o, words[0]).value, words[1..]);
    } else {
    }
  }

  /** The option is set. */
  predicate Shows(o: Options, e: Effect) {
    match e
    case Compress => o.compress
    case Truncate => o.truncate
    case NoTruncate => o.noTruncate
    case BadSig => o.badSig
    case ExpiredSig(n) => o.expiredSig == n != 0
    case NoSig => o.noSig
    case Nxdomain => o.rcode == NXDOMAIN
    case Refused => o.rcode == REFUSED
    case NullIp => o.nullIp
    case TxtFill(n) => o.txtFill == n != 0
    case Random(h) => o.random == h != ""
  }

  lemma ShowsApplied(o: Options, f: Effect, e: Effect)
    requires !Used(o, GroupOf(f)) && Proper(f)
    ensures Shows(Apply(o, f), e) <==> Shows(o, e) || e == f
  {
  }

  lemma {:induction false} FoldShows(o: Options, words: seq<string>, e: Effect)
    requires Fold(o, words).Some?
    ensures Shows(Fold(o, words).value, e) <==>
              Shows(o, e) || exists i :: 0 <= i < |words| && Meaning(words[i]) == Some(e)
    decreases |words|
  {
    if words == [] {
    } else {
      var f := Meaning(words[0]).value;
      MeaningIsProper(words[0]);
      ShowsApplied(o, f, e);
      FoldShows(Apply(o, f), words[1..], e);
      assert forall i :: 0 < i < |words| ==> words[i] == words[1..][i - 1];
      if exists i :: 0 <= i < |words[1..]| && Meaning(words[1..][i]) == Some(e) {
        var i :| 0 <= i < |words[1..]| && Meaning(words[1..][i]) == Some(e);
        assert Meaning(words[i + 1]) == Some(e);
      }
    }
  }

  /** The accepted options show exactly what the words mean, and are well formed. */
  lemma ResultShowsWords(sub: string, e: Effect)
    requires Fold(EMPTY, Words(sub)).Some?
    ensures var o := Fold(EMPTY, Words(sub)).value;
            WellFormed(o) && (Shows(o, e) <==> exists i :: 0 <= i < |Words(sub)| && Meaning(Words(sub)[i]) == Some(e))
  {
    FoldIsWellFormed(EMPTY, Words(sub));
    FoldShows(EMPTY, Words(sub), e);
  }

  // ----- Spelled out

  /** The words of a name are the dash-separated pieces of its last label, whatever labels
      come before it and with or without a dot at the end. */
  lemma WordsOfName(front: string, words: seq<string>)
    requires front == "" || front[|front| - 1] == '.'
    requires words != [] && forall w :: w in words ==> Free(w, '-') && Free(w, '.')
    requires Join(words, '-') != ""
    ensures Words(front + Join(words, '-')) == words && Words(front + Join(words, '-') + ".") == words
  {
    var leaf := Join(words, '-');
    JoinFree(words, '-', '.');
    SplitJoin(words, '-');
    AfterLastDotFree(front, leaf);
    assert leaf[|leaf| - 1] in leaf;
    assert Trimmed(front + leaf) == front + leaf;
    assert (front + leaf + ".")[..|front + leaf|] == front + leaf;
  }

  lemma AtoiOfDigits(s: string)
    requires AllDecimal(s) && AllDigits(s, Decimal) && NumeralValue(s, Decimal) <= MAX_INT
    ensures Atoi(s) == NumeralValue(s, Decimal) && Atoi("+" + s) == Atoi(s) && Atoi("-" + s) == -Atoi(s)
  {
    assert ("+" + s)[1..] == s && ("-" + s)[1..] == s;
  }

  lemma DecimalIsAllDecimal(s: string)
    requires s != "" && AllDigits(s, Decimal)
    ensures AllDecimal(s)
  {
    forall i | 0 <= i < |s|
      ensures '0' <= s[i] <= '9'
    {
      assert IsDigit(s[i], Decimal);
    }
  }

  /** Numerals read back with either sign; a text that is no numeral counts as zero. */
  lemma AtoiMeaning(n: nat, s: string)
    requires n <= 0x7fff_ffff_ffff_ffff
    ensures Atoi(Numeral(n, Decimal)) == n && Atoi("-" + Numeral(n, Decimal)) == -(n as int)
    ensures Atoi(s) != 0 ==> AllDecimal(s) || (s != "" && IsSign(s[0]) && AllDecimal(s[1..]))
  {
    NumeralRoundTrip(n, Decimal);
    DecimalIsAllDecimal(Numeral(n, Decimal));
    AtoiOfDigits(Numeral(n, Decimal));
  }

  /** A keyword followed by a number from 1 to max. */
  predicate IsNumbered(s: string, word: string, max: int, n: int) {
    word <= Lower(s) && 1 <= n <= max && Atoi(s[|word|..]) == n
  }

  /** Each word and its effect. */
  lemma KeywordEffects(s: string)
    ensures var l := Lower(s);
            && (Meaning(s) == Some(Compress) <==> l == "compress")
            && (Meaning(s) == Some(Truncate) <==> l == "truncate")
            && (Meaning(s) == Some(NoTruncate) <==> l == "notruncate")
            && (Meaning(s) == Some(BadSig) <==> l == "badsig")
            && (Meaning(s) == Some(NoSig) <==> l == "nosig")
            && (Meaning(s) == Some(Nxdomain) <==> l == "nxdomain")
            && (Meaning(s) == Some(Refused) <==> l == "refused")
            && (Meaning(s) == Some(NullIp) <==> l == "nullip")
  {
  }

  lemma ExpiredEffect(s: string, n: int)
    ensures Meaning(s) == Some(ExpiredSig(n)) <==>
            (Lower(s) == "expiredsig" && n == 86400) || (|s| > 10 && IsNumbered(s, "expiredsig", 99999999, n))
  {
    var l := Lower(s);
    assert "expiredsig" <= l ==> l[0] == 'e' && (|s| == 10 ==> l == "expiredsig");
  }

  lemma FillEffect(s: string, n: int)
    ensures Meaning(s) == Some(TxtFill(n)) <==> IsNumbered(s, "txtfill", 4096, n)
  {
    var l := Lower(s);
    assert "txtfill" <= l ==> l[0] == 't' && l[1] == 'x';
  }

  /** The two keywords that take a number. */
  lemma NumberedEffects(s: string, n: int)
    ensures Meaning(s) == Some(ExpiredSig(n)) <==>
            (Lower(s) == "expiredsig" && n == 86400) || (|s| > 10 && IsNumbered(s, "expiredsig", 99999999, n))
    ensures Meaning(s) == Some(TxtFill(n)) <==> IsNumbered(s, "txtfill", 4096, n)
  {
    ExpiredEffect(s, n);
    FillEffect(s, n);
  }

  predicate IsHexChar(c: char) {
    c in "0123456789abcdefABCDEF"
  }

  lemma HexDigitListed(c: char)
    ensures IsDigit(c, Hex) <==> IsHexChar(c)
  {
    assert IsDigit(c, Hex) ==> c in "0123456789abcdefABCDEF";
  }

  /** Some character of the word is no hex digit. */
  lemma NotHex(s: string, word: string, i: nat)
    requires IsHexWord(s) && i < |word| && !IsDigit(word[i], Hex)
    ensures !(word <= Lower(s)) && word != Lower(s)
  {
    assert i < |s| ==> IsDigit(Lower(s)[i], Hex);
  }

  lemma HexIsNoKeyword(s: string)
    requires IsHexWord(s)
    ensures Meaning(s) == Some(Random(Lower(s)))
  {
    NotHex(s, "compress", 1);
    NotHex(s, "truncate", 0);
    NotHex(s, "notruncate", 0);
    NotHex(s, "badsig", 3);
    NotHex(s, "expiredsig", 1);
    NotHex(s, "nosig", 0);
    NotHex(s, "nxdomain", 0);
    NotHex(s, "refused", 0);
    NotHex(s, "nullip", 0);
    NotHex(s, "txtfill", 0);
  }

  /** One to eight hex digits, in any letter case. */
  predicate IsRandomWord(s: string) {
    1 <= |s| <= 8 && forall i :: 0 <= i < |s| ==> IsHexChar(s[i])
  }

  lemma RandomEffect(s: string, h: string)
    ensures Meaning(s) == Some(Random(h)) <==> IsRandomWord(s) && h == Lower(s)
  {
    forall i | 0 <= i < |s|
      ensures IsDigit(s[i], Hex) <==> IsHexChar(s[i])
    {
      HexDigitListed(s[i]);
    }
    if IsHexWord(s) {
      HexIsNoKeyword(s);
    }
  }

  /** Which effects exclude each other: the same one twice, the two truncations, the three
      kinds of signature, and the four special answers. */
  lemma GroupMeaning(e: Effect, f: Effect)
    ensures GroupOf(e) == GroupOf(f) <==>
            || (e.Compress? && f.Compress?)
            || ((e.Truncate? || e.NoTruncate?) && (f.Truncate? || f.NoTruncate?))
            || ((e.BadSig? || e.ExpiredSig? || e.NoSig?) && (f.BadSig? || f.ExpiredSig? || f.NoSig?))
            || ((e.Nxdomain? || e.Refused? || e.NullIp? || e.TxtFill?)
                && (f.Nxdomain? || f.Refused? || f.NullIp? || f.TxtFill?))
            || (e.Random? && f.Random?)
  {
  }

  ghost predicate HasWord(words: seq<string>, word: string) {
    exists i :: 0 <= i < |words| && Lower(words[i]) == word
  }

  lemma ShowsKeyword(words: seq<string>, o: Options, e: Effect, word: string)
    requires Fold(EMPTY, words) == Some(o)
    requires forall s :: Meaning(s) == Some(e) <==> Lower(s) == word
    ensures Shows(o, e) <==> HasWord(words, word)
  {
    FoldShows(EMPTY, words, e);
    if HasWord(words, word) {
      var i :| 0 <= i < |words| && Lower(words[i]) == word;
      assert Meaning(words[i]) == Some(e);
    }
  }

  lemma SwitchFields(words: seq<string>, o: Options)
    requires Fold(EMPTY, words) == Some(o)
    ensures o.compress <==> HasWord(words, "compress")
    ensures o.truncate <==> HasWord(words, "truncate")
    ensures o.noTruncate <==> HasWord(words, "notruncate")
    ensures o.badSig <==> HasWord(words, "badsig")
  {
    forall s
      ensures Meaning(s) == Some(Compress) <==> Lower(s) == "compress"
      ensures Meaning(s) == Some(Truncate) <==> Lower(s) == "truncate"
      ensures Meaning(s) == Some(NoTruncate) <==> Lower(s) == "notruncate"
      ensures Meaning(s) == Some(BadSig) <==> Lower(s) == "badsig"
    {
      KeywordEffects(s);
    }
    ShowsKeyword(words, o, Compress, "compress");
    ShowsKeyword(words, o, Truncate, "truncate");
    ShowsKeyword(words, o, NoTruncate, "notruncate");
    ShowsKeyword(words, o, BadSig, "badsig");
  }

  lemma NullFields(words: seq<string>, o: Options)
    requires Fold(EMPTY, words) == Some(o)
    ensures o.noSig <==> HasWord(words, "nosig")
    ensures o.nullIp <==> HasWord(words, "nullip")
  {
    forall s
      ensures Meaning(s) == Some(NoSig) <==> Lower(s) == "nosig"
      ensures Meaning(s) == Some(NullIp) <==> Lower(s) == "nullip"
    {
      KeywordEffects(s);
    }
    ShowsKeyword(words, o, NoSig, "nosig");
    ShowsKeyword(words, o, NullIp, "nullip");
  }

  lemma CodeFields(words: seq<string>, o: Options)
    requires Fold(EMPTY, words) == Some(o)
    ensures o.rcode == 3 <==> HasWord(words, "nxdomain")
    ensures o.rcode == 5 <==> HasWord(words, "refused")
  {
    forall s
      ensures Meaning(s) == Some(Nxdomain) <==> Lower(s) == "nxdomain"
      ensures Meaning(s) == Some(Refused) <==> Lower(s) == "refused"
    {
      KeywordEffects(s);
    }
    ShowsKeyword(words, o, Nxdomain, "nxdomain");
    ShowsKeyword(words, o, Refused, "refused");
  }

  /** The keyword alone, worth the standard number, or the keyword with the number n. */
  predicate IsNumberWord(s: string, word: string, max: int, standard: int, n: int) {
    (Lower(s) == word && n == standard) || (|s| > |word| && IsNumbered(s, word, max, n))
  }

  ghost predicate HasNumber(words: seq<string>, word: string, max: int, standard: int, n: int) {
    exists i :: 0 <= i < |words| && IsNumberWord(words[i], word, max, standard, n)
  }

  /** An option that is set comes from one of the words. */
  lemma ShownWord(words: seq<string>, o: Options, e: Effect) returns (i: nat)
    requires Fold(EMPTY, words) == Some(o) && Shows(o, e)
    ensures i < |words| && Meaning(words[i]) == Some(e)
  {
    FoldShows(EMPTY, words, e);
    i :| i < |words| && Meaning(words[i]) == Some(e);
  }

  /** And each word shows. */
  lemma WordShows(words: seq<string>, o: Options, e: Effect, i: nat)
    requires Fold(EMPTY, words) == Some(o) && i < |words| && Meaning(words[i]) == Some(e)
    ensures Shows(o, e)
  {
    FoldShows(EMPTY, words, e);
  }

  lemma ExpiredField(words: seq<string>, o: Options, n: int)
    requires Fold(EMPTY, words) == Some(o) && n != 0
    ensures o.expiredSig == n <==> HasNumber(words, "expiredsig", 99999999, 86400, n)
  {
    if o.expiredSig == n {
      var i := ShownWord(words, o, ExpiredSig(n));
      ExpiredEffect(words[i], n);
      assert IsNumberWord(words[i], "expiredsig", 99999999, 86400, n);
    }
    if HasNumber(words, "expiredsig", 99999999, 86400, n) {
      var i: nat :| i < |words| && IsNumberWord(words[i], "expiredsig", 99999999, 86400, n);
      ExpiredEffect(words[i], n);
      WordShows(words, o, ExpiredSig(n), i);
    }
  }

  lemma NothingAfterKeyword(s: string, word: string, max: int, n: int)
    requires |s| == |word|
    ensures !IsNumbered(s, word, max, n)
  {
    assert s[|word|..] == "";
  }

  lemma FillWord(s: string, n: int)
    requires n != 0
    ensures Meaning(s) == Some(TxtFill(n)) <==> IsNumberWord(s, "txtfill", 4096, 0, n)
  {
    FillEffect(s, n);
    if |s| == 7 {
      NothingAfterKeyword(s, "txtfill", 4096, n);
    }
  }

  lemma FillField(words: seq<string>, o: Options, n: int)
    requires Fold(EMPTY, words) == Some(o) && n != 0
    ensures o.txtFill == n <==> HasNumber(words, "txtfill", 4096, 0, n)
  {
    if o.txtFill == n {
      var i := ShownWord(words, o, TxtFill(n));
      FillWord(words[i], n);
      assert IsNumberWord(words[i], "txtfill", 4096, 0, n);
    }
    if HasNumber(words, "txtfill", 4096, 0, n) {
      var i: nat :| i < |words| && IsNumberWord(words[i], "txtfill", 4096, 0, n);
      FillWord(words[i], n);
      WordShows(words, o, TxtFill(n), i);
    }
  }

  ghost predicate HasRandom(words: seq<string>, h: string) {
    exists i :: 0 <= i < |words| && IsRandomWord(words[i]) && Lower(words[i]) == h
  }

  lemma RandomIsWord(words: seq<string>, o: Options)
    requires Fold(EMPTY, words) == Some(o) && o.random != ""
    ensures HasRandom(words, o.random)
  {
    var i := ShownWord(words, o, Random(o.random));
    RandomEffect(words[i], o.random);
  }

  lemma WordIsRandom(words: seq<string>, o: Options, h: string)
    requires Fold(EMPTY, words) == Some(o) && HasRandom(words, h)
    ensures o.random == h
  {
    var i: nat :| i < |words| && IsRandomWord(words[i]) && Lower(words[i]) == h;
    RandomEffect(words[i], h);
    WordShows(words, o, Random(h), i);
  }

  lemma RandomField(words: seq<string>, o: Options, h: string)
    requires Fold(EMPTY, words) == Some(o) && h != ""
    ensures o.random == h <==> HasRandom(words, h)
  {
    if o.random != "" {
      RandomIsWord(words, o);
    }
    if HasRandom(words, h) {
      WordIsRandom(words, o, h);
    }
  }

  /** The accepted options, field by field, from the words of the name. */
  lemma ResultFields(sub: string, o: Options, n: int, h: string)
    requires Fold(EMPTY, Words(sub)) == Some(o) && n != 0 && h != ""
    ensures var words := Words(sub);
            && (o.compress <==> HasWord(words, "compress"))
            && (o.truncate <==> HasWord(words, "truncate"))
            && (o.noTruncate <==> HasWord(words, "notruncate"))
            && (o.badSig <==> HasWord(words, "badsig"))
            && (o.noSig <==> HasWord(words, "nosig"))
            && (o.rcode == 3 <==> HasWord(words, "nxdomain"))
            && (o.rcode == 5 <==> HasWord(words, "refused"))
            && (o.nullIp <==> HasWord(words, "nullip"))
            && (o.expiredSig == n <==> HasNumber(words, "expiredsig", 99999999, 86400, n))
            && (o.txtFill == n <==> HasNumber(words, "txtfill", 4096, 0, n))
            && (o.random == h <==> HasRandom(words, h))
  {
    SwitchFields(Words(sub), o);
    NullFields(Words(sub), o);
    CodeFields(Words(sub), o);
    ExpiredField(Words(sub), o, n);
    FillField(Words(sub), o, n);
    RandomField(Words(sub), o, h);
  }
}
