/** Strings: split and join, and positional numerals in base 10 and 16. */
module Text {

  datatype Option<+T> = None | Some(value: T)

  // ----- Split and join

  predicate Free(s: string, c: char) {
    c !in s
  }

  /** JavaScript `s.split(c)`: never empty, and "" splits to [""]. */
  function Split(s: string, c: char): (parts: seq<string>)
    ensures parts != []
  {
    if s == "" then [""]
    else if s[0] == c then [""] + Split(s[1..], c)
    else
      var rest := Split(s[1..], c);
      [[s[0]] + rest[0]] + rest[1..]
  }

  /** JavaScript `parts.join(c)`. */
  function Join(parts: seq<string>, c: char): string {
    if parts == [] then ""
    else if |parts| == 1 then parts[0]
    else parts[0] + [c] + Join(parts[1..], c)
  }

  lemma {:induction false} SplitFree(s: string, c: char)
    requires Free(s, c)
    ensures Split(s, c) == [s]
  {
    if s == "" {
    } else {
      SplitFree(s[1..], c);
      assert [s[0]] + s[1..] == s;
    }
  }

  /** Splitting distributes over a separator. */
  lemma {:induction false} SplitAtSeparator(a: string, b: string, c: char)
    ensures Split(a + [c] + b, c) == Split(a, c) + Split(b, c)
  {
    var s := a + [c] + b;
    if a == "" {
      assert s[1..] == b;
    } else {
      assert s[1..] == a[1..] + [c] + b;
      SplitAtSeparator(a[1..], b, c);
    }
  }

  lemma {:induction false} SplitJoin(parts: seq<string>, c: char)
    requires parts != []
    requires forall p :: p in parts ==> Free(p, c)
    ensures Split(Join(parts, c), c) == parts
  {
    SplitFree(parts[0], c);
    if |parts| > 1 {
      SplitAtSeparator(parts[0], Join(parts[1..], c), c);
      SplitJoin(parts[1..], c);
      assert [parts[0]] + parts[1..] == parts;
    } else {
      assert parts == [parts[0]];
    }
  }

  /** Splitting undone by joining, for every string. */
  lemma {:induction false} JoinSplit(s: string, c: char)
    ensures Join(Split(s, c), c) == s
  {
    if s == "" {
    } else {
      JoinSplit(s[1..], c);
      var rest := Split(s[1..], c);
      if s[0] == c {
        assert ([""] + rest)[1..] == rest;
      } else if |rest| > 1 {
        var parts := Split(s, c);
        assert parts[1..] == rest[1..];
      }
    }
  }

  lemma {:induction false} JoinFree(parts: seq<string>, c: char, d: char)
    requires c != d && forall p :: p in parts ==> Free(p, d)
    ensures Free(Join(parts, c), d)
  {
    if |parts| > 1 {
      JoinFree(parts[1..], c, d);
      assert Free(parts[0], d) && Free([c], d);
    } else if |parts| == 1 {
      assert Free(parts[0], d);
    } else {
    }
  }

  // ----- Numerals

  datatype Base = Decimal | Hex

  function Radix(b: Base): nat {
    if b == Decimal then 10 else 16
  }

  // Written out per base so that every step below stays linear arithmetic.

  function Times(b: Base, n: nat): nat {
    if b == Decimal then 10 * n else 16 * n
  }

  function Quotient(n: nat, b: Base): nat {
    if b == Decimal then n / 10 else n / 16
  }

  function Remainder(n: nat, b: Base): nat {
    if b == Decimal then n % 10 else n % 16
  }

  function Pow(b: Base, n: nat): (p: nat)
    ensures p >= 1
  {
    if n == 0 then 1 else Times(b, Pow(b, n - 1))
  }

  /** n followed by k zero digits. */
  function Grow(b: Base, n: nat, k: nat): nat
    decreases k, n
  {
    if k == 0 then n else Times(b, Grow(b, n, k - 1))
  }

  /** The value of a digit, accepting either letter case; 99 for any other character. */
  function DigitValue(c: char): nat {
    if '0' <= c <= '9' then c as int - '0' as int
    else if 'a' <= c <= 'f' then c as int - 'a' as int + 10
    else if 'A' <= c <= 'F' then c as int - 'A' as int + 10
    else 99
  }

  /** The lower-case digit of a value. */
  function DigitChar(d: nat): (c: char)
    requires d < 16
    ensures DigitValue(c) == d && !('A' <= c <= 'F')
    ensures c == '0' ==> d == 0
  {
    if d < 10 then ('0' as int + d) as char else ('a' as int + (d - 10)) as char
  }

  predicate IsDigit(c: char, b: Base) {
    DigitValue(c) < Radix(b)
  }

  predicate AllDigits(s: string, b: Base) {
    forall i :: 0 <= i < |s| ==> IsDigit(s[i], b)
  }

  /** Positional value, most significant digit first. */
  function NumeralValue(s: string, b: Base): nat
    requires AllDigits(s, b)
  {
    if s == "" then 0
    else Times(b, NumeralValue(s[..|s| - 1], b)) + DigitValue(s[|s| - 1])
  }

  /** JavaScript `n.toString(b)`: no leading zeros except for zero itself. */
  function Numeral(n: nat, b: Base): (s: string)
    ensures s != "" && AllDigits(s, b)
    decreases n
  {
    if n < Radix(b) then [DigitChar(n)] else Numeral(Quotient(n, b), b) + [DigitChar(Remainder(n, b))]
  }

  /** Exactly `len` digits, with leading zeros. */
  function Padded(n: nat, b: Base, len: nat): (s: string)
    ensures |s| == len && AllDigits(s, b)
    decreases len, n
  {
    if len == 0 then "" else Padded(Quotient(n, b), b, len - 1) + [DigitChar(Remainder(n, b))]
  }

  function Zeros(len: nat): string {
    seq(len, i => '0')
  }

  /** JavaScript `s.padStart(len, '0')`. */
  function PadStart(s: string, len: nat): string {
    if |s| < len then Zeros(len - |s|) + s else s
  }

  lemma {:induction false} ValueOfSnoc(s: string, b: Base, c: char)
    requires AllDigits(s, b) && IsDigit(c, b)
    ensures AllDigits(s + [c], b) && NumeralValue(s + [c], b) == Times(b, NumeralValue(s, b)) + DigitValue(c)
  {
    var t := s + [c];
    assert t[..|t| - 1] == s;
  }

  lemma Recompose(n: nat, b: Base)
    ensures Times(b, Quotient(n, b)) + Remainder(n, b) == n && Remainder(n, b) < Radix(b)
  {
  }

  lemma OneDigitNumeral(n: nat, b: Base)
    requires n < Radix(b)
    ensures NumeralValue([DigitChar(n)], b) == n
  {
    ValueOfSnoc("", b, DigitChar(n));
    assert "" + [DigitChar(n)] == [DigitChar(n)];
  }

  lemma {:induction false} NumeralRoundTrip(n: nat, b: Base)
    ensures NumeralValue(Numeral(n, b), b) == n
    decreases n
  {
    Recompose(n, b);
    if n < Radix(b) {
      OneDigitNumeral(n, b);
    } else {
      NumeralRoundTrip(Quotient(n, b), b);
      ValueOfSnoc(Numeral(Quotient(n, b), b), b, DigitChar(Remainder(n, b)));
    }
  }

  lemma {:induction false} PaddedRoundTrip(n: nat, b: Base, len: nat)
    requires n < Pow(b, len)
    ensures NumeralValue(Padded(n, b, len), b) == n
    decreases len
  {
    if len == 0 {
    } else {
      PaddedRoundTrip(Quotient(n, b), b, len - 1);
      ValueOfSnoc(Padded(Quotient(n, b), b, len - 1), b, DigitChar(Remainder(n, b)));
    }
  }

  /** The last digit of a number made of high and low digits is the low digits' last. */
  lemma GrowDigits(high: nat, low: nat, b: Base, k: nat)
    requires k > 0
    ensures Quotient(Grow(b, high, k) + low, b) == Grow(b, high, k - 1) + Quotient(low, b)
    ensures Remainder(Grow(b, high, k) + low, b) == Remainder(low, b)
  {
  }

  /** A fixed-width numeral splits into the numerals of its high and low digits. */
  lemma {:induction false} PaddedSplit(high: nat, low: nat, b: Base, j: nat, k: nat)
    requires low < Pow(b, k)
    ensures Padded(Grow(b, high, k) + low, b, j + k) == Padded(high, b, j) + Padded(low, b, k)
    decreases k
  {
    if k == 0 {
    } else {
      GrowDigits(high, low, b, k);
      PaddedSplit(high, Quotient(low, b), b, j, k - 1);
    }
  }

  lemma {:induction false} ZeroPadded(b: Base, len: nat)
    ensures Padded(0, b, len) == Zeros(len)
  {
    if len == 0 {
    } else {
      ZeroPadded(b, len - 1);
    }
  }

  lemma {:induction false} NumeralLength(n: nat, b: Base, len: nat)
    requires 1 <= len && n < Pow(b, len)
    ensures |Numeral(n, b)| <= len
    decreases len
  {
    if n < Radix(b) {
    } else {
      NumeralLength(Quotient(n, b), b, len - 1);
    }
  }

  /** Left-padding the shortest numeral gives the fixed-width one. */
  lemma {:induction false} PadNumeral(n: nat, b: Base, len: nat)
    requires 1 <= len && n < Pow(b, len)
    ensures PadStart(Numeral(n, b), len) == Padded(n, b, len)
    decreases len
  {
    if n < Radix(b) {
      ZeroPadded(b, len - 1);
    } else {
      PadNumeral(Quotient(n, b), b, len - 1);
      NumeralLength(Quotient(n, b), b, len - 1);
    }
  }

  lemma {:induction false} NumeralBound(s: string, b: Base)
    requires AllDigits(s, b)
    ensures NumeralValue(s, b) < Pow(b, |s|)
  {
    if s == "" {
    } else {
      NumeralBound(s[..|s| - 1], b);
    }
  }

  /** A leading zero does not change the value. */
  lemma {:induction false} LeadingZero(s: string, b: Base)
    requires AllDigits(s, b)
    ensures AllDigits("0" + s, b) && NumeralValue("0" + s, b) == NumeralValue(s, b)
  {
    var z := "0" + s;
    if s == "" {
      assert z[..0] == "";
    } else {
      LeadingZero(s[..|s| - 1], b);
      assert z[..|z| - 1] == "0" + s[..|s| - 1];
    }
  }

  /** A numeral without superfluous leading zeros. */
  predicate Canonical(s: string, b: Base) {
    s != "" && AllDigits(s, b) && (|s| > 1 ==> s[0] != '0')
  }

  lemma {:induction false} NumeralCanonical(n: nat, b: Base)
    ensures Canonical(Numeral(n, b), b)
    ensures n > 0 ==> Numeral(n, b)[0] != '0'
    decreases n
  {
    if n < Radix(b) {
    } else {
      NumeralCanonical(Quotient(n, b), b);
    }
  }
}
