/** ASCII case folding, the byte loops that compare and lower strings without regard to
    case, and splitting a text into TXT strings. */
module AsciiCase {

  function LowerChar(c: char): char {
    if 'A' <= c <= 'Z' then (c as int + 32) as char else c
  }

  function Lower(s: string): (t: string)
    ensures |t| == |s|
  {
    seq(|s|, i requires 0 <= i < |s| => LowerChar(s[i]))
  }

  const UPPER := "ABCDEFGHIJKLMNOPQRSTUVWXYZ"
  const LOWER := "abcdefghijklmnopqrstuvwxyz"

  /** The 26 letters, and nothing else, change. */
  lemma LetterTable(i: nat, c: char)
    requires i < 26
    ensures LowerChar(UPPER[i]) == LOWER[i]
    ensures c !in UPPER ==> LowerChar(c) == c
  {
    assert 'A' <= c <= 'Z' ==> UPPER[c as int - 'A' as int] == c;
  }

  lemma LowerIdempotent(s: string)
    ensures Lower(Lower(s)) == Lower(s)
  {
  }

  function LowerAll(words: seq<string>): (ts: seq<string>)
    ensures |ts| == |words|
  {
    seq(|words|, i requires 0 <= i < |words| => Lower(words[i]))
  }

  predicate HasPrefixFold(s: string, prefix: string) {
    |prefix| <= |s| && Lower(s[..|prefix|]) == Lower(prefix)
  }

  /** The byte loop agrees with lower-casing both sides. */
  method HasPrefixAsciiIgnoreCase(s: string, prefix: string) returns (r: bool)
    ensures r <==> HasPrefixFold(s, prefix)
  {
    if |s| < |prefix| {
      return false;
    }
    for i := 0 to |prefix|
      invariant forall j :: 0 <= j < i ==> LowerChar(s[j]) == LowerChar(prefix[j])
    {
      if s[i] == prefix[i] {
        continue;
      }
      if s[i] > prefix[i] {
        if prefix[i] >= 'A' && prefix[i] <= 'Z' && s[i] as int == prefix[i] as int + 32 {
          continue;
        }
        assert Lower(s[..|prefix|])[i] != Lower(prefix)[i];
        return false;
      }
      if s[i] >= 'A' && s[i] <= 'Z' && prefix[i] as int == s[i] as int + 32 {
        continue;
      }
      assert Lower(s[..|prefix|])[i] != Lower(prefix)[i];
      return false;
    }
    return true;
  }

  method EqualsAsciiIgnoreCase(s: string, t: string) returns (r: bool)
    ensures r <==> Lower(s) == Lower(t)
  {
    if |s| != |t| {
      return false;
    }
    r := HasPrefixAsciiIgnoreCase(s, t);
    assert s[..|t|] == s;
  }

  /** Returns the argument itself when nothing is upper-case, otherwise edits a copy in place. */
  method ToLowerAscii(s: string) returns (r: string)
    ensures r == Lower(s)
  {
    var i := 0;
    while i < |s|
      invariant 0 <= i <= |s| && forall j :: 0 <= j < i ==> LowerChar(s[j]) == s[j]
    {
      if s[i] >= 'A' && s[i] <= 'Z' {
        break;
      }
      i := i + 1;
    }
    if i == |s| {
      return s;
    }
    var b := new char[|s|](k requires 0 <= k < |s| => s[k]);
    b[i] := (b[i] as int + 32) as char;
    i := i + 1;
    while i < b.Length
      invariant 0 <= i <= b.Length == |s|
      invariant forall j :: 0 <= j < i ==> b[j] == LowerChar(s[j])
      invariant forall j :: i <= j < |s| ==> b[j] == s[j]
    {
      if b[i] >= 'A' && b[i] <= 'Z' {
        b[i] := (b[i] as int + 32) as char;
      }
      i := i + 1;
    }
    r := b[..];
  }

  /** The part of s after its last dot; all of it when there is none. */
  function AfterLastDot(s: string): string {
    if s == "" || s[|s| - 1] == '.' then "" else AfterLastDot(s[..|s| - 1]) + [s[|s| - 1]]
  }

  lemma {:induction false} AfterLastDotFree(a: string, b: string)
    requires '.' !in b && (a == "" || a[|a| - 1] == '.')
    ensures AfterLastDot(a + b) == b
  {
    if b != "" {
      var s := a + b;
      assert s[..|s| - 1] == a + b[..|b| - 1];
      assert b[|b| - 1] in b;
      AfterLastDotFree(a, b[..|b| - 1]);
    } else {
      assert a + b == a;
    }
  }

  /** The text behind `strings.LastIndexByte(s, '.')`. */
  method LastLabel(s: string) returns (t: string)
    ensures t == AfterLastDot(s)
  {
    var i := |s| - 1;
    assert s[..|s|] == s;
    while i >= 0
      invariant -1 <= i < |s|
      invariant AfterLastDot(s) == AfterLastDot(s[..i + 1]) + s[i + 1..]
    {
      if s[i] == '.' {
        break;
      }
      assert s[..i + 1][..i] == s[..i];
      assert s[i..] == [s[i]] + s[i + 1..];
      i := i - 1;
    }
    t := s[i + 1..];
  }

  const MAX_TXT := 255

  function Concat(ss: seq<string>): string {
    if ss == [] then "" else ss[0] + Concat(ss[1..])
  }

  lemma {:induction false} ConcatSnoc(ss: seq<string>, s: string)
    ensures Concat(ss + [s]) == Concat(ss) + s
  {
    if ss == [] {
      assert ss + [s] == [s] && Concat([s][1..]) == "";
    } else {
      assert (ss + [s])[1..] == ss[1..] + [s];
      ConcatSnoc(ss[1..], s);
    }
  }

  /** The pieces concatenate to the text; all but the last are full, and none is empty
      except for the empty text's only piece. */
  method SplitForTxt(text: string) returns (strs: seq<string>)
    ensures strs != [] && Concat(strs) == text
    ensures forall i :: 0 <= i < |strs| - 1 ==> |strs[i]| == 255
    ensures |strs[|strs| - 1]| <= 255 && (strs[|strs| - 1] == "" ==> text == "")
  {
    if |text| <= MAX_TXT {
      strs := [text];
      assert strs[1..] == [];
      return;
    }
    strs := [];
    var s := text;
    while |s| > MAX_TXT
      invariant s != "" && Concat(strs) + s == text
      invariant forall i :: 0 <= i < |strs| ==> |strs[i]| == MAX_TXT
      decreases |s|
    {
      ConcatSnoc(strs, s[..MAX_TXT]);
      assert s == s[..MAX_TXT] + s[MAX_TXT..];
      strs := strs + [s[..MAX_TXT]];
      s := s[MAX_TXT..];
    }
    if |s| > 0 {
      ConcatSnoc(strs, s);
      strs := strs + [s];
    }
  }
}
