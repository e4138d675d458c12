/** Bytes and fixed-width big-endian integers. */
module Bytes {

  type byte = x: int | 0 <= x < 256
  type Bytes = seq<byte>

  /** 256^n. */
  function Limit(n: nat): (p: nat)
    ensures p >= 1
  {
    if n == 0 then 1 else 256 * Limit(n - 1)
  }

  /** The n low bytes of x, most significant first. */
  function BigEndian(x: nat, n: nat): (b: Bytes)
    ensures |b| == n
    decreases n, x
  {
    if n == 0 then [] else BigEndian(x / 256, n - 1) + [x % 256]
  }

  function FromBigEndian(b: Bytes): nat {
    if b == [] then 0 else 256 * FromBigEndian(b[..|b| - 1]) + b[|b| - 1] as nat
  }

  lemma {:induction false} BigEndianRoundTrip(x: nat, n: nat)
    requires x < Limit(n)
    ensures FromBigEndian(BigEndian(x, n)) == x
    decreases n
  {
    if n == 0 {
    } else {
      BigEndianRoundTrip(x / 256, n - 1);
      assert BigEndian(x, n)[..n - 1] == BigEndian(x / 256, n - 1);
    }
  }

  lemma {:induction false} FromBigEndianRoundTrip(b: Bytes)
    ensures FromBigEndian(b) < Limit(|b|) && BigEndian(FromBigEndian(b), |b|) == b
  {
    if b == [] {
    } else {
      FromBigEndianRoundTrip(b[..|b| - 1]);
      assert b == b[..|b| - 1] + [b[|b| - 1]];
    }
  }

  /** Most significant byte first. */
  lemma BigEndianBytes(x: nat)
    ensures x < 0x1_0000 ==> BigEndian(x, 2) == [x / 0x100, x % 0x100]
    ensures x < 0x1_0000_0000 ==>
              BigEndian(x, 4) == [x / 0x100_0000, x / 0x1_0000 % 0x100, x / 0x100 % 0x100, x % 0x100]
  {
    assert BigEndian(x / 0x100 / 0x100 / 0x100 / 0x100, 0) == [];
    assert BigEndian(x / 0x100 / 0x100 / 0x100, 1) == [x / 0x100 / 0x100 / 0x100 % 0x100];
    assert BigEndian(x / 0x100 / 0x100, 2) == [x / 0x100 / 0x100 / 0x100 % 0x100, x / 0x100 / 0x100 % 0x100];
    assert BigEndian(x / 0x100, 1) == [x / 0x100 % 0x100];
  }

  lemma Limits()
    ensures Limit(2) == 0x1_0000 && Limit(4) == 0x1_0000_0000
  {
  }
}
