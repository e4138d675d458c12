/** Clock readings: seconds since the epoch in 32 bits. */
module Clock {

  const WRAP: nat := 0x1_0000_0000

  type Time = t: nat | t < WRAP

  /** 32-bit wrap-around of a sum or a difference. */
  function Wrap(n: int): Time {
    n % WRAP
  }
}
