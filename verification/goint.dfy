/**
 Go's `int64`: the range of a signed 64-bit integer and the two's-complement
 wrap-around that Go's `+`, `-` and `*` on `int64` perform silently.
 */
module GoInt {

  const MinInt64: int := -0x8000_0000_0000_0000
  const MaxInt64: int := 0x7FFF_FFFF_FFFF_FFFF
  const Modulus: int := 0x1_0000_0000_0000_0000

  /** The values a Go `int64` can hold. */
  type Int64 = x: int | MinInt64 <= x <= MaxInt64

  /** The `int64` that Go produces for the mathematical result `x`:
      `x` reduced modulo 2^64 into the signed range. */
  function Wrap(x: int): (r: Int64)
    ensures (r - x) % Modulus == 0
    ensures MinInt64 <= x <= MaxInt64 ==> r == x
  {
    (x - MinInt64) % Modulus + MinInt64
  }

  /** Shifting by a multiple of 2^64 does not change the wrapped value. */
  lemma WrapShift(x: int, k: int)
    ensures Wrap(x + k * Modulus) == Wrap(x)
  {
    var a := x - MinInt64;
    var q := a / Modulus;
    assert a == q * Modulus + a % Modulus;
    assert a + k * Modulus == (q + k) * Modulus + a % Modulus;
  }

  /** Two values that agree modulo 2^64 wrap to the same `int64`. */
  lemma WrapCongruent(x: int, y: int)
    requires (x - y) % Modulus == 0
    ensures Wrap(x) == Wrap(y)
  {
    var k := (x - y) / Modulus;
    assert x == y + k * Modulus;
    WrapShift(y, k);
  }

  /** Adding wrapped values and wrapping again is the same as wrapping the
      exact sum: accumulating in `int64` loses nothing but the overflow. */
  lemma WrapAdd(a: int, b: int)
    ensures Wrap(Wrap(a) + Wrap(b)) == Wrap(a + b)
  {
    var ka := (Wrap(a) - a) / Modulus;
    var kb := (Wrap(b) - b) / Modulus;
    assert Wrap(a) + Wrap(b) == a + b + (ka + kb) * Modulus;
    WrapShift(a + b, ka + kb);
  }
}
