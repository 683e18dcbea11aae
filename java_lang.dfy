/** Java-level building blocks the game service relies on: 32-bit `int`
    arithmetic and `java.util.Optional`. */
module JavaLang {

  const INT32_MODULUS := 0x1_0000_0000
  const INT32_HALF := 0x8000_0000

  /** Java's `int`. */
  newtype int32 = x: int | -0x8000_0000 <= x < 0x8000_0000

  /** Two's-complement wrap-around of Java `int` arithmetic: the unique value
      in the `int` range that is congruent to `x` modulo 2^32. */
  function Wrap32(x: int): int32
  {
    (((x + INT32_HALF) % INT32_MODULUS) - INT32_HALF) as int32
  }

  /** The wrapped value differs from `x` by a multiple of 2^32, and is `x`
      itself when `x` is already in range. */
  lemma WrapIsCongruent(x: int)
    ensures (Wrap32(x) as int - x) % INT32_MODULUS == 0
    ensures -INT32_HALF <= x < INT32_HALF ==> Wrap32(x) as int == x
  {
  }

  /** Adding a multiple of 2^32 does not change the wrapped value. */
  lemma WrapShift(x: int, k: int)
    ensures Wrap32(x + k * INT32_MODULUS) == Wrap32(x)
  {
  }

  /** Wrapping an intermediate result of `31 * h + e` changes nothing: this is
      why a Java hash loop may overflow at every step and still agree with
      the polynomial computed exactly and wrapped once. */
  lemma WrapMulAdd(x: int, m: int, y: int)
    ensures Wrap32(m * (Wrap32(x) as int) + y) == Wrap32(m * x + y)
  {
    var q := (x + INT32_HALF) / INT32_MODULUS;
    assert Wrap32(x) as int == x - q * INT32_MODULUS;
    assert m * (Wrap32(x) as int) + y == (m * x + y) + (-(m * q)) * INT32_MODULUS;
    WrapShift(m * x + y, -(m * q));
  }

  /** `java.util.Optional`. */
  datatype Option<+T> = None | Some(value: T)
}
