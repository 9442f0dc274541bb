/**
 * The range and the unchecked overflow behaviour of System.Int32, the type
 * C# calls `int`. Unchecked arithmetic keeps the low 32 bits of the exact
 * result and reads them back as a two's-complement number.
 */
module Int32 {

  const MinValue: int := -0x8000_0000
  const MaxValue: int := 0x7FFF_FFFF
  const Modulus: int := 0x1_0000_0000

  newtype int32 = x: int | -0x8000_0000 <= x < 0x8000_0000

  predicate InRange(x: int) {
    MinValue <= x <= MaxValue
  }

  /** Unchecked conversion of an exact integer result to `int`. */
  function Wrap(x: int): (r: int32)
    ensures (r as int - x) % Modulus == 0
    ensures InRange(x) ==> r as int == x
  {
    var low := x % Modulus;
    if low <= MaxValue then low as int32 else (low - Modulus) as int32
  }

  /** Two integers that agree modulo 2^32 wrap to the same `int`. */
  lemma WrapCongruent(x: int, y: int)
    requires (x - y) % Modulus == 0
    ensures Wrap(x) == Wrap(y)
  {
  }

  /** Wrap is the only `int` congruent to its argument: it is the unchecked result. */
  lemma WrapUnique(x: int, r: int32)
    requires (r as int - x) % Modulus == 0
    ensures r == Wrap(x)
  {
  }
}
