/** C#'s 32-bit `int` with unchecked (wrap-around) arithmetic. */
module Int32 {

  const MIN: int := -0x8000_0000
  const MAX: int := 0x7fff_ffff
  const MODULUS: int := 0x1_0000_0000

  newtype int32 = x: int | -0x8000_0000 <= x < 0x8000_0000

  /** Two integers are congruent when they differ by a multiple of 2^32. */
  ghost predicate Congruent(a: int, b: int)
  {
    (a - b) % MODULUS == 0
  }

  /** The 32-bit two's complement value of `x`, as an unchecked C# operation yields it. */
  function Wrap(x: int): (r: int32)
    ensures MIN <= x <= MAX ==> r as int == x
    ensures r as int == x - ((x - MIN) / MODULUS) * MODULUS
    ensures Congruent(r as int, x)
  {
    ((x - MIN) % MODULUS + MIN) as int32
  }

  /** Adding a multiple of 2^32 does not change the wrapped value. */
  lemma {:induction false} WrapShift(x: int, k: int)
    ensures Wrap(x + k * MODULUS) == Wrap(x)
  {
    var q1 := (x + k * MODULUS - MIN) / MODULUS;
    var q2 := (x - MIN) / MODULUS;
    var r1 := Wrap(x + k * MODULUS) as int;
    var r2 := Wrap(x) as int;
    assert r1 - r2 == (k - q1 + q2) * MODULUS;
    WrapDifferenceIsMultiple(r1, r2, k - q1 + q2);
  }

  /** Two values of the 32-bit range that differ by a multiple of 2^32 are equal. */
  lemma WrapDifferenceIsMultiple(r1: int, r2: int, m: int)
    requires MIN <= r1 <= MAX && MIN <= r2 <= MAX
    requires r1 - r2 == m * MODULUS
    ensures r1 == r2
  {
  }

  /** Wrapping an intermediate result changes nothing about the final wrapped value. */
  lemma WrapInner(x: int, y: int)
    ensures Wrap(Wrap(x) as int + y) == Wrap(x + y)
  {
    var k := (x - MIN) / MODULUS;
    assert Wrap(x) as int + y == (x + y) + (-k) * MODULUS;
    WrapShift(x + y, -k);
  }
}
