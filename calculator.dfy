/** The static `Calculator`: expression-bodied `Add` and `Subtract` on C#'s 32-bit `int`. */
module Calculator {
  import opened Int32

  /** `x + y`, unchecked: the mathematical sum when it fits, wrapped to 32 bits otherwise. */
  function Add(x: int32, y: int32): (r: int32)
    ensures MIN <= x as int + y as int <= MAX ==> r as int == x as int + y as int
    ensures Congruent(r as int, x as int + y as int)
  {
    Wrap(x as int + y as int)
  }

  /** `x - y`, unchecked: the mathematical difference when it fits, wrapped to 32 bits otherwise. */
  function Subtract(x: int32, y: int32): (r: int32)
    ensures MIN <= x as int - y as int <= MAX ==> r as int == x as int - y as int
    ensures Congruent(r as int, x as int - y as int)
  {
    Wrap(x as int - y as int)
  }

  lemma AddCommutative(x: int32, y: int32)
    ensures Add(x, y) == Add(y, x)
  {
  }

  /** Subtracting what was added gives back the original value, even across a wrap-around. */
  lemma SubtractUndoesAdd(x: int32, y: int32)
    ensures Subtract(Add(x, y), y) == x
  {
    WrapInner(x as int + y as int, -(y as int));
  }

  /** Adding back what was subtracted gives back the original value, even across a wrap-around. */
  lemma AddUndoesSubtract(x: int32, y: int32)
    ensures Add(Subtract(x, y), y) == x
  {
    WrapInner(x as int - y as int, y as int);
  }

  lemma ZeroIsNeutral(x: int32)
    ensures Add(x, 0) == x && Add(0, x) == x && Subtract(x, 0) == x
  {
  }

  /** At the top of the range the sum wraps to the bottom. */
  lemma AddWrapsAtMax()
    ensures Add(0x7fff_ffff, 1) == -0x8000_0000
  {
  }
}
