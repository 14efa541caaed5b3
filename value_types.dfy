/** The `Square` struct: an immutable value type whose `Area` is computed on 32-bit `int`s. */
module ValueTypes {
  import opened Int32

  /** The constructor stores `width` and `height` as given; both are get-only, so a value never changes. */
  datatype Square = Square(width: int32, height: int32)
  {
    /** `Width * Height`, unchecked: the true product when it fits, wrapped to 32 bits otherwise. */
    function Area(): (a: int32)
      ensures MIN <= width as int * height as int <= MAX ==> a as int == width as int * height as int
      ensures Congruent(a as int, width as int * height as int)
    {
      Wrap(width as int * height as int)
    }
  }

  /** The theory cases of the test: for (5, 5), (10, 10) and (100, 100) the area is width * height. */
  lemma TheoryCases()
    ensures Square(5, 5).Area() == 25
    ensures Square(10, 10).Area() == 100
    ensures Square(100, 100).Area() == 10000
  {
  }

  /** A product too large for 32 bits is not the area: 65536 * 65536 wraps to 0. */
  lemma AreaOverflows()
    ensures Square(0x1_0000, 0x1_0000).Area() == 0
  {
  }
}
