/** The custom collection `Pair<T>` and the enumerator its `yield return` iterator compiles to. */
module Collections {

  /** The iterator's place: before `First`, at `First`, at `Second`, or finished. */
  datatype Position = BeforeFirst | AtFirst | AtSecond | Finished

  /** How many more `MoveNext` calls can change the position. */
  function Remaining(p: Position): nat
  {
    match p
    case BeforeFirst => 3
    case AtFirst => 2
    case AtSecond => 1
    case Finished => 0
  }

  /** Two settable properties, `First` and `Second`. */
  class Pair<T(0)> {
    var first: T
    var second: T

    constructor ()
    {
    }

    /** `GetEnumerator`: a fresh enumerator that has not read either property yet. */
    method GetEnumerator() returns (e: PairEnumerator<T>)
      ensures fresh(e) && e.pair == this && e.position == BeforeFirst
    {
      e := new PairEnumerator(this);
    }
  }

  /**
   * The state machine of `yield return First; yield return Second;`. Each property is read by the
   * `MoveNext` that reaches it, not when the enumerator is created.
   */
  class PairEnumerator<T(0)> {
    const pair: Pair<T>
    var position: Position
    /** `Current`; unspecified until the first `MoveNext`. */
    var current: T

    constructor (pair: Pair<T>)
      ensures this.pair == pair && position == BeforeFirst
    {
      this.pair := pair;
      position := BeforeFirst;
    }

    /** Advances to the next yield; `false` once both values have been produced. The pair is not modified. */
    method MoveNext() returns (more: bool)
      modifies this
      ensures old(position) == BeforeFirst ==> more && position == AtFirst && current == pair.first
      ensures old(position) == AtFirst ==> more && position == AtSecond && current == pair.second
      ensures old(position) in {AtSecond, Finished} ==> !more && position == Finished && current == old(current)
      ensures Remaining(position) < Remaining(old(position)) || position == old(position) == Finished
    {
      match position
      case BeforeFirst =>
        current := pair.first;
        position := AtFirst;
        more := true;
      case AtFirst =>
        current := pair.second;
        position := AtSecond;
        more := true;
      case _ =>
        position := Finished;
        more := false;
    }
  }

  /** The manual enumeration of the test: true with `First`, true with `Second`, then false. */
  method ManualEnumeration<T(0)>(p: Pair<T>) returns (more1: bool, current1: T, more2: bool, current2: T, more3: bool)
    ensures more1 && current1 == p.first
    ensures more2 && current2 == p.second
    ensures !more3
  {
    var e := p.GetEnumerator();
    more1 := e.MoveNext();
    current1 := e.current;
    more2 := e.MoveNext();
    current2 := e.current;
    more3 := e.MoveNext();
  }

  /** `foreach` over a pair yields exactly two elements, `First` then `Second`. */
  method Enumerate<T(0)>(p: Pair<T>) returns (items: seq<T>)
    ensures items == [p.first, p.second]
  {
    var e := p.GetEnumerator();
    items := [];
    var more := e.MoveNext();
    while more
      invariant fresh(e) && e.pair == p
      invariant more <==> e.position in {AtFirst, AtSecond}
      invariant e.position == AtFirst ==> items == [] && e.current == p.first
      invariant e.position == AtSecond ==> items == [p.first] && e.current == p.second
      invariant e.position == Finished ==> items == [p.first, p.second]
      invariant e.position != BeforeFirst
      decreases Remaining(e.position)
    {
      items := items + [e.current];
      more := e.MoveNext();
    }
  }
}
