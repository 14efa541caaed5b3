/**
 * `EmployeeComparer.Compare`: a three-way comparison of employees by last name in which the
 * same reference (null included) is equal to itself and null sorts after every employee.
 */
module EmployeeComparer {
  import opened Wrappers
  import opened Objects

  function Sign(n: int): int
  {
    if n < 0 then -1 else if n > 0 then 1 else 0
  }

  /**
   * `a.CompareTo(b)` for a non-null `a`: every string follows null, and two strings are ordered by
   * `cmp`, which stands for the culture-sensitive comparison of the runtime.
   */
  function CompareTo(a: string, b: Option<string>, cmp: (string, string) -> int): int
  {
    match b
    case None => 1
    case Some(s) => cmp(a, s)
  }

  /** What a string comparison must satisfy for the comparer to be a consistent ordering. */
  ghost predicate IsStringOrder(cmp: (string, string) -> int)
  {
    && (forall a :: cmp(a, a) == 0)
    && (forall a, b :: Sign(cmp(a, b)) == -Sign(cmp(b, a)))
    && (forall a, b, c :: cmp(a, b) <= 0 && cmp(b, c) <= 0 ==> cmp(a, c) <= 0)
  }

  /** `Compare(x, y)`; dereferencing the null `LastName` of `x` raises NullReferenceException. */
  function Compare(x: Employee?, y: Employee?, cmp: (string, string) -> int): (r: Result<int>)
    ensures r.Failure? <==> x != y && x != null && y != null && x.lastName.None?
    ensures r.Failure? ==> r.error == NullReference
  {
    if x == y then Success(0)
    else if x == null then Success(1)
    else if y == null then Success(-1)
    else
      match x.lastName
      case None => Failure(NullReference)
      case Some(last) =>
        var result := CompareTo(last, y.lastName, cmp);
        if result != 0 then Success(result) else Success(0)
  }

  /** An employee that `Compare` can always look into: null, or with a last name. */
  predicate Comparable(e: Employee?)
  {
    e == null || e.lastName.Some?
  }

  /** Every object equals itself, null included. */
  lemma CompareReflexive(x: Employee?, cmp: (string, string) -> int)
    ensures Compare(x, x, cmp) == Success(0)
  {
  }

  /** Nulls sort last. */
  lemma CompareNullsLast(x: Employee, cmp: (string, string) -> int)
    ensures Compare(null, x, cmp) == Success(1)
    ensures Compare(x, null, cmp) == Success(-1)
  {
  }

  /** Two distinct employees are ordered as their last names are; a null last name on the left throws. */
  lemma CompareByLastName(x: Employee, y: Employee, cmp: (string, string) -> int)
    requires x != y
    ensures x.lastName.None? ==> Compare(x, y, cmp) == Failure(NullReference)
    ensures x.lastName.Some? && y.lastName.None? ==> Compare(x, y, cmp) == Success(1)
    ensures x.lastName.Some? && y.lastName.Some? ==>
      Compare(x, y, cmp) == Success(cmp(x.lastName.value, y.lastName.value))
  {
  }

  /** Employees with the same last name compare as equal, whatever their first names. */
  lemma CompareIgnoresFirstName(x: Employee, y: Employee, cmp: (string, string) -> int)
    requires IsStringOrder(cmp)
    requires x.lastName.Some? && x.lastName == y.lastName
    ensures Compare(x, y, cmp) == Success(0)
  {
  }

  /** Comparable employees never make `Compare` throw. */
  lemma CompareTotal(x: Employee?, y: Employee?, cmp: (string, string) -> int)
    requires Comparable(x) && Comparable(y)
    ensures Compare(x, y, cmp).Success?
  {
  }

  /** Swapping the arguments flips the sign of the result. */
  lemma CompareAntisymmetric(x: Employee?, y: Employee?, cmp: (string, string) -> int)
    requires IsStringOrder(cmp)
    requires Comparable(x) && Comparable(y)
    ensures Compare(x, y, cmp).Success? && Compare(y, x, cmp).Success?
    ensures Sign(Compare(x, y, cmp).value) == -Sign(Compare(y, x, cmp).value)
  {
  }

  /** "Not after" is transitive, so sorting with this comparer is consistent. */
  lemma CompareTransitive(x: Employee?, y: Employee?, z: Employee?, cmp: (string, string) -> int)
    requires IsStringOrder(cmp)
    requires Comparable(x) && Comparable(y) && Comparable(z)
    requires Compare(x, y, cmp).Success? && Compare(x, y, cmp).value <= 0
    requires Compare(y, z, cmp).Success? && Compare(y, z, cmp).value <= 0
    ensures Compare(x, z, cmp).Success? && Compare(x, z, cmp).value <= 0
  {
    if x != null && y != null && z != null && x != y && y != z && x != z {
      assert cmp(x.lastName.value, y.lastName.value) <= 0;
      assert cmp(y.lastName.value, z.lastName.value) <= 0;
    }
  }

  /**
   * Employees sort by increasing last name: the one whose last name comes first compares as
   * negative, as `IComparer<T>` requires (and opposite to the signs listed in the doc comment).
   */
  lemma CompareSortsIncreasing(x: Employee, y: Employee)
    requires x.lastName == Some("Allison") && y.lastName == Some("Damon")
    ensures Compare(x, y, OrdinalCompare) == Success(-1)
    ensures Compare(y, x, OrdinalCompare) == Success(1)
  {
    assert "Allison"[0] == 'A' && "Damon"[0] == 'D';
  }

  /** An ordinal (code point by code point) string comparison, one instance of `cmp`. */
  function OrdinalCompare(a: string, b: string): (r: int)
    ensures -1 <= r <= 1
    ensures r == 0 <==> a == b
    decreases |a|
  {
    if a == [] && b == [] then 0
    else if a == [] then -1
    else if b == [] then 1
    else if a[0] < b[0] then -1
    else if a[0] > b[0] then 1
    else
      var r := OrdinalCompare(a[1..], b[1..]);
      assert a == [a[0]] + a[1..] && b == [b[0]] + b[1..];
      r
  }

  lemma {:induction false} OrdinalAntisymmetric(a: string, b: string)
    ensures OrdinalCompare(a, b) == -OrdinalCompare(b, a)
    decreases |a|
  {
    if a != [] && b != [] && a[0] == b[0] {
      OrdinalAntisymmetric(a[1..], b[1..]);
    }
  }

  lemma {:induction false} OrdinalTransitive(a: string, b: string, c: string)
    requires OrdinalCompare(a, b) <= 0 && OrdinalCompare(b, c) <= 0
    ensures OrdinalCompare(a, c) <= 0
    decreases |a|
  {
    if a != [] && b != [] && c != [] && a[0] == b[0] && b[0] == c[0] {
      OrdinalTransitive(a[1..], b[1..], c[1..]);
    }
  }

  /** The ordinal comparison meets the requirements, so the comparer built on it is a consistent order. */
  lemma OrdinalIsStringOrder()
    ensures IsStringOrder(OrdinalCompare)
  {
    forall a, b
      ensures Sign(OrdinalCompare(a, b)) == -Sign(OrdinalCompare(b, a))
    {
      OrdinalAntisymmetric(a, b);
    }
    forall a, b, c | OrdinalCompare(a, b) <= 0 && OrdinalCompare(b, c) <= 0
      ensures OrdinalCompare(a, c) <= 0
    {
      OrdinalTransitive(a, b, c);
    }
  }
}

/** `IdentityEqualityComparer`: equality and hashing of identity objects by `Id` alone. */
module IdentityEqualityComparer {
  import opened Wrappers
  import opened Int32
  import opened Objects

  /** `Equals(x, y)`; when both are null, `x.Id` dereferences null and throws. */
  function Equals(x: Employee?, y: Employee?): (r: Result<bool>)
    ensures r.Failure? <==> x == null && y == null
    ensures r == Success(true) <==> x != null && y != null && x.id == y.id
  {
    if (x == null) != (y == null) then Success(false)
    else if x == null then Failure(NullReference)
    else Success(x.id == y.id)
  }

  /** `31 * obj.Id.GetHashCode()` in unchecked 32-bit arithmetic; an `int` hashes to itself. */
  function GetHashCode(obj: Employee?): (r: Result<int32>)
    ensures obj == null <==> r == Failure(NullReference)
    ensures obj != null ==> r.Success? && Congruent(r.value as int, 31 * obj.id as int)
  {
    if obj == null then Failure(NullReference) else Success(Wrap(31 * obj.id as int))
  }

  /** Exactly one null argument is never equal; two nulls throw. */
  lemma EqualsNulls(x: Employee)
    ensures Equals(x, null) == Success(false) && Equals(null, x) == Success(false)
    ensures Equals(null, null) == Failure(NullReference)
  {
  }

  /** Two objects are equal exactly when their Ids are, whatever else differs. */
  lemma EqualsById(x: Employee, y: Employee)
    ensures Equals(x, y) == Success(true) <==> x.id == y.id
    ensures Equals(x, y).Success?
  {
  }

  /** On objects the comparer is an equivalence. */
  lemma EqualsIsEquivalence(x: Employee, y: Employee, z: Employee)
    ensures Equals(x, x) == Success(true)
    ensures Equals(x, y) == Equals(y, x)
    ensures Equals(x, y) == Success(true) && Equals(y, z) == Success(true) ==> Equals(x, z) == Success(true)
  {
  }

  /** Equal objects have equal hash codes. */
  lemma EqualImpliesSameHash(x: Employee?, y: Employee?)
    requires Equals(x, y) == Success(true)
    ensures GetHashCode(x) == GetHashCode(y)
  {
  }

  /** A dictionary built with this comparer finds a key whose hash code matches and that `Equals` the probe. */
  ghost predicate ContainsKey(keys: set<Employee>, probe: Employee)
  {
    exists k :: k in keys && GetHashCode(k) == GetHashCode(probe) && Equals(k, probe) == Success(true)
  }

  /** The custom-comparer test: a key with the probe's Id is found even when the names differ. */
  lemma FindsKeyWithSameId(keys: set<Employee>, stored: Employee, probe: Employee)
    requires stored in keys && stored.id == probe.id
    ensures ContainsKey(keys, probe)
  {
  }
}
