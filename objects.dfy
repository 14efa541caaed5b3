/**
 * `IdentityBase` and `Employee`. The static `NextId` is an `IdentityCounter` that every
 * construction reads and advances; an `Employee` is the concrete object that carries an `Id`.
 */
module Objects {
  import opened Wrappers
  import opened Int32
  import MethodTests

  /** The static property `NextId`: it starts at 1 and only construction changes it. */
  class IdentityCounter {
    var nextId: int32

    constructor ()
      ensures nextId == 1
    {
      nextId := 1;
    }
  }

  /** What `NextId++` leaves behind: one more, wrapped to 32 bits. */
  function NextAfter(id: int32): (next: int32)
    ensures id as int < MAX ==> next as int == id as int + 1
    ensures id as int == MAX ==> next as int == MIN
  {
    Wrap(id as int + 1)
  }

  /** The Ids that `n` successive constructions receive when `NextId` starts at `start`. */
  function Issued(start: int32, n: nat): (ids: seq<int32>)
    ensures |ids| == n
    decreases n
  {
    if n == 0 then [] else [start] + Issued(NextAfter(start), n - 1)
  }

  /** Until the counter wraps, the i-th construction receives `start + i`. */
  lemma {:induction false} IssuedAt(start: int32, n: nat, i: nat)
    requires start as int + n <= MAX + 1
    requires i < n
    ensures |Issued(start, n)| == n
    ensures Issued(start, n)[i] as int == start as int + i
    decreases n
  {
    if i > 0 {
      IssuedAt(NextAfter(start), n - 1, i - 1);
    }
  }

  /** Until the counter wraps, successive objects get strictly increasing, hence distinct, Ids. */
  lemma IssuedIncreasing(start: int32, n: nat)
    requires start as int + n <= MAX + 1
    ensures |Issued(start, n)| == n
    ensures forall i, j :: 0 <= i < j < n ==> Issued(start, n)[i] < Issued(start, n)[j]
  {
    forall i, j | 0 <= i < j < n
      ensures Issued(start, n)[i] < Issued(start, n)[j]
    {
      IssuedAt(start, n, i);
      IssuedAt(start, n, j);
    }
  }

  /** From the initial `NextId` of 1, every Id handed out before the wrap is positive. */
  lemma IssuedFromOnePositive(n: nat)
    requires n <= MAX
    ensures forall i :: 0 <= i < |Issued(1, n)| ==> Issued(1, n)[i] > 0
  {
    forall i | 0 <= i < n
      ensures Issued(1, n)[i] > 0
    {
      IssuedAt(1, n, i);
    }
  }

  /**
   * An employee: the `IdentityBase` part (`Id`), the `Person` part (first and last name) and the
   * `LanId`. All four are fixed at construction: `Id` is get-only and the others have private setters
   * that only the constructors assign.
   */
  class Employee {
    const id: int32
    const firstName: Option<string>
    const lastName: Option<string>
    const lanId: Option<string>

    /**
     * The `Id` initializer captures `NextId` before the `IdentityBase` constructor body increments it;
     * the names go to the `Person` part and `lanId` is stored unchanged.
     */
    constructor (ids: IdentityCounter, firstName: Option<string>, lastName: Option<string>, lanId: Option<string>)
      modifies ids
      ensures id == old(ids.nextId)
      ensures ids.nextId == NextAfter(old(ids.nextId))
      ensures this.firstName == firstName && this.lastName == lastName && this.lanId == lanId
    {
      id := ids.nextId;
      this.firstName := firstName;
      this.lastName := lastName;
      this.lanId := lanId;
      new;
      ids.nextId := NextAfter(ids.nextId);
    }

    /** The overridden `Name`: `$"{LastName}, {FirstName}"`. */
    function Name(): string
    {
      Render(lastName) + ", " + Render(firstName)
    }
  }

  /** `Name` is the last name, a comma and a space, then the first name. */
  lemma NameLayout(e: Employee)
    ensures |e.Name()| == |Render(e.lastName)| + 2 + |Render(e.firstName)|
    ensures e.Name()[..|Render(e.lastName)|] == Render(e.lastName)
    ensures e.Name()[|Render(e.lastName)|..|Render(e.lastName)| + 2] == ", "
    ensures e.Name()[|Render(e.lastName)| + 2..] == Render(e.firstName)
  {
  }

  /**
   * `Name` can be taken apart again: splitting it at ',' gives the last name first, and when the
   * first name holds no ',' either, the second piece is the first name after one space.
   */
  lemma NameSplitsBack(e: Employee)
    requires ',' !in Render(e.lastName)
    ensures MethodTests.Split(e.Name(), ',')[0] == Render(e.lastName)
    ensures ',' !in Render(e.firstName) ==>
      MethodTests.Split(e.Name(), ',') == [Render(e.lastName), " " + Render(e.firstName)]
  {
    var last, rest := Render(e.lastName), " " + Render(e.firstName);
    assert e.Name() == last + [','] + rest;
    MethodTests.SplitAfterSeparator(last, rest, ',');
    if ',' !in Render(e.firstName) {
      MethodTests.SplitWithoutSeparator(rest, ',');
    }
  }

  /** The inheritance test: "Damon" "Allison" is named "Allison, Damon". */
  lemma NameExample(e: Employee)
    requires e.firstName == Some("Damon") && e.lastName == Some("Allison")
    ensures e.Name() == "Allison, Damon"
  {
  }

  /** Right after a construction `NextId` is the new Id plus one, and the Id is positive, as long as the counter has not wrapped. */
  method NewEmployee(ids: IdentityCounter, firstName: Option<string>, lastName: Option<string>, lanId: Option<string>)
    returns (e: Employee)
    requires 1 <= ids.nextId as int < MAX
    modifies ids
    ensures fresh(e)
    ensures e.id > 0 && ids.nextId as int == e.id as int + 1
  {
    e := new Employee(ids, firstName, lastName, lanId);
  }

  /** `n` successive constructions receive exactly the Ids `Issued(NextId, n)`. */
  method ConstructMany(ids: IdentityCounter, n: nat) returns (es: seq<Employee>)
    modifies ids
    ensures |es| == n
    ensures forall i :: 0 <= i < n ==> es[i].id == Issued(old(ids.nextId), n)[i]
    ensures ids.nextId == Counted(old(ids.nextId), n)
  {
    ghost var start := ids.nextId;
    es := [];
    var k := 0;
    while k < n
      invariant 0 <= k <= n && |es| == k
      invariant ids.nextId == Counted(start, k)
      invariant forall i :: 0 <= i < k ==> es[i].id == Issued(start, n)[i]
    {
      IssuedNth(start, n, k);
      CountedStep(start, k);
      var e := new Employee(ids, None, None, None);
      es := es + [e];
      k := k + 1;
    }
  }

  /** The value of `NextId` after `k` constructions from `start`. */
  function Counted(start: int32, k: nat): int32
    decreases k
  {
    if k == 0 then start else Counted(NextAfter(start), k - 1)
  }

  lemma {:induction false} CountedStep(start: int32, k: nat)
    ensures Counted(start, k + 1) == NextAfter(Counted(start, k))
    decreases k
  {
    if k > 0 {
      CountedStep(NextAfter(start), k - 1);
    }
  }

  /** The k-th Id handed out is the value `NextId` holds after k constructions. */
  lemma {:induction false} IssuedNth(start: int32, n: nat, k: nat)
    requires k < n
    ensures Issued(start, n)[k] == Counted(start, k)
    decreases k
  {
    if k > 0 {
      IssuedNth(NextAfter(start), n - 1, k - 1);
    }
  }
}
