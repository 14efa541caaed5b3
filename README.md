# C# teaching snippets: a verified model of their logic

The repository is a set of C# teaching examples. This project models the pieces of it that carry
logic of their own, and proves what their code and tests promise:

- the Todo Web API: `TodoRepository`, an in-memory dictionary of to-do items shared by every
  repository instance, and `TodoController`, whose endpoints answer NotFound, BadRequest, Created
  or NoContent and update the repository;
- the generic LIFO `Stack<T>` over a growable list;
- `IdentityBase`, whose static `NextId` counter gives every new object its `Id`, and `Employee`;
- the two-element collection `Pair<T>` and the state machine its `yield return` iterator becomes;
- `EmployeeComparer` (by last name, nulls last) and `IdentityEqualityComparer` (by `Id`);
- the small helpers `Capitalize`, `Swap`, `ReturnMultiple`, `Params`, `OptionalName`,
  `Employee.Name`, `Square.Area`, `Calculator.Add` and `Calculator.Subtract`.

One module per source file, except `Objects` for IdentityBase.cs and Employee.cs (plus `Wrappers` for Option/Result and the exceptions, and `Int32`).

How the C# is rendered:

- C# `int` is `Int32.int32` and every `+`, `-`, `*` on it is unchecked: `Wrap` reduces modulo 2^32
  into the signed range. So `Add`, `Subtract`, `Area`, `GetHashCode` and `NextId++` wrap around,
  as the compiled C# does. In particular the counter wraps after 2^31 - 1 constructions and the next
  object gets `Id` -2^31 (`Objects.NextAfter`); every "Ids increase" result holds up to that point.
- A string or reference that can be null is an `Option` or a nullable class type. String
  interpolation renders null as "" (`Wrappers.Render`). A `NullReferenceException`,
  `ArgumentNullException` or `InvalidOperationException` the source throws comes back as a `Failure`,
  `Fail` or `Faulted` value.
- Static state is an object passed in: `IdentityCounter` is `NextId`, and `TodoStore` is the static
  `_todos` dictionary that all `TodoRepository` instances share. That sharing is why every
  construction of a repository adds one more "Item1".
- State that the source changes in place lives in classes whose methods say what the new state is:
  `TodoItem` (its `Key` is assigned by `Create` and by `Patch`), `TodoStore`, `Stack`,
  `PairEnumerator`. The `ref` parameters of `Swap` are `Ref` cells, so two refs to one variable alias.
- The `yield` iterator is `PairEnumerator`. It reads `First` in the `MoveNext` that reaches it, and
  `Second` in the next one, not when the enumerator is created.
- The controller calls `GetAll`, `Find`, `Add` and `Remove`, but `ITodoRepository` declares
  `Get()`, `Get(key)`, `Create`, `Delete` and `Update`. As written, the controller would not compile
  against the interface. The model maps `GetAll` to `Get()`, `Find` to `Get(key)`, `Add` to `Create`
  and `Remove` to `Delete`.
- `Put` checks the body's key against the route id, fully and before any lookup. `Patch` does not
  check it. Instead, `Patch` copies the stored item's `Key` into the body. Items are shared by
  reference, so a stored item's `Key` can differ from the key it is stored under, for example after
  `Create` is called twice on one item. The store keeps every stored item's `Key` equal to its
  dictionary key (`KeysConsistent`) as long as request bodies are not objects already in the store.
  Each mutating endpoint proves that it preserves this.
- The contracts of `Compare` and `Equals` state when they throw. The lemmas next to them state
  their results one case at a time.
- The doc comment of `EmployeeComparer.Compare` lists -1 for "y < x" and 1 for "y > x". The code
  returns `x.LastName.CompareTo(y.LastName)`, which is negative when x's last name comes first, as
  `IComparer<T>` requires. The model follows the code (`EmployeeComparer.CompareSortsIncreasing`).

## Model

| member | source | states |
|---|---|---|
| `Calculator.Add` | test/Objects/Calculator.cs:21 | the result is x + y whenever that fits in 32 bits, and is congruent to x + y modulo 2^32 always |
| `Calculator.Subtract` | test/Objects/Calculator.cs:22 | the result is x - y whenever that fits in 32 bits, and is congruent to x - y modulo 2^32 always |
| `Calculator.AddCommutative` | test/Objects/Calculator.cs:21 | Add(x, y) == Add(y, x) |
| `Calculator.SubtractUndoesAdd` | test/Objects/Calculator.cs:21-22 | Subtract(Add(x, y), y) == x for all 32-bit x and y, across overflow too |
| `Calculator.AddUndoesSubtract` | test/Objects/Calculator.cs:21-22 | Add(Subtract(x, y), y) == x for all 32-bit x and y |
| `Calculator.ZeroIsNeutral` | test/Objects/Calculator.cs:21-22 | Add(x, 0) == Add(0, x) == x and Subtract(x, 0) == x |
| `Calculator.AddWrapsAtMax` | test/Objects/Calculator.cs:21 | int.MaxValue + 1 is int.MinValue (unchecked arithmetic) |
| `ValueTypes.Square.Area` | test/test-csharp/ValueTypeTests.cs:32-38 | Area is Width * Height when the product fits in 32 bits, and congruent to it modulo 2^32 otherwise |
| `ValueTypes.TheoryCases` | test/test-csharp/ValueTypeTests.cs:56-64 | for (5,5), (10,10) and (100,100) the area equals width * height |
| `ValueTypes.AreaOverflows` | test/test-csharp/ValueTypeTests.cs:32-38 | a 65536 x 65536 square has area 0 because the product wraps |
| `StringExtensions.Capitalize` | test/test-csharp/Objects/StringExtensions.cs:15-22 | null and "" come back unchanged; otherwise the first character is upper-cased and the length and the rest of the string are unchanged |
| `StringExtensions.CapitalizeIdempotent` | test/test-csharp/Objects/StringExtensions.cs:15-22 | capitalizing twice equals capitalizing once when upper-casing the first character is idempotent |
| `StringExtensions.AsciiUpper` | test/test-csharp/Objects/StringExtensions.cs:21 | the result is never a lower-case ASCII letter; it differs from the input exactly when the input is one, and then it is a capital |
| `StringExtensions.AsciiUpperIdempotent` | test/test-csharp/Objects/StringExtensions.cs:21 | upper-casing an ASCII character twice is upper-casing it once |
| `StringExtensions.CapitalizeAsciiIdempotent` | test/test-csharp/Objects/StringExtensions.cs:15-22 | with ASCII upper-casing, capitalizing any string (null and "" included) twice equals capitalizing it once |
| `StringExtensions.CapitalizeDamon` | test/test-csharp/Language/ObjectTests.cs:58-63 | "damon" capitalizes to "Damon" |
| `MethodTests.Swap` | test/test-csharp/MethodTests.cs:46-51 | the two ref variables, either of which may hold null, exchange values |
| `MethodTests.SwapTwice` | test/test-csharp/MethodTests.cs:46-51 | swapping twice restores both variables |
| `MethodTests.Split` | test/test-csharp/MethodTests.cs:67 | Split(' ') yields at least one piece, no piece contains the separator, and there is exactly one piece iff the string has no separator |
| `MethodTests.JoinSplit` | test/test-csharp/MethodTests.cs:67 | joining the pieces with the separator gives back the string |
| `MethodTests.SplitAfterSeparator` | test/test-csharp/MethodTests.cs:67 | a separator-free prefix followed by the separator becomes the first piece, and the rest is split the same way |
| `MethodTests.SplitWithoutSeparator` | test/test-csharp/MethodTests.cs:67 | a string without the separator is a single piece |
| `MethodTests.SplitFirstPiece` | test/test-csharp/MethodTests.cs:67-68 | the first piece is the text before the first separator, and the remaining pieces are the split of what follows it |
| `MethodTests.ReturnMultiple` | test/test-csharp/MethodTests.cs:65-70 | firstName is the text before the first space; lastName is null iff there is no space, otherwise the text between the first and the second space |
| `MethodTests.ReturnMultipleExample` | test/test-csharp/MethodTests.cs:18-24 | "Damon Allison" yields ("Damon", "Allison") |
| `MethodTests.ReturnMultipleDropsFurtherPieces` | test/test-csharp/MethodTests.cs:67-69 | pieces after the second are dropped |
| `MethodTests.ParamsExamples` | test/test-csharp/MethodTests.cs:26-31 | Params counts its arguments: 0, 1 and 2 |
| `MethodTests.Params` | test/test-csharp/MethodTests.cs:72-75 | no contract of its own: the number of arguments, null ones included; ParamsExamples gives the test's calls |
| `MethodTests.OptionalNameExamples` | test/test-csharp/MethodTests.cs:33-44 | the defaults give "FirstName LastName"; "Damon" alone gives "Damon LastName"; out-of-order named arguments give "Damon Allison" |
| `MethodTests.OptionalName` | test/test-csharp/MethodTests.cs:82 | no contract of its own: ReturnMultipleInvertsOptionalName gives its partner and OptionalNameExamples the defaults |
| `MethodTests.ReturnMultipleInvertsOptionalName` | test/test-csharp/MethodTests.cs:65-82 | ReturnMultiple recovers both names from OptionalName's output when neither name contains a space |
| `Objects.IdentityCounter.constructor` | test/test-csharp/Objects/IdentityBase.cs:10 | NextId starts at 1 |
| `Objects.NextAfter` | test/test-csharp/Objects/IdentityBase.cs:33 | NextId++ adds one below int.MaxValue and wraps to int.MinValue at it |
| `Objects.Issued` | test/test-csharp/Objects/IdentityBase.cs:31-36 | n constructions hand out exactly n Ids |
| `Objects.IssuedAt` | test/test-csharp/Objects/IdentityBase.cs:31-36 | until the counter wraps, the i-th construction receives start + i |
| `Objects.IssuedIncreasing` | test/test-csharp/Objects/IdentityBase.cs:31-36 | until the counter wraps, successive objects get strictly increasing, hence distinct, Ids |
| `Objects.IssuedFromOnePositive` | test/test-csharp/Objects/IdentityBase.cs:10-36 | starting from NextId = 1, every Id handed out before the wrap is positive |
| `Objects.Employee.constructor` | test/test-csharp/Objects/Employee.cs:12-16 | Id is NextId as it was before construction, NextId then advances by one, and the names and lanId are stored unchanged |
| `Objects.NameLayout` | test/test-csharp/Objects/Employee.cs:23-29 | Name is LastName, then ", ", then FirstName (null rendered as "") |
| `Objects.Employee.Name` | test/test-csharp/Objects/Employee.cs:23-29 | no contract of its own: NameLayout gives its layout and NameSplitsBack its inverse |
| `Objects.NameSplitsBack` | test/test-csharp/Objects/Employee.cs:23-29 | when the last name holds no ',', splitting Name at ',' gives the last name first; when the first name holds none either, the pieces are exactly the last name and " " + the first name |
| `Objects.NameExample` | test/test-csharp/Language/ObjectTests.cs:101 | first name "Damon" and last name "Allison" give "Allison, Damon" |
| `Objects.NewEmployee` | test/test-csharp/ObjectTests.cs:19-25 | right after a construction, Id > 0 and NextId == Id + 1 (counter not wrapped) |
| `Objects.ConstructMany` | test/test-csharp/Objects/IdentityBase.cs:31-36 | n successive constructions receive exactly the Ids Issued(NextId, n) |
| `EmployeeComparer.CompareReflexive` | test/Objects/EmployeeComparer.cs:25-28 | Compare(x, x) is 0, null included |
| `EmployeeComparer.CompareNullsLast` | test/Objects/EmployeeComparer.cs:29-36 | Compare(null, y) is 1 and Compare(x, null) is -1 |
| `EmployeeComparer.CompareByLastName` | test/Objects/EmployeeComparer.cs:37-42 | distinct employees compare as their last names do; a null last name throws on the left and sorts first on the right |
| `EmployeeComparer.CompareIgnoresFirstName` | test/Objects/EmployeeComparer.cs:37-42 | equal last names compare as 0, whatever the first names |
| `EmployeeComparer.CompareTotal` | test/Objects/EmployeeComparer.cs:21-43 | Compare never throws on null or on employees that have last names |
| `EmployeeComparer.Compare` | test/Objects/EmployeeComparer.cs:21-43 | it throws NullReferenceException exactly when x and y are distinct, non-null, and x's last name is null |
| `EmployeeComparer.CompareTo` | test/Objects/EmployeeComparer.cs:37 | no contract of its own: String.CompareTo, whose two cases (null gives 1, otherwise the string comparison) CompareByLastName states as Compare uses them |
| `EmployeeComparer.CompareSortsIncreasing` | test/Objects/EmployeeComparer.cs:16-37 | an employee named "Allison" compares as -1 against one named "Damon" and the reverse as 1, the opposite of the signs the doc comment lists |
| `EmployeeComparer.CompareAntisymmetric` | test/Objects/EmployeeComparer.cs:21-43 | sign(Compare(x, y)) == -sign(Compare(y, x)) for a consistent string comparison |
| `EmployeeComparer.CompareTransitive` | test/Objects/EmployeeComparer.cs:21-43 | "not after" is transitive for a consistent string comparison |
| `EmployeeComparer.OrdinalCompare` | test/Objects/EmployeeComparer.cs:37 | an ordinal string comparison returns -1, 0 or 1, and 0 exactly for equal strings |
| `EmployeeComparer.OrdinalAntisymmetric` | test/Objects/EmployeeComparer.cs:37 | the ordinal comparison flips sign when its arguments are swapped |
| `EmployeeComparer.OrdinalTransitive` | test/Objects/EmployeeComparer.cs:37 | the ordinal comparison is transitive |
| `EmployeeComparer.OrdinalIsStringOrder` | test/Objects/EmployeeComparer.cs:12-14 | the ordinal comparison is consistent, so the comparer built on it is consistent |
| `IdentityEqualityComparer.GetHashCode` | test/test-csharp/Objects/IdentityEqualityComparer.cs:15-18 | null throws; otherwise the hash is 31 * Id in 32-bit arithmetic |
| `IdentityEqualityComparer.EqualsNulls` | test/test-csharp/Objects/IdentityEqualityComparer.cs:9-12 | exactly one null gives false; two nulls throw NullReferenceException |
| `IdentityEqualityComparer.EqualsById` | test/test-csharp/Objects/IdentityEqualityComparer.cs:12 | two objects are equal iff their Ids are equal |
| `IdentityEqualityComparer.EqualsIsEquivalence` | test/test-csharp/Objects/IdentityEqualityComparer.cs:7-13 | on objects, Equals is reflexive, symmetric and transitive |
| `IdentityEqualityComparer.Equals` | test/test-csharp/Objects/IdentityEqualityComparer.cs:7-13 | it throws exactly when both arguments are null; it is true exactly when both are non-null with equal Ids |
| `IdentityEqualityComparer.EqualImpliesSameHash` | test/test-csharp/Objects/IdentityEqualityComparer.cs:7-18 | equal objects have equal hash codes |
| `IdentityEqualityComparer.FindsKeyWithSameId` | test/test-csharp/BCL/CollectionTests.cs:82-85 | a dictionary using the comparer finds a stored key with the probe's Id, even when the names differ |
| `Generics.Stack.constructor` | test/test-csharp/GenericsTest.cs:9-10 | a new stack is empty |
| `Generics.Stack.Count` | test/test-csharp/GenericsTest.cs:18 | no contract of its own: internalStack.Count, which Push raises by one and a successful Pop lowers by one |
| `Generics.Stack.Push` | test/test-csharp/GenericsTest.cs:12-15 | the element is appended on top; the elements below are unchanged; the count grows by one |
| `Generics.Stack.Pop` | test/test-csharp/GenericsTest.cs:16-25 | an empty stack throws InvalidOperationException and stays empty; otherwise the last element is returned and removed, and nothing else changes |
| `Generics.PushThenPop` | test/test-csharp/GenericsTest.cs:12-25 | Push(x) then Pop() returns x and restores the previous contents |
| `Collections.Pair.GetEnumerator` | test/test-csharp/BCL/CollectionTests.cs:110-113 | a fresh enumerator over this pair, before its first element |
| `Collections.Pair.constructor` | test/test-csharp/BCL/CollectionTests.cs:106-108 | no contract of its own: a new pair whose First and Second are assigned afterwards |
| `Collections.PairEnumerator.constructor` | test/test-csharp/BCL/CollectionTests.cs:110 | the iterator starts before First |
| `Collections.PairEnumerator.MoveNext` | test/test-csharp/BCL/CollectionTests.cs:110-113 | the first call is true with Current == First; the second is true with Current == Second; every later call is false; the pair is not modified |
| `Collections.ManualEnumeration` | test/test-csharp/BCL/CollectionTests.cs:128-134 | MoveNext gives true with First, then true with Second, then false |
| `Collections.Enumerate` | test/test-csharp/BCL/CollectionTests.cs:136-149 | foreach yields exactly [First, Second] |
| `TodoRepositories.TodoItem.constructor` | src/api/Repositories/TodoRepository.cs:16 | a new item has a null Key and the given Name |
| `TodoRepositories.TodoStore.constructor` | src/api/Repositories/TodoRepository.cs:11-12 | the static dictionary starts empty |
| `TodoRepositories.TodoRepository.constructor` | src/api/Repositories/TodoRepository.cs:14-17 | each construction stores one more fresh item named "Item1" under its new key, and nothing else changes |
| `TodoRepositories.TodoRepository.Create` | src/api/Repositories/TodoRepository.cs:19-23 | item.Key becomes the new key and the store maps that key to the item; no other entry changes |
| `TodoRepositories.TodoRepository.GetAll` | src/api/Repositories/TodoRepository.cs:25-28 | an item is in the result exactly when it is a stored value; one entry per key that holds it, and nothing else |
| `TodoRepositories.TodoRepository.Get` | src/api/Repositories/TodoRepository.cs:30-35 | the stored item when the key is present, null otherwise; the store is unchanged |
| `TodoRepositories.TodoRepository.Delete` | src/api/Repositories/TodoRepository.cs:37-42 | removes exactly the key and returns its item; an absent key returns null and changes nothing |
| `TodoRepositories.TodoRepository.Update` | src/api/Repositories/TodoRepository.cs:44-47 | an upsert: item.Key maps to item whether or not it existed, and other keys are untouched; a null Key throws and changes nothing |
| `TodoRepositories.NamedAfterInsert` | src/api/Repositories/TodoRepository.cs:11-17 | storing under an unused key adds one to the count of items with the item's name, and leaves every other name's count alone |
| `TodoRepositories.DeleteThenGet` | src/api/Repositories/TodoRepository.cs:30-42 | Delete(k) followed by Get(k) yields null |
| `TodoRepositories.ConstructMany` | src/api/Repositories/TodoRepository.cs:11-17 | n constructions with distinct fresh keys leave n more items named "Item1" |
| `TodoControllers.TodoController.constructor` | src/api/Controllers/TodoController.cs:21-24 | the controller works on the repository it is given |
| `TodoControllers.TodoController.GetAll` | src/api/Controllers/TodoController.cs:26-30 | an item is in the result exactly when it is stored; one entry per key, as the repository's Get() lists them |
| `TodoControllers.TodoController.GetById` | src/api/Controllers/TodoController.cs:32-41 | NotFound exactly when no item is stored under id; otherwise that item |
| `TodoControllers.TodoController.Post` | src/api/Controllers/TodoController.cs:43-52 | a null body is BadRequest and changes nothing; otherwise the item is created with its Name unchanged, and the response is Created at route "GetTodo" carrying item.Key; consistency of keys is kept |
| `TodoControllers.TodoController.Put` | src/api/Controllers/TodoController.cs:58-74 | BadRequest when the body is null or its Key is not id, whether or not id is stored; NotFound when id is absent; otherwise the body replaces the item and NoContent; the set of keys and their consistency are kept |
| `TodoControllers.TodoController.Patch` | src/api/Controllers/TodoController.cs:80-98 | BadRequest for a null body; NotFound when id is absent; otherwise the body takes the stored item's Key and is upserted under it (NoContent), or the null Key throws; with consistent keys the set of keys is unchanged |
| `TodoControllers.TodoController.Delete` | src/api/Controllers/TodoController.cs:100-111 | NotFound and no change when id is absent; otherwise id is removed and NoContent |

## Left out

- Console and logging output: `ILogable.Log`, the static constructor of `IdentityBase` and its message. These are I/O.
- GUID generation: `Create` takes the new key as the parameter `freshKey`. Collisions are not excluded; a repeated key overwrites its entry, as the dictionary would.
- Thread safety of `ConcurrentDictionary`: the model is sequential.
- HTTP routing, model binding, JSON and the `IActionResult` types: the controller returns `Response` values.
- The culture-sensitive `string.CompareTo` and `ToUpper` are parameters (`cmp`, `upper`). `OrdinalCompare` and `AsciiUpper` are concrete instances used in the lemmas. Characters are Unicode scalar values, not UTF-16 code units, so `Substring(0, 1)` never splits a surrogate pair here.
- Null arguments the source does not guard: a null item passed to `Create` or `Update`, a null key passed to `Get` or `Delete`, a null name passed to `ReturnMultiple`, and a null array passed to `Params`. In C# these throw. The model's parameter types are non-null. The controller never passes such values.
- `TodoItem`'s declaration is not part of this model. Only the `Key` and `Name` that the modelled code uses are fields.
- The `Person` constructor that `Employee` calls is not part of this model. The `Person` revision at hand has no constructor. `Employee` stands for every `IdentityBase` object, and the comparers take employees.
- `Calculator.PI` and the duplicate `Square` with its console `Log`.
- `Collections.Pair.constructor`: C# starts `First` and `Second` at `default(T)` (null for the test's strings); a generic Dafny type has no such value to name, so their initial values are left open.
- `IEnumerator.Reset`, `Dispose` and the non-generic `GetEnumerator` of `Pair<T>`. `Current` before the first `MoveNext` is left unspecified.
- `TodoRepository.GetAll`: the order in which the dictionary enumerates its values is left open; the ghost key sequence fixes one.
