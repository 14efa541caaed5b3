/** The helpers of the method-parameter tests: `ref`, `out`, `params` and optional parameters. */
module MethodTests {
  import opened Wrappers

  /** A variable passed by `ref`: the callee reads and assigns the caller's storage. */
  class Ref<T> {
    var value: T

    constructor (value: T)
      ensures this.value == value
    {
      this.value := value;
    }
  }

  /** Exchanges the two (possibly null) string variables through a temporary; two refs to one variable leave it as it was. */
  method Swap(firstName: Ref<Option<string>>, lastName: Ref<Option<string>>)
    modifies firstName, lastName
    ensures firstName.value == old(lastName.value)
    ensures lastName.value == old(firstName.value)
  {
    var temp := firstName.value;
    firstName.value := lastName.value;
    lastName.value := temp;
  }

  /** The ref-parameter test, and swapping back: two swaps restore both variables. */
  method SwapTwice(firstName: Ref<Option<string>>, lastName: Ref<Option<string>>)
    modifies firstName, lastName
    ensures firstName.value == old(firstName.value) && lastName.value == old(lastName.value)
  {
    Swap(firstName, lastName);
    Swap(firstName, lastName);
  }

  /** `s.Split(sep)`: the pieces between occurrences of `sep`, empty pieces included. */
  function Split(s: string, sep: char): (pieces: seq<string>)
    ensures |pieces| >= 1
    ensures forall i :: 0 <= i < |pieces| ==> sep !in pieces[i]
    ensures |pieces| == 1 <==> sep !in s
    decreases |s|
  {
    if s == [] then [""]
    else
      var rest := Split(s[1..], sep);
      if s[0] == sep then [""] + rest
      else [[s[0]] + rest[0]] + rest[1..]
  }

  /** The pieces glued back together with `sep` between them. */
  function Join(pieces: seq<string>, sep: char): string
    requires |pieces| >= 1
  {
    if |pieces| == 1 then pieces[0] else pieces[0] + [sep] + Join(pieces[1..], sep)
  }

  /** Joining the pieces of a split gives back the original string. */
  lemma {:induction false} JoinSplit(s: string, sep: char)
    ensures Join(Split(s, sep), sep) == s
    decreases |s|
  {
    if s != [] {
      var rest := Split(s[1..], sep);
      JoinSplit(s[1..], sep);
      if s[0] == sep {
        assert Split(s, sep)[1..] == rest;
        assert s == [sep] + s[1..];
      } else if |rest| == 1 {
        assert s == [s[0]] + s[1..];
      } else {
        assert Split(s, sep)[1..] == rest[1..];
        assert Join(rest, sep) == rest[0] + [sep] + Join(rest[1..], sep);
        assert s == [s[0]] + s[1..];
      }
    }
  }

  /** A string without `sep` followed by `sep` splits into that string followed by the split of the rest. */
  lemma {:induction false} SplitAfterSeparator(a: string, b: string, sep: char)
    requires sep !in a
    ensures Split(a + [sep] + b, sep) == [a] + Split(b, sep)
    decreases |a|
  {
    if a != [] {
      SplitAfterSeparator(a[1..], b, sep);
      var s := a + [sep] + b;
      assert s[0] == a[0] && s[0] != sep;
      assert s[1..] == a[1..] + [sep] + b;
      var rest := Split(s[1..], sep);
      assert rest == [a[1..]] + Split(b, sep);
      assert [a[0]] + a[1..] == a;
      assert Split(s, sep) == [[a[0]] + rest[0]] + rest[1..];
    } else {
      assert a + [sep] + b == [sep] + b;
      assert ([sep] + b)[1..] == b;
    }
  }

  /** A string without `sep` is a single piece. */
  lemma {:induction false} SplitWithoutSeparator(a: string, sep: char)
    requires sep !in a
    ensures Split(a, sep) == [a]
    decreases |a|
  {
    if a != [] {
      SplitWithoutSeparator(a[1..], sep);
      assert [a[0]] + a[1..] == a;
    }
  }

  /** The first piece is the text before the first `sep` (or all of `s`), and the remaining pieces split what follows it. */
  lemma {:induction false} SplitFirstPiece(s: string, sep: char)
    ensures Split(s, sep)[0] <= s
    ensures |Split(s, sep)[0]| < |s| ==> s[|Split(s, sep)[0]|] == sep
    ensures |Split(s, sep)[0]| < |s| ==> Split(s, sep)[1..] == Split(s[|Split(s, sep)[0]| + 1..], sep)
    ensures |Split(s, sep)[0]| == |s| ==> |Split(s, sep)| == 1
    decreases |s|
  {
    if s != [] && s[0] != sep {
      SplitFirstPiece(s[1..], sep);
      var rest := Split(s[1..], sep);
      assert Split(s, sep)[0] == [s[0]] + rest[0];
      if |rest[0]| < |s[1..]| {
        assert s[|rest[0]| + 2..] == s[1..][|rest[0]| + 1..];
      }
    }
  }

  /**
   * Splits `name` at its spaces: `firstName` is the first piece, `lastName` the second piece or
   * null when there is none; any further pieces are dropped.
   */
  function ReturnMultiple(name: string): (r: (string, Option<string>))
    // firstName is the text before the first space, or the whole name
    ensures ' ' !in r.0 && r.0 <= name
    ensures |r.0| < |name| ==> name[|r.0|] == ' '
    // lastName is null exactly when the name has no space
    ensures r.1.None? <==> ' ' !in name
    // otherwise it is the text between the first space and the second one (or the end)
    ensures r.1.Some? ==>
      && ' ' !in r.1.value
      && r.0 + " " + r.1.value <= name
      && (|r.0| + 1 + |r.1.value| < |name| ==> name[|r.0| + 1 + |r.1.value|] == ' ')
  {
    var names := Split(name, ' ');
    SplitFirstPiece(name, ' ');
    if |names| > 1 then
      SplitFirstPiece(name[|names[0]| + 1..], ' ');
      assert names[0] + " " == name[..|names[0]| + 1];
      (names[0], Some(names[1]))
    else
      (names[0], None)
  }

  /** The out-parameter test: "Damon Allison" yields "Damon" and "Allison". */
  lemma ReturnMultipleExample()
    ensures ReturnMultiple("Damon Allison") == ("Damon", Some("Allison"))
  {
    assert "Damon Allison" == "Damon" + [' '] + "Allison";
    SplitAfterSeparator("Damon", "Allison", ' ');
    SplitWithoutSeparator("Allison", ' ');
  }

  /** Pieces after the second are dropped: "a b c" gives ("a", "b"). */
  lemma ReturnMultipleDropsFurtherPieces(first: string, last: string, more: string)
    requires ' ' !in first && ' ' !in last
    ensures ReturnMultiple(first + " " + last + " " + more) == (first, Some(last))
  {
    assert first + " " + last + " " + more == first + [' '] + (last + [' '] + more);
    SplitAfterSeparator(first, last + [' '] + more, ' ');
    SplitAfterSeparator(last, more, ' ');
  }

  /** The number of arguments passed to a `params` array. */
  function Params(parameters: seq<Option<string>>): nat
  {
    |parameters|
  }

  /** The params test: no argument, one and two arguments. */
  lemma ParamsExamples()
    ensures Params([]) == 0
    ensures Params([Some("damon")]) == 1
    ensures Params([Some("Damon"), Some("Allison")]) == 2
  {
  }

  /** `$"{firstName} {lastName}"`, with the defaults "FirstName" and "LastName". */
  function OptionalName(firstName: Option<string> := Some("FirstName"), lastName: Option<string> := Some("LastName")): string
  {
    Render(firstName) + " " + Render(lastName)
  }

  /** The optional-parameter test: defaults, one named argument, and named arguments out of order. */
  lemma OptionalNameExamples()
    ensures OptionalName() == "FirstName LastName"
    ensures OptionalName(firstName := Some("Damon")) == "Damon LastName"
    ensures OptionalName(lastName := Some("Allison"), firstName := Some("Damon")) == "Damon Allison"
  {
  }

  /** `ReturnMultiple` takes apart what `OptionalName` puts together, when neither name holds a space. */
  lemma ReturnMultipleInvertsOptionalName(firstName: string, lastName: string)
    requires ' ' !in firstName && ' ' !in lastName
    ensures ReturnMultiple(OptionalName(Some(firstName), Some(lastName))) == (firstName, Some(lastName))
  {
    assert OptionalName(Some(firstName), Some(lastName)) == firstName + [' '] + lastName;
    SplitAfterSeparator(firstName, lastName, ' ');
    SplitWithoutSeparator(lastName, ' ');
  }
}
