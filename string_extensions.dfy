/** The `Capitalize` extension method on strings. */
module StringExtensions {
  import opened Wrappers

  /**
   * `value` with its first character upper-cased; a null or empty string is returned as it is.
   * The culture-dependent `ToUpper` of the one-character prefix is the parameter `upper`.
   */
  function Capitalize(value: Option<string>, upper: char -> char): (r: Option<string>)
    ensures value == None || value == Some("") ==> r == value
    ensures value.Some? && value.value != "" ==>
      && r.Some?
      && |r.value| == |value.value|
      && r.value[0] == upper(value.value[0])
      && r.value[1..] == value.value[1..]
  {
    match value
    case None => None
    case Some(s) => if s == "" then value else Some([upper(s[0])] + s[1..])
  }

  /** Capitalizing twice is capitalizing once, when upper-casing the first character is idempotent. */
  lemma CapitalizeIdempotent(value: Option<string>, upper: char -> char)
    requires value.Some? && value.value != "" ==> upper(upper(value.value[0])) == upper(value.value[0])
    ensures Capitalize(Capitalize(value, upper), upper) == Capitalize(value, upper)
  {
    if value.Some? && value.value != "" {
      var once := Capitalize(value, upper).value;
      assert [upper(once[0])] + once[1..] == once;
    }
  }

  /** Upper-casing of the ASCII letters, leaving every other character alone. */
  function AsciiUpper(c: char): (u: char)
    ensures !('a' <= u <= 'z')
    ensures u != c <==> 'a' <= c <= 'z'
    ensures 'a' <= c <= 'z' ==> 'A' <= u <= 'Z'
  {
    if 'a' <= c <= 'z' then (c as int - 32) as char else c
  }

  /** Upper-casing an ASCII letter twice is upper-casing it once. */
  lemma AsciiUpperIdempotent(c: char)
    ensures AsciiUpper(AsciiUpper(c)) == AsciiUpper(c)
  {
  }

  /** With the ASCII stand-in for `ToUpper`, capitalizing any string twice is capitalizing it once. */
  lemma CapitalizeAsciiIdempotent(value: Option<string>)
    ensures Capitalize(Capitalize(value, AsciiUpper), AsciiUpper) == Capitalize(value, AsciiUpper)
  {
    if value.Some? && value.value != "" {
      AsciiUpperIdempotent(value.value[0]);
    }
    CapitalizeIdempotent(value, AsciiUpper);
  }

  /** The extension-method test: "damon" capitalizes to "Damon". */
  lemma CapitalizeDamon()
    ensures Capitalize(Some("damon"), AsciiUpper) == Some("Damon")
  {
    assert AsciiUpper('d') == 'D';
    assert "damon"[1..] == "amon";
    assert ['D'] + "amon" == "Damon";
  }
}
