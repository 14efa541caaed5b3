/** Option, Result and Outcome, and the .NET exceptions the modelled code can raise. */
module Wrappers {

  /** A reference or string that may be null. */
  datatype Option<+T> = None | Some(value: T)

  /** The exceptions the modelled code throws. */
  datatype Exception =
    | NullReference      // System.NullReferenceException
    | ArgumentNull       // System.ArgumentNullException
    | InvalidOperation   // System.InvalidOperationException

  /** A value, or the exception raised instead of returning it. */
  datatype Result<+T> = Success(value: T) | Failure(error: Exception)

  /** Normal completion of a `void` member, or the exception it raised. */
  datatype Outcome = Pass | Fail(error: Exception)

  /** String interpolation renders a null string as the empty string. */
  function Render(s: Option<string>): string
  {
    match s
    case None => ""
    case Some(v) => v
  }
}
