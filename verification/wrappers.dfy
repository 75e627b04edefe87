/** Value-level stand-ins for the .NET notions the core relies on: a reference
    that may be null, and an exception that a call may throw instead of
    returning. */
module Wrappers {

  /** A reference of type T that may be null; usable with `:-`, where Null
      propagates. */
  datatype Nullable<+T> = Null | NonNull(value: T) {
    predicate IsFailure() {
      Null?
    }

    function PropagateFailure<U>(): Nullable<U>
      requires Null?
    {
      Null
    }

    function Extract(): T
      requires NonNull?
    {
      value
    }
  }

  /** The exceptions the modelled members can throw. */
  datatype Exception =
    | ArgumentNull(paramName: string)   // System.ArgumentNullException
    | Argument                          // System.ArgumentException
    | NullReference                     // System.NullReferenceException
    | UnauthorizedAccess                // System.UnauthorizedAccessException
    | Format                            // System.FormatException

  /** What a call does: it returns a value or it throws. */
  datatype Outcome<+T> = Returned(value: T) | Threw(error: Exception)
}
