/** Optional values, and results that carry either a value or the exception the
    C# code would throw instead of returning it. */
module Wrappers {

  /** A value or nothing; `None` stands for C#'s `null`. */
  datatype Option<+T> = None | Some(value: T)

  /** The value an operation returns, or the exception it throws. Usable with `:-`. */
  datatype Result<+T, +E> = Success(value: T) | Failure(error: E) {

    predicate IsFailure() {
      Failure?
    }

    function PropagateFailure<U>(): Result<U, E>
      requires Failure?
    {
      Failure(error)
    }

    function Extract(): T
      requires Success?
    {
      value
    }
  }

  /** The .NET exception types that the modelled code throws. */
  datatype Exception =
    | NotSupported        // NotSupportedException, from the constructor's range guard
    | ArgumentOutOfRange  // ArgumentOutOfRangeException, from the calendar or from Substring
    | Argument            // ArgumentException, from a day step whose result leaves the range
    | IndexOutOfRange     // IndexOutOfRangeException, from indexing a constant table
    | FormatError         // FormatException, the only exception Parse lets escape
}
