/** Failure kinds of the list and the wrappers that carry them.

    Every exception the list can raise is reported as a value of `Error`,
    named after the .NET exception type the code throws; the message texts
    are not modelled. */
module Errors {

  datatype Error =
    | ArgumentNull        // ArgumentNullException
    | ArgumentOutOfRange  // ArgumentOutOfRangeException
    | IndexOutOfRange     // IndexOutOfRangeException
    | Argument            // ArgumentException (also the re-wrapped comparer failures)
    | InvalidOperation    // InvalidOperationException

  /** A reference that may be null: a comparer, a comparison delegate. */
  datatype Option<+T> = None | Some(value: T)

  /** The value an operation returns, or the exception it throws instead. */
  datatype Result<+R> = Ok(value: R) | Err(error: Error)

  /** The outcome of an operation that returns nothing. */
  datatype Outcome = Pass | Fail(error: Error)
}
