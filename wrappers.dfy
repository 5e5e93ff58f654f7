/** Failure-compatible result types and the error kinds the reader raises. */
module Wrappers {

  /** The kinds of exception the reader can raise. */
  datatype Error =
    | InvalidData       // InvalidDataException: no valid meta page, an unexpected page type, a non-leaf inline page
    | InvalidOperation  // InvalidOperationException: an inline bucket location resolved through the page reader
    | OutOfRange        // the exception raised by reading past the end of a byte buffer
    | DepthExceeded     // the bound on the tree walk's recursion, standing for the call stack it can exhaust

  /** An optional value; `None` plays the part of the source's `null`. */
  datatype Option<+T> = None | Some(value: T)

  /** The value of an operation that may raise one of the errors above. */
  datatype Result<+T> = Success(value: T) | Failure(error: Error) {
    predicate IsFailure() {
      Failure?
    }

    function PropagateFailure<U>(): Result<U>
      requires Failure?
    {
      Failure(error)
    }

    function Extract(): T
      requires Success?
    {
      value
    }
  }

  /** The outcome of an operation that returns nothing but may raise an error. */
  datatype Outcome = Pass | Fail(error: Error)
}
