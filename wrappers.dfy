/** Results of operations that the library can abort by throwing. */
module Wrappers {

  /** The kind of exception an operation ends with. */
  datatype Error =
    | IllegalArgument   // an IllegalArgumentException thrown by one of the library's own checks
    | IndexOutOfBounds  // an ArrayIndexOutOfBoundsException raised by an unchecked array access
    | EmptyReduce       // the UnsupportedOperationException of `reduce` on an empty array

  /** A value, or the exception that replaced it. */
  datatype Result<T> = Ok(value: T) | Err(error: Error) {
    predicate IsFailure() { Err? }
    function PropagateFailure<U>(): Result<U> requires Err? { Err(error) }
    function Extract(): T requires Ok? { value }
  }

  /** The outcome of an operation that only changes state. */
  datatype Outcome = Pass | Fail(error: Error) {
    predicate IsFailure() { Fail? }
    function PropagateFailure(): Outcome requires Fail? { this }
  }
}
