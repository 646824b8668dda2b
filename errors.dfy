/** The three failures the serialisation engine raises, as values instead of exceptions. */
module Errors {

  datatype Error =
    | ValueExceedsMaximumSize(maxSize: nat)  // a member write longer than the member's width
    | BufferNotAligned(alignment: nat)       // a member read whose stored length is not aligned
    | BufferTooSmall                         // a record read from a buffer shorter than the record

  /** The result of an operation that yields a value or fails. */
  datatype Result<+T> = Ok(value: T) | Err(error: Error) {
    predicate IsFailure() { Err? }

    function PropagateFailure<U>(): Result<U>
      requires Err?
    {
      Err(error)
    }

    function Extract(): T
      requires Ok?
    {
      value
    }
  }

  /** The result of an operation that only succeeds or fails. */
  datatype Outcome = Pass | Fail(error: Error) {
    predicate IsFailure() { Fail? }

    function PropagateFailure(): Outcome
      requires Fail?
    {
      this
    }
  }
}
