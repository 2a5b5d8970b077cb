/** Failure-compatible result type shared by the cursor, the format and the codec. */
module Wrappers {

  /** Every way an unpack or a repack can abort. */
  datatype Error =
    | BadMagic          // the first four bytes are not the "DAT" tag
    | ReadPastEnd       // a read runs beyond the end of the buffer
    | NegativeLength    // a read of a negative number of bytes
    | ValueOutOfRange   // a 32-bit field cannot hold the value to be written
    | FieldTooLong      // a string is longer than its fixed-width field

  datatype Result<+T> = Success(value: T) | Failure(error: Error) {

    predicate IsFailure() {
      Failure?
    }

    function PropagateFailure<U>(): Result<U>
      requires Failure?
    {
      Failure(error)
    }

    function Extract(): T
      requires Success?
    {
      value
    }
  }

  /** The result of a step that yields nothing but may fail, such as a write. */
  datatype Outcome = Pass | Fail(error: Error) {

    predicate IsFailure() {
      Fail?
    }

    function PropagateFailure<U>(): Result<U>
      requires Fail?
    {
      Failure(error)
    }
  }
}
