/** The exceptions the storage engine's Java code can throw, and the
    result types that stand for "returned normally" or "threw". */
module Outcomes {

  /** The exception classes the core throws or lets escape from the Java library. */
  datatype Exception =
    | IllegalArgument    // java.lang.IllegalArgumentException
    | IllegalState       // java.lang.IllegalStateException
    | IndexOutOfBounds   // java.lang.IndexOutOfBoundsException
    | BufferOverflow     // java.nio.BufferOverflowException
    | BufferUnderflow    // java.nio.BufferUnderflowException
    | NegativeArraySize  // java.lang.NegativeArraySizeException
    | ClassCast          // java.lang.ClassCastException

  /** A value-returning Java call: it returns `value` or throws `error`. */
  datatype Result<+T> = Ok(value: T) | Fail(error: Exception)

  /** A void Java call: it completes or throws `error`. */
  datatype Outcome = Done | Thrown(error: Exception)

  /** A Java reference that may be `null`. */
  datatype Option<+T> = None | Some(value: T)
}
