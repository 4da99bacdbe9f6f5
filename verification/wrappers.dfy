/** Shared result types: Java's null and thrown exceptions become values. */
module Wrappers {

  /** A value that may be absent (Java `null`). */
  datatype Option<+T> = None | Some(value: T)

  /** The exception kinds the modelled Java code throws. */
  datatype Error =
    | IndexOutOfBounds   // IndexOutOfBoundsException
    | IllegalArgument    // IllegalArgumentException
    | Empty              // RuntimeException("... is empty")

  /** Either a value or the exception that a Java method would throw instead. */
  datatype Result<+T> = Ok(value: T) | Err(error: Error)
}
