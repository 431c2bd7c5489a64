/** Failure-carrying values used in place of Java's null and exceptions. */
module Wrappers {

  /** A value that may be absent: `None` stands for a Java `null` reference. */
  datatype Option<+T> = None | Some(value: T)

  /** The two exceptions the autocomplete index can raise. */
  datatype Error =
    | IllegalArgument      // java.lang.IllegalArgumentException
    | IndexOutOfBounds     // java.lang.ArrayIndexOutOfBoundsException

  /** Either a normal result or the exception the Java code throws instead. */
  datatype Result<+R> = Ok(value: R) | Err(error: Error)
}
