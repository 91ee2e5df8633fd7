/** Option for Java's nullable references, Result for a value or a thrown exception. */
module Wrappers {

  /** A Java reference that may be null. */
  datatype Option<+T> = None | Some(value: T)

  /** Either a computed value or the error a Java method throws instead. */
  datatype Result<+R, +E> = Success(value: R) | Failure(error: E)
}
