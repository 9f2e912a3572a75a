/** Absent values and failures of the query layer. */
module Wrappers {

  /** A value that may be missing, in place of Java's null. */
  datatype Option<T> = None | Some(value: T)

  /** Either a result or the fault the Java code would raise instead. */
  datatype Result<T, E> = Success(value: T) | Failure(error: E)
}
