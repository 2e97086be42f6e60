/** Absent values and failing operations, in place of Java's null returns and exceptions. */
module Wrappers {

  /** `None` stands where the Java code returns `null`. */
  datatype Option<+T> = None | Some(value: T)

  /** `Failure` stands where the Java code throws. */
  datatype Result<+T, +E> = Success(value: T) | Failure(error: E)
}
