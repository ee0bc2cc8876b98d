/** Option and Result, standing in for Java's nullable references and thrown exceptions. */
module Wrappers {

  /** `None` stands for a Java `null`. */
  datatype Option<+T> = None | Some(value: T)

  /** `Failure` stands for an exception thrown before any state was changed. */
  datatype Result<+R, +E> = Success(value: R) | Failure(error: E)
}
