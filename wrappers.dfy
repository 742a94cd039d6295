/** Option and Result, used for Java's nullable references and thrown exceptions. */
module Wrappers {

  datatype Option<+T> = None | Some(value: T)

  /** `Failure` carries the name of the exception the Java code would throw. */
  datatype Result<+R> = Success(value: R) | Failure(error: string)
}
