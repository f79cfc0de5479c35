/** Failure-compatible wrappers shared by the modules of this model: a Java
    reference that may be null becomes an Option, a call that may throw
    becomes a Result or an Outcome. */
module Wrappers {

  datatype Option<+T> = None | Some(value: T)

  datatype Result<+R, +E> = Success(value: R) | Failure(error: E)

  /** The result of a call that either returns normally or throws. */
  datatype Outcome<+E> = Pass | Fail(error: E)
}
