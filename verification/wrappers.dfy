/** Failure-compatible wrappers shared by the other modules: `Option` stands
    for a Java reference that may be null, `Result` for a call that may throw. */
module Wrappers {

  /** A possibly-absent value; `None` plays the role of Java's `null`. */
  datatype Option<+T> = None | Some(value: T)

  /** The outcome of a call that either returns a value or throws. */
  datatype Result<+T, +E> = Success(value: T) | Failure(error: E)
}
