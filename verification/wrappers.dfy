/** Failure-compatible wrappers shared by every module of the model.

    `Option` stands for a Java reference that may be `null`; `Result` stands for
    a call that either returns a value or throws.
 */
module Wrappers {

  /** `None` plays the part of Java's `null`. */
  datatype Option<+T> = None | Some(value: T) {

    /** The wrapped value, or `default` when there is none. */
    function GetOr(default: T): T {
      match this
      case Some(v) => v
      case None => default
    }
  }

  /** `Failure` plays the part of a thrown exception. */
  datatype Result<+T, +E> = Success(value: T) | Failure(error: E) {

    predicate IsFailure() {
      Failure?
    }

    function PropagateFailure<U>(): Result<U, E>
      requires Failure?
    {
      Failure(error)
    }

    function Extract(): T
      requires Success?
    {
      value
    }
  }
}
