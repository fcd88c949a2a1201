/** Failure-compatible wrappers shared by the other modules: an optional value
    (JavaScript's `undefined`/`null`, PHP's `null` or `false`) and the outcome of
    a check that either passes or fails with a message. */
module Wrappers {

  datatype Option<+T> = None | Some(value: T) {

    /** The value, or `default` when there is none (`?? default`). */
    function GetOr(default: T): T {
      match this
      case Some(v) => v
      case None => default
    }
  }

  /** The result of a check that throws an error with a message on failure. */
  datatype Outcome<+E> = Pass | Fail(error: E)
}
