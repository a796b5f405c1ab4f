/** Failure-compatible wrappers: an optional value and a success-or-error result. */
module Wrappers {

  /** A value that may be absent: a JavaScript `undefined`/falsy field, a regex
      that did not match, an extraction that threw. */
  datatype Option<+T> = None | Some(value: T) {

    /** The wrapped value, or `default` when absent (JavaScript's `x || default`). */
    function GetOr(default: T): (r: T)
      ensures Some? ==> r == value
      ensures None? ==> r == default
    {
      match this
      case Some(v) => v
      case None => default
    }
  }

  /** The outcome of a route handler: a value, or the error it answers with. */
  datatype Result<+R, +E> = Success(value: R) | Failure(error: E)
}
