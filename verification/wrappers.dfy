/** Optional values and success/failure results, standing in for JavaScript's
    `null`/`undefined` and for promises that resolve or reject. */
module Wrappers {

  /** `None` plays the part of `null` (or an absent property). */
  datatype Option<+T> = None | Some(value: T) {

    /** The wrapped value, or `default` when there is none. */
    function GetOr(default: T): T {
      match this
      case Some(v) => v
      case None => default
    }
  }

  /** The outcome of an asynchronous call: it resolves with a value or rejects with an error message. */
  datatype Result<+R, +E> = Success(value: R) | Failure(error: E)
}
