/** Optional values and success-or-error results, used for the store's
    resolved and rejected promises and for absent fields of partial records. */
module Wrappers {

  datatype Option<+T> = None | Some(value: T) {
    /** The value held, or `default` when there is none. */
    function GetOr(default: T): T {
      match this
      case Some(v) => v
      case None => default
    }
  }

  /** A promise that resolves with a value or rejects with an error. */
  datatype Result<+R, +E> = Success(value: R) | Failure(error: E)

  /** A promise that resolves with nothing (`Promise<void>`) or rejects. */
  datatype Outcome<+E> = Pass | Fail(error: E)
}
