/** Failure-carrying values used to model the outcomes of external services. */
module Wrappers {

  /** `None` stands for a call that raised instead of returning a value. */
  datatype Option<+T> = None | Some(value: T) {

    /** The value, or `default` when there is none (Python's `dict.get(key, default)`). */
    function GetOr(default: T): (r: T)
      ensures Some? ==> r == value
      ensures None? ==> r == default
    {
      match this
      case Some(v) => v
      case None => default
    }
  }

  /** The outcome of a request handler: a value, or the error that aborted it. */
  datatype Result<+R, +E> = Success(value: R) | Failure(error: E)
}
