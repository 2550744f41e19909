/** Option and Result, the two failure-carrying shapes the duration model uses. */
module Wrappers {

  /** Ruby's nil-or-value. */
  datatype Option<+T> = None | Some(value: T) {

    /** `x || default` for a possibly-nil x. */
    function GetOr(default: T): T {
      match this
      case Some(v) => v
      case None => default
    }
  }

  /** A value, or the exception the Ruby code raises instead. */
  datatype Result<+R, +E> = Success(value: R) | Failure(error: E)
}
