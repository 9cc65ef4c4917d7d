/** Option and Result: an absent value and an operation that either succeeds or fails with an error. */
module Wrappers {

  datatype Option<+T> = None | Some(value: T) {
    /** The value, or the given default when absent (JavaScript's `x || default` for strings). */
    function GetOr(default: T): T {
      if Some? then value else default
    }
  }

  datatype Result<+T, +E> = Success(value: T) | Failure(error: E)
}
