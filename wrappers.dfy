/** Option and Outcome: the two failure-carrying shapes the rotator needs. */
module Wrappers {

  /** A value that may be absent, as a Go pointer that may be nil. */
  datatype Option<+T> = None | Some(value: T) {
    function GetOr(default: T): T {
      match this
      case Some(v) => v
      case None => default
    }
  }

  /** The result of an operation that returns only an error, as a Go `error` that may be nil. */
  datatype Outcome<+E> = Pass | Fail(error: E)
}
