/**
 * Values that may be missing, and answers that are either a value or the
 * exception `Fig.__getitem__` raises in its place.
 */
module Outcomes {

  /** A slice part that may be left out. */
  datatype Option<+T> = None | Some(value: T) {

    /** The part that was given, or `default` when it was left out. */
    function GetOr(default: T): T {
      if Some? then value else default
    }
  }

  /** Either what `Fig.__getitem__` returns, or what it raises. */
  datatype Result<+T, +E> = Success(value: T) | Failure(error: E)
}
