/** Failure-compatible helper datatypes shared by the whole model. */
module Wrappers {

  /** An optional value: `None` stands for JavaScript's `undefined`/`null`. */
  datatype Option<+T> = None | Some(value: T) {

    /** The value, or `default` when there is none. */
    function GetOr(default: T): T {
      match this
      case Some(v) => v
      case None => default
    }
  }

  /** The outcome of an operation that may throw. The source never raises errors of
      its own: every failure is a `TypeError` thrown by JavaScript when the code reads a
      property of a row that does not exist (an index past the end, a missing main row). */
  datatype Result<+T> = Success(value: T) | TypeError
}
