/** Failure-carrying datatypes shared by the parsers and directives.
    `Option` stands for Python's `None`/value and JavaScript's
    missing-element checks; `Result` stands for a computation that may
    raise (a Python exception, a docutils directive error). */
module Wrappers {

  datatype Option<+T> = None | Some(value: T) {

    /** The value, or `default` when there is none. */
    function GetOr(default: T): T {
      match this
      case Some(v) => v
      case None => default
    }
  }

  datatype Result<+T, +E> = Ok(value: T) | Err(error: E) {

    predicate IsFailure() {
      Err?
    }
  }
}
