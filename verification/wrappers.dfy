/** Failure-compatible wrappers shared by every module of the model. */
module Wrappers {

  /** An optional argument: Python's `None` or a value. */
  datatype Option<+T> = None | Some(value: T) {

    /** The value, or `default` when the argument was `None`. */
    function GetOr(default: T): T {
      match this
      case Some(v) => v
      case None => default
    }
  }

  /** The exceptions the modelled operations can raise. */
  datatype Error =
    | StructError      // struct.error: a value out of range for its format code, or a buffer of the wrong size
    | Corrupted        // KeyError("DATABASE CORRUPTED") raised by calculate_offset; also a stored record whose offsets are out of order
    | MissingArgument  // TypeError: a two-argument helper called with a single argument

  /** The outcome of an operation that may raise. */
  datatype Result<+T> = Ok(value: T) | Err(error: Error) {

    predicate IsFailure() {
      Err?
    }

    function PropagateFailure<U>(): Result<U>
      requires Err?
    {
      Err(error)
    }

    function Extract(): T
      requires Ok?
    {
      value
    }
  }
}
