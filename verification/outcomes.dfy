/** Failure-carrying values used by every other module.

    The modelled code reports errors by raising Python exceptions; each raise
    becomes an `Err` carrying the exception class and its message, so that a
    caller sees the same error condition the program would stop with. */
module Outcomes {

  datatype Option<+T> = None | Some(value: T)

  /** The Python exception classes the modelled code can raise. */
  datatype Error =
    | ValueError(msg: string)
    | IndexError(msg: string)
    | KeyError(key: string)
    | TypeError(msg: string)

  datatype Result<+T> = Ok(value: T) | Err(error: Error) {

    predicate IsFailure() {
      Err?
    }

    function PropagateFailure<U>(): Result<U>
      requires Err?
    {
      Err(error)
    }

    function Extract(): T
      requires Ok?
    {
      value
    }
  }
}
