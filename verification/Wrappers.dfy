/** Result types for the source's exceptions and optional values. */
module Wrappers {

  datatype Option<+T> = None | Some(value: T)

  /** The Python exceptions the modelled code can raise. */
  datatype Error =
    | KeyError
    | IndexError
    | TypeError
    | ValueError
    | StopIteration
    | OverflowError
    | StructError
    | ValidationError

  datatype Result<+T> = Ok(value: T) | Err(error: Error) {

    predicate IsFailure() {
      Err?
    }

    function PropagateFailure<U>(): Result<U>
      requires Err?
    {
      Err(error)
    }

    function Extract(): T
      requires Ok?
    {
      value
    }
  }
}
