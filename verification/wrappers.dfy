/** Failure-carrying wrappers shared by every module of the model. */
module Wrappers {

  /** A value that may be absent (pandas' NaN for an empty reduction, a missing key). */
  datatype Option<+T> = None | Some(value: T)

  /** The exceptions the modelled Python code can raise, by their Python class. */
  datatype Exception =
    | ValueError(reason: string)
    | IndexError(reason: string)
    | KeyError(key: int)
    | ZeroDivisionError

  /** Either a value or the exception that interrupted the computation. */
  datatype Result<+T> = Ok(value: T) | Err(error: Exception) {

    predicate IsFailure() {
      Err?
    }

    function PropagateFailure<U>(): Result<U>
      requires Err?
    {
      Err(error)
    }

    function Extract(): T
      requires Ok?
    {
      value
    }
  }
}
