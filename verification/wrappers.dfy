/** Failure-compatible datatypes used across the model: Python's `None`
    results and raised exceptions become values of these types. */
module Wrappers {

  /** `None` / a present value. */
  datatype Option<+T> = None | Some(value: T) {
    predicate IsFailure() { None? }

    function PropagateFailure<U>(): Option<U>
      requires None?
    {
      None
    }

    function Extract(): T
      requires Some?
    {
      value
    }
  }

  /** A returned value, or the exception the Python code raises instead. */
  datatype Result<+R, +E> = Success(value: R) | Failure(error: E) {
    predicate IsFailure() { Failure? }

    function PropagateFailure<U>(): Result<U, E>
      requires Failure?
    {
      Failure(error)
    }

    function Extract(): R
      requires Success?
    {
      value
    }
  }

  /** The Python exceptions the modelled code can raise. */
  datatype PyException =
    | IndexError
    | ValueError
    | KeyError
    | AttributeError
    | NameError
    | ZeroDivisionError
    | TypeError
    | RuntimeError(message: string)
}
