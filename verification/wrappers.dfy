/** Failure-carrying values shared by every module: `Option` for values that
    may be absent (Python's `None`) and `Result` for operations that raise. */
module Wrappers {

  datatype Option<+T> = None | Some(value: T)

  /** The exception classes the modelled code raises. */
  datatype Error =
    | ValueError
    | TypeError
    | KeyError
    | IndexError
    | AssertionError
    | NotFittedError
    | NotImplementedError
    | UnboundLocalError
    | AttributeError

  datatype Result<+T> = Success(value: T) | Failure(error: Error) {
    predicate IsFailure() { Failure? }

    function PropagateFailure<U>(): Result<U>
      requires Failure?
    {
      Failure(error)
    }

    function Extract(): T
      requires Success?
    {
      value
    }
  }
}
