/** Failure-carrying results shared by the whole model. The Python source
    raises `KeyError` and `ValueError`; each is one constructor of `Error`. */
module Wrappers {

  /** The two exception classes the core raises. */
  datatype Error = KeyError | ValueError

  datatype Option<+T> = None | Some(value: T)

  /** The value of an operation that either returns normally or raises. */
  datatype Result<+T> = Success(value: T) | Failure(error: Error)

  /** The outcome of an operation that returns nothing or raises. */
  datatype Outcome = Pass | Fail(error: Error)
}
