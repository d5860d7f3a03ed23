/** Absence and failure, as the JavaScript code expresses them with `undefined`
    and thrown errors. */
module Wrappers {

  /** `undefined`/`null` versus a present value. */
  datatype Option<+T> = None | Some(value: T)

  /** A call that either returns a value or throws. */
  datatype Result<+T, +E> = Success(value: T) | Failure(error: E)
}
