/** Failure-carrying values: a JavaScript value that may be `undefined`, and
    an operation that either returns or throws. */
module Outcome {

  /** `None` stands for JavaScript's `undefined`. */
  datatype Option<+T> = None | Some(value: T)

  /** `Failure` stands for an exception thrown or a promise rejected. */
  datatype Result<+T, +E> = Success(value: T) | Failure(error: E)
}
