/** The two wrappers the model uses: a value that may be absent, and the outcome of an
    operation that may raise. */
module Wrappers {

  datatype Option<+T> = None | Some(value: T)

  /** `Failure` stands for a Python exception; its payload carries the exception's message. */
  datatype Result<+R, +E> = Success(value: R) | Failure(error: E)
}
