/** Failure-carrying values: a thrown JavaScript error becomes `Failure(message)`,
    an `undefined` lookup becomes `None`. */
module Wrappers {

  datatype Option<+T> = None | Some(value: T)

  datatype Result<+R, +E> = Success(value: R) | Failure(error: E)
}
