/** Failure-carrying values: Java's checked outcomes (a failed parse, a thrown
    exception) become values instead of control flow. */
module Wrappers {

  datatype Option<+T> = None | Some(value: T)

  datatype Result<+T, +E> = Success(value: T) | Failure(error: E)
}
