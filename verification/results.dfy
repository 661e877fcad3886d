/** Failure-carrying wrappers shared by the formatting and patching modules. */
module Results {

  /** A value that may be absent, e.g. a node's missing first child. */
  datatype Option<+T> = None | Some(value: T)

  /** The outcome of an operation that either yields a value or raises an error. */
  datatype Result<+T, +E> = Success(value: T) | Failure(error: E)
}
