/** Option and Result values used for the service's "absent" answers and thrown errors. */
module Wrappers {

  datatype Option<+T> = None | Some(value: T)

  /** The outcome of an operation that the TypeScript service either completes or aborts by throwing. */
  datatype Result<+R, +E> = Success(value: R) | Failure(error: E)
}
