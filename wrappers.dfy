/** Failure-carrying return values: the model's stand-in for a CompletableFuture that
    completes either normally or exceptionally. */
module Wrappers {

  datatype Option<+T> = None | Some(value: T)

  datatype Result<+T, +E> = Ok(value: T) | Err(error: E)
}
