/** Option and Result, the two failure-carrying datatypes the model uses:
    Option for a nullable cell, Result for a run that can abort. */
module Wrappers {

  /** A possibly missing value: a null cell, or a parse that produced nothing. */
  datatype Option<+T> = None | Some(value: T)

  /** The outcome of an operation that either succeeds or raises. */
  datatype Result<+T, +E> = Ok(value: T) | Err(error: E)
}
