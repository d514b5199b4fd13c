/** Failure-carrying results: Python's `None` / missing-value returns and raised exceptions. */
module Wrappers {

  datatype Option<+T> = None | Some(value: T)

  /** The error side names the Python exception the source would raise. */
  datatype Error = KeyError | TypeError | ValueError | AttributeError | EmptyQueryResult | NoIndexResult

  datatype Result<+T> = Ok(value: T) | Err(error: Error)
}
