/** Optional values and error-carrying results, as the model's stand-in for
    Go's `(value, ok)` and `(value, error)` return pairs. */
module Wrappers {

  datatype Option<+T> = None | Some(value: T)

  /** `Err` carries the error text the Go code returns; `Ok` a value with a nil error. */
  datatype Result<+T> = Ok(value: T) | Err(error: string)
}
