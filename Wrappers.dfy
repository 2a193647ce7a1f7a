/** Optional values and fallible results, as the bridge's Rust code uses `Option` and `Result`. */
module Wrappers {

  datatype Option<+T> = None | Some(value: T)

  /** `Success`/`Failure` rather than `Ok`/`Err`, so that the protocol's own `Err` response stays unambiguous. */
  datatype Result<+T, +E> = Success(value: T) | Failure(error: E)
}
