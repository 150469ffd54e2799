/** Optional values: JavaScript's `undefined` / "not found" and a failed parse. */
module Wrappers {
  datatype Option<+T> = None | Some(value: T)

  datatype Result<+R, +E> = Ok(value: R) | Err(error: E)
}
