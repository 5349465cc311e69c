/** Optional values and results: `None` stands for JavaScript's `undefined` or `null`,
    and a `Result` for a call that may fail. */
module Wrappers {

  datatype Option<+T> = None | Some(value: T)

  datatype Result<+T, +E> = Ok(value: T) | Err(error: E)
}
