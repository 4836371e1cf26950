/** Optional values and value-or-error results. `None` stands for the
    `null` a JavaScript library call can return; `Err` stands for an
    exception that rejects the promise chain instead of producing a value. */
module Wrappers {

  datatype Option<+T> = None | Some(value: T)

  datatype Result<+T, +E> = Ok(value: T) | Err(error: E)
}
