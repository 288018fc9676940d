/** Optional values and error-carrying results. `None` stands for JavaScript's
    `null`/`undefined`, `Err` for a thrown `Error` and its message. */
module Wrappers {

  datatype Option<+T> = None | Some(value: T)

  datatype Result<+T> = Ok(value: T) | Err(message: string)
}
