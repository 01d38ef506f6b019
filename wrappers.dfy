/** Optional values and results, standing in for the C code's nullable pointers,
    success-or-fallback results and reads the C code performs without a check. */
module Wrappers {

  datatype Option<+T> = None | Some(value: T)

  datatype Result<+T, +E> = Ok(value: T) | Err(error: E)
}
