/** Optional values and results with an error, used for the Java methods that
    return -1 for "absent" and for the exceptions the parsers throw. */
module Wrappers {

  datatype Option<+T> = None | Some(value: T)

  datatype Result<+T, +E> = Ok(value: T) | Err(error: E)
}
