/** Optional values, and calls that may throw. */
module Wrappers {

  datatype Option<+T> = None | Some(value: T)

  /** A call that either returns or ends in the named C++ exception. */
  datatype Result<+T> = Ok(value: T) | Throws(what: Exception)

  datatype Exception = OutOfRange | InvalidArgument | LogicError
}
