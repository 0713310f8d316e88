/** Optional values and fallible results, the shapes every other module uses
    for Python's `None` and for exceptions the generator lets escape. */
module Wrappers {

  /** A value that may be absent, as a Python `None` or a missing JSON key. */
  datatype Option<+T> = None | Some(value: T)

  /** The outcome of a computation that may raise. */
  datatype Result<+T, +E> = Ok(value: T) | Err(error: E)
}
