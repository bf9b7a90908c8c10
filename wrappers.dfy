/** Optional values and success-or-error results, the two shapes the relay
    uses for "a dict key that may be absent" and "a translation that may
    raise". */
module Wrappers {

  /** A value that may be missing: a Python `None`, or a dict key left out. */
  datatype Option<+T> = None | Some(value: T)

  /** The outcome of an operation that either yields a value or stops with an error. */
  datatype Result<+T, +E> = Ok(value: T) | Err(error: E)
}
