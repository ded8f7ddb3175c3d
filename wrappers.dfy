/** Option and Result, the shapes used for Python's `None` and for raised exceptions. */
module Wrappers {

  /** A value that may be missing, as `dict.get` and `os.environ.get` return it. */
  datatype Option<+T> = None | Some(value: T)

  /** The outcome of a command: a value, or the exception the command raises. */
  datatype Result<+R, +E> = Success(value: R) | Failure(error: E)
}
