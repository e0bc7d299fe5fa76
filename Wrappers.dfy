/** Python's `None` and the parser's failure sentinels, as datatypes. */
module Wrappers {

  /** A value that may be absent: `None` stands for Python's `None`. */
  datatype Option<+T> = None | Some(value: T)

  /** The outcome of an operation that can fail. */
  datatype Result<+T, +E> = Success(value: T) | Failure(error: E)
}
