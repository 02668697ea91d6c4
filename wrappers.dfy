/** Option and Result datatypes shared by the crush map model. */
module Wrappers {

  /** A value that may be absent: Python's `None` return. */
  datatype Option<+T> = None | Some(value: T)

  /** The outcome of an operation that raises in `crushmap_parser.py`. */
  datatype Result<+T, +E> = Ok(value: T) | Err(error: E)
}
