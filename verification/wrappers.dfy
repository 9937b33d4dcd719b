/** Result shapes used where folly's Range.h returns a sentinel or throws. */
module Wrappers {

  /** An optional offset. `None` plays the role of `std::string::npos`, the
      "not found" sentinel that every `qfind` and `find` overload returns. */
  datatype Option<+T> = None | Some(value: T)

  /** The outcome of a checked operation: a value, or a recoverable error in
      place of the C++ exception. */
  datatype Result<+T, +E> = Ok(value: T) | Err(error: E)
}
