/** The optional value that the extractor returns: Python's `None` or a number. */
module Wrappers {
  datatype Option<+T> = None | Some(value: T)
}
