/** The optional-value datatype used for the model's error paths and parsers. */
module Wrappers {
  datatype Option<T> = None | Some(value: T)
}
