/** The optional result the parsers and readers return: None stands for the C code's error return. */
module Wrappers {
  datatype Option<T> = None | Some(value: T)
}
