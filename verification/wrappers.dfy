/** The optional value the message parser and the command-line driver return. */
module Wrappers {
  datatype Option<T> = None | Some(value: T)
}
