/** The optional value the parsers and the statement log return. */
module Wrappers {

  datatype Option<T> = None | Some(value: T)
}
