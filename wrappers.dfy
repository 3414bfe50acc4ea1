/** The optional value used for RequestResult.error and for parsing. */
module Wrappers {
  datatype Option<+T> = None | Some(value: T)
}
