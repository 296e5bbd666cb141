/** The optional result of a recogniser. */
module Wrappers {
  datatype Option<+T> = None | Some(value: T)
}
