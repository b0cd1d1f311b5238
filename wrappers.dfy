/** The optional value used for an argument the caller may omit. */
module Wrappers {

  datatype Option<+T> = None | Some(value: T)
}
