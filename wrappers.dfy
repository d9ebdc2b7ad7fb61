/** The optional value used where the source has a value or `null`. */
module Wrappers {
  datatype Option<+T> = None | Some(value: T)
}
