/** A value or NULL. */
module Wrappers {
  datatype Option<+T> = None | Some(value: T)
}
