/** An optional argument. */
module Wrappers {
  datatype Option<+T> = None | Some(value: T)
}
