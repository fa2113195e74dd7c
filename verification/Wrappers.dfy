/** The absent-or-present value used throughout. */
module Wrappers {
  datatype Option<+T> = None | Some(value: T)
}
