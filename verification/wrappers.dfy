/**
 The optional value, for what the source leaves `undefined` or `null`.
 */
module Wrappers {

  /** A value that may be absent. */
  datatype Option<+T> = None | Some(value: T)
}
