/** A value that may be absent, shared by the controller and the palette. */
module Wrappers {
  datatype Option<T> = None | Some(value: T)
}
