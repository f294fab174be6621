/** A value or nothing: the source's nullable fields and results. */
module Wrappers {
  datatype Option<+T> = None | Some(value: T)
}
