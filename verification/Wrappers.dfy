/** A value that may be absent: the source's optional fields and null returns. */
module Wrappers {
  datatype Option<+T> = None | Some(value: T)
}
