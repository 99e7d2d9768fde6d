/** Option, for lookups that may find nothing (the source's `null`). */
module Wrappers {
  datatype Option<+T> = None | Some(value: T)
}
