/** Option, as the lookups and the line splitter return it. */
module Wrappers {
  datatype Option<+T> = None | Some(value: T)
}
