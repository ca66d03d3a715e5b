/** The Option datatype used for "a node, or nothing" (Python's None). */
module Wrappers {
  datatype Option<+T> = None | Some(value: T)
}
