/** The optional value used where the original program answers `null`. */
module Wrappers {
  datatype Option<+T> = None | Some(value: T)
}
