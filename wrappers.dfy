/** The optional value used for containers that may be missing and for files that may not exist. */
module Wrappers {
  datatype Option<+T> = None | Some(value: T)
}
