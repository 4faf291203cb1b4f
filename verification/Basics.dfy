/** The optional value used where the source has a pointer that may be null. */
module Basics {
  datatype Option<+T> = None | Some(value: T)
}
