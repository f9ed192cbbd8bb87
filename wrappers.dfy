/** The optional value used where the firmware has no defined result. */
module Wrappers {
  datatype Option<+T> = None | Some(value: T)
}
