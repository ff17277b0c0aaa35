/** The optional value used where the source has `null` or an absent argument. */
module Wrappers {
  datatype Option<+T> = None | Some(value: T)
}
