/** The optional value used for the server handle and for values that only some outcomes carry. */
module Wrappers {
  datatype Option<+T> = None | Some(value: T)
}
