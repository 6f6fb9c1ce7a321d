/** The optional value used for "no selection" and "nothing emitted". */
module Wrappers {
  datatype Option<+T> = None | Some(value: T)
}
