/** The optional value used where the page script works with `null` or `undefined`. */
module Wrappers {
  datatype Option<+T> = None | Some(value: T)
}
