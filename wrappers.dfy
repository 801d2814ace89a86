/** The optional value both tools return as `nil` or a value. */
module Wrappers {

  datatype Option<+T> = None | Some(value: T)
}
