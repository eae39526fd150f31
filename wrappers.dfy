/** An optional value, for the fields the source leaves unset or `None`. */
module Wrappers {
  datatype Option<T> = None | Some(value: T)
}
