/** The optional value used where the DOM returns a node or null. */
module Wrappers {
  datatype Option<T> = None | Some(value: T)
}
