/** The usual optional value, used for a node's missing parent and for table lookups. */
module Wrappers {
  datatype Option<+T> = None | Some(value: T)
}
