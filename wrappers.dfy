/** The optional value used for nullable columns and failed lookups. */
module Wrappers {
  datatype Option<+T> = None | Some(value: T)
}
