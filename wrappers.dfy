/** The usual optional value, for lookups and loads that can miss or fail. */
module Wrappers {
  datatype Option<+T> = None | Some(value: T)
}
