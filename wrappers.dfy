/** The optional value used for "not found" and "does not parse" results. */
module Wrappers {
  datatype Option<+T> = None | Some(value: T)
}
