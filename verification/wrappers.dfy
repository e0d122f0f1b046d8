/** The optional-value type used for "no match" results. */
module Wrappers {
  datatype Option<+T> = None | Some(value: T)
}
