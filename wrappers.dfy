/** The optional-value type used for the script's failure paths. */
module Wrappers {
  datatype Option<+T> = None | Some(value: T)
}
