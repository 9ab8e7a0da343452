/** The optional value used for parse results and fetch outcomes. */
module Wrappers {
  datatype Option<+T> = None | Some(value: T)
}
