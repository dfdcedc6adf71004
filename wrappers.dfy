/** The optional result of a parser rule or of a lookup. */
module Wrappers {
  datatype Option<+T> = None | Some(value: T)
}
