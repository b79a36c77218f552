/** The optional value the extractors return when a pattern does not match. */
module Wrappers {

  datatype Option<+T> = None | Some(value: T)
}
