/** The optional value used for "parses or does not parse". */
module Wrappers {

  datatype Option<+T> = None | Some(value: T)
}
