/** The optional value used for "no table entry matched". */
module Wrappers {

  datatype Option<+T> = None | Some(value: T)
}
