/** The optional value used where a decoder may have nothing to return. */
module Wrappers {

  datatype Option<+T> = None | Some(value: T)
}
