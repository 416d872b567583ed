/** The optional value used for C's NULL pointers and "not found" results. */
module Wrappers {

  datatype Option<+T> = None | Some(value: T)
}
