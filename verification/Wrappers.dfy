/**
 A value that may be absent: the source's NULL pointers and failing calls.
 */
module Wrappers {
  datatype Option<+T> = None | Some(value: T)
}
