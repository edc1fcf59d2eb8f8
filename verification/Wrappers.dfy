/** A value that may be absent: the source's NULL results. */
module Wrappers {
  datatype Option<+T> = None | Some(value: T)
}
