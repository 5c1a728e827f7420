/** The optional-value type shared by the other modules. */
module Wrappers {

  /** A value that may be absent: a dictionary lookup that misses, a frame that is skipped. */
  datatype Option<+T> = None | Some(value: T)
}
