/** Optional values, used for the deadlines that `read_line` may or may not have set. */
module Wrappers {

  /** The conventional Some/None datatype. */
  datatype Option<+T> = None | Some(value: T)
}
