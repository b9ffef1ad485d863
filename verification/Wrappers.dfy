/** Optional values, for the pointers that may be null in the C++ sources. */
module Wrappers {
  datatype Option<+T> = None | Some(value: T)
}
