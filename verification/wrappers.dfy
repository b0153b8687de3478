/** Optional values: a C++ pointer that may be null, or a lookup that may miss. */
module Wrappers {

  datatype Option<+T> = None | Some(value: T)

}
