/** Optional values, used for board holes and for the source's error paths. */
module Wrappers {
  datatype Option<+T> = None | Some(value: T)
}
