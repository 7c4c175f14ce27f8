/** Optional values; `None` plays the part of the source's `null`. */
module Wrappers {
  datatype Option<+T> = None | Some(value: T)
}
