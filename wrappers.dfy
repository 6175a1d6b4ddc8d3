/** Optional values: the spider's `None`. */
module Wrappers {
  datatype Option<+T> = None | Some(value: T)
}
