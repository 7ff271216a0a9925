/** Optional results: a lookup that fails, a panic. */
module Wrappers {
  datatype Option<T> = None | Some(value: T)
}
