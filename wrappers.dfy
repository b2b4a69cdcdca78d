/** Optional values, for the arguments the source may leave out. */
module Wrappers {
  datatype Option<T> = None | Some(value: T)
}
