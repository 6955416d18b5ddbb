/** Optional values, used where the source either produces something or not. */
module Wrappers {
  datatype Option<T> = None | Some(value: T)
}
