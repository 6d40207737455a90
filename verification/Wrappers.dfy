/** Optional values, used where the broker returns an `Option`. */
module Wrappers {
  datatype Option<+T> = None | Some(value: T)
}
