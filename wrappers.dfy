/** Optional values: a bracket scan either finds its partner or runs off the code. */
module Wrappers {
  datatype Option<T> = None | Some(value: T)
}
