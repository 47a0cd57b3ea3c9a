/** Optional values: a C pointer that may be null is an `Option`. */
module Wrappers {

  datatype Option<+T> = None | Some(value: T)
}
