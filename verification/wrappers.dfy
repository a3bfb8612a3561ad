/** Optional values: the outcome of an operation that may reject its input. */
module Wrappers {

  datatype Option<+T> = None | Some(value: T)
}
