/** Optional values, used for the outcome of parsing text as an integer. */
module Wrappers {
  datatype Option<+T> = None | Some(value: T)
}
