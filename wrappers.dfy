/** Optional values: a missing form field, a NULL column, a parse that failed. */
module Wrappers {
  datatype Option<+T> = None | Some(value: T)
}
