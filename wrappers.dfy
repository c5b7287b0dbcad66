/** Optional values: a query parameter or a JSON key that may be absent, a result that may be missing. */
module Wrappers {
  datatype Option<+T> = None | Some(value: T)
}
