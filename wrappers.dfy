/** Optional values: Go's nil-or-value results, such as an `error` that may be nil. */
module Wrappers {

  datatype Option<+T> = None | Some(value: T)
}
