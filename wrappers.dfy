/** Optional values: `None` stands for Go's `nil` (or a missing `(value, true)` pair). */
module Wrappers {
  datatype Option<+T> = None | Some(value: T)
}
