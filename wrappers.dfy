/** Optional values: `None` stands for JavaScript's `undefined` (a missing value or a failed lookup). */
module Wrappers {
  datatype Option<+T> = None | Some(value: T)
}
