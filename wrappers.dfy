/** Optional values: Python's `None` and JavaScript's absent values. */
module Wrappers {

  datatype Option<+T> = None | Some(value: T)
}
