/** Optional values: the model's stand-in for Python's `None` and for a
    conversion that raises. */
module Wrappers {
  datatype Option<+T> = None | Some(value: T)
}
