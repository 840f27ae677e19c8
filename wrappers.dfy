/** Optional values: `None` stands for Python's `None`, or for a step that raised. */
module Wrappers {
  datatype Option<+T> = None | Some(value: T)
}
