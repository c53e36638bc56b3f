/** Optional values, standing in for Java references that may be null. */
module Wrappers {

  /** `None` is a null reference; `Some(v)` a non-null one holding `v`. */
  datatype Option<+T> = None | Some(value: T)
}
