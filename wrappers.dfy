/** Optional values: a static extent that may be dynamic, a capability that may be absent. */
module Wrappers {
  datatype Option<T> = None | Some(value: T)
}
