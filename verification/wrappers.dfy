/** Optional values: a lookup that may find nothing, a conversion that may throw. */
module Wrappers {

  datatype Option<+T> = None | Some(value: T)
}
