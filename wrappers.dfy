/** Optional values: a lookup that may come back empty (a Java `null`). */
module Wrappers {

  datatype Option<+T> = None | Some(value: T)
}
