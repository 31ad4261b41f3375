/** Optional values: a parse that may find nothing, a report that may not be built. */
module Wrappers {

  datatype Option<+T> = None | Some(value: T)
}
