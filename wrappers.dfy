/** Optional values, for the C calls that answer -1 or NULL when they fail. */
module Wrappers {

  datatype Option<+T> = None | Some(value: T)
}
