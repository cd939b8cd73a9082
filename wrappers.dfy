/** Optional values, used for the results of partial operations. */
module Wrappers {

  datatype Option<+T> = None | Some(value: T)
}
