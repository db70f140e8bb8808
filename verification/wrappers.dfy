/** Optional values: a block address or the null pointer. */
module Wrappers {

  datatype Option<+T> = None | Some(value: T)
}
