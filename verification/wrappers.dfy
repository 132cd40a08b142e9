/** Optional values: a file that may be absent on disk. */
module Wrappers {

  datatype Option<+T> = None | Some(value: T)
}
