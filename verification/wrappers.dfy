/** Optional values: a request parameter that may be missing, a directory listing that may fail. */
module Wrappers {

  datatype Option<+T> = None | Some(value: T)
}
