/** Optional values, for the source's "may be missing" and "may raise" results. */
module Wrappers {

  datatype Option<+T> = None | Some(value: T)
}
