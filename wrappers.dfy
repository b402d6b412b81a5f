/** Optional values: a missing history entry, a fetch that failed, a timestamp that does not parse. */
module Wrappers {

  datatype Option<+T> = None | Some(value: T)
}
