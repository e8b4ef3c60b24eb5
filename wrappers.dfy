/** Optional values, for the source's `None` and for "no match here". */
module Wrappers {

  datatype Option<+T> = None | Some(value: T)
}
