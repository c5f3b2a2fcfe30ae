/** Optional values, for the fields the source reads with `dict.get` and may find missing. */
module Wrappers {

  datatype Option<+T> = None | Some(value: T)
}
