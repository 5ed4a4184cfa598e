/** Optional values, for lookups that can miss and random supplies that can run out. */
module Wrappers {

  datatype Option<+T> = None | Some(value: T)
}
