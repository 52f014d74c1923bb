/** Optional values, used for lookups that can miss and rules that can pass. */
module Wrappers {

  datatype Option<+T> = None | Some(value: T)
}
