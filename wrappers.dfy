/** Optional value, used where the source returns without producing a result. */
module Wrappers {

  datatype Option<+T> = None | Some(value: T)
}
