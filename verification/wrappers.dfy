/** Optional values, used for the touch lookup and for the drop that a
    release may or may not emit. */
module Wrappers {

  datatype Option<+T> = None | Some(value: T)
}
