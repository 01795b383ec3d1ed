/** Optional values, used where the site code falls back to a default or
    returns an element without a click target. */
module Wrappers {
  datatype Option<+T> = None | Some(value: T)
}
