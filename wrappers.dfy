/** Optional values, used for the detector's "no markers" answer and for parse results. */
module Wrappers {
  datatype Option<+T> = None | Some(value: T)
}
