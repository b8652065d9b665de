/** Optional values: the model's stand-in for pandas' missing markers and for
    conversions that may fail. */
module Wrappers {

  datatype Option<+T> = None | Some(value: T)
}
