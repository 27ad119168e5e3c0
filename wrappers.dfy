/** Optional values: pandas' NaN / None / NaT and a failed computation are all `None` here. */
module Wrappers {
  datatype Option<+T> = None | Some(value: T)
}
