/** Optional values: an absent tracker, an absent ground truth, unset metrics. */
module Wrappers {
  datatype Option<T> = None | Some(value: T)
}
