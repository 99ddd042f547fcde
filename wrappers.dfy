/** Optional values: a JavaScript `undefined` or `NaN` where the source produces one. */
module Wrappers {
  datatype Option<+T> = None | Some(value: T)
}
