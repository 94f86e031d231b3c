/** Optional values, for the source's `undefined`/`null` and absent fields. */
module Wrappers {
  datatype Option<+T> = None | Some(value: T)
}
