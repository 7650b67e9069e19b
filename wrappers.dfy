/** Optional values, for JavaScript's `undefined`/`null` and for absent results. */
module Wrappers {
  datatype Option<T> = None | Some(value: T)
}
