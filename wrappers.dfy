/** Optional values: JavaScript's `undefined` / `null` results, and the
    optional chaining `?.` that short-circuits on them. */
module Wrappers {

  datatype Option<+T> = None | Some(value: T)
}
