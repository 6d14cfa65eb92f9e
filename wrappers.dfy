/** Optional values. `None` stands for JavaScript's `undefined`: what a lookup
    of a missing object key or of an out-of-range array index yields. */
module Wrappers {

  datatype Option<+T> = None | Some(value: T)
}
