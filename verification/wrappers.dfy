/** Optional values: the model's stand-in for JavaScript's `null`/`undefined`
    and for Objective-C `nil`. */
module Wrappers {

  datatype Option<+T> = None | Some(value: T)
}
