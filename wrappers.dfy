/** Optional values, used where the source reports a compile-time error
    (an index out of range, a path that walks past a leaf). */
module Wrappers {

  datatype Option<+T> = None | Some(value: T)

}
