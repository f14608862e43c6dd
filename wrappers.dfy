/** Optional values: the model's stand-in for a NaN cell, and for a Python
    exception raised by a lookup or a `np.delete`. */
module Wrappers {

  datatype Option<+T> = None | Some(value: T)
}
