/** Optional values: Python's None, a missing JSON key, JavaScript's NaN. */
module Wrappers {

  datatype Option<+T> = None | Some(value: T)
}
