/** Optional values, used wherever the modelled Python code may find nothing. */
module Wrappers {
  datatype Option<+T> = None | Some(value: T)
}
