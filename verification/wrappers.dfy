/** Optional values: the Python `None` and the raised-exception outcomes of the model. */
module Wrappers {
  datatype Option<T> = None | Some(value: T)
}
