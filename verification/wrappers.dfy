/** Optional values: a nullable column is `None` when it holds SQL NULL. */
module Wrappers {

  datatype Option<+T> = None | Some(value: T)
}
