/** Optional values: a JavaScript `null`/`undefined` or a missing registry entry. */
module Wrappers {
  datatype Option<+T> = None | Some(value: T)
}
