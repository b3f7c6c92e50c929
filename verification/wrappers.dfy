/** Optional values: a JavaScript `null`/`undefined` or a lookup that finds nothing. */
module Wrappers {

  datatype Option<+T> = None | Some(value: T)
}
