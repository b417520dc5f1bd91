/** Optional values: JavaScript's `null`/`undefined` results, a lookup that finds nothing,
    a URL that does not parse. */
module Wrappers {

  datatype Option<+T> = None | Some(value: T)
}
