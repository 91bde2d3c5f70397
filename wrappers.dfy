/** Optional values: a parse that may fail, an id that may be absent. */
module Wrappers {

  datatype Option<+T> = None | Some(value: T)
}
