/** Optional values: a record's backpointer is absent only for the origin. */
module Wrappers {

  datatype Option<+T> = None | Some(value: T)
}
