/** Optional values: a JavaScript field that may be missing from a document. */
module Wrappers {
  datatype Option<+T> = None | Some(value: T)
}
