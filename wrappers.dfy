/** Optional values: a missing key in a parsed document, an empty query result. */
module Wrappers {

  datatype Option<+T> = None | Some(value: T)
}
