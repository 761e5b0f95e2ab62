/** Optional values, used for the record fields that exist only in some builds. */
module Wrappers {

  datatype Option<+T> = None | Some(value: T)
}
