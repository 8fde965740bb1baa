/** Optional values, used for absent map entries, failed decodes and "no match found". */
module Wrappers {

  datatype Option<+T> = None | Some(value: T)

}
