/** Optional values, standing for the source's `undefined`, `null` and "not found". */
module Wrappers {

  datatype Option<+T> = None | Some(value: T)
}
