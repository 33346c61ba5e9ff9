/** Optional values, used for the null pointers and the "no result" outcomes of the modelled code. */
module Wrappers {
  datatype Option<+T> = None | Some(value: T)
}
