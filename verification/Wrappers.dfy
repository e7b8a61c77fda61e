/** Optional values, used where a parse may fail or a selector may be unknown. */
module Wrappers {

  datatype Option<+T> = None | Some(value: T)
}
