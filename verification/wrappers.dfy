/** Optional values: a key press that may or may not be pending, a parse that may fail. */
module Wrappers {

  datatype Option<+T> = None | Some(value: T)

}
