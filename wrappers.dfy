/** Optional values: an input the user has not filled in yet is `None`. */
module Wrappers {

  datatype Option<+T> = None | Some(value: T)
}
