/** Optional values: a JSON lookup with `dict.get(key)` that yields either a value or `None`. */
module Wrappers {

  datatype Option<+T> = None | Some(value: T)
}
