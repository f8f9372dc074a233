/** Optional values; `None` stands for JavaScript's `null` / an absent value. */
module Wrappers {
  datatype Option<+T> = None | Some(value: T)
}
