/** Optional values: the model's stand-in for C# `null` and nullable value types. */
module Wrappers {

  datatype Option<+T> = None | Some(value: T)
}
