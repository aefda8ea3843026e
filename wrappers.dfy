/** Optional values, for Kotlin's nullable types (`String?`, a map lookup that may miss). */
module Wrappers {

  datatype Option<+T> = None | Some(value: T)
}
