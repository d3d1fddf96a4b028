/** Optional values, used wherever the Kotlin code returns a nullable value or
    throws for a missing element. */
module Wrappers {

  datatype Option<+T> = None | Some(value: T)
}
