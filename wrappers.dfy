/** Optional values: a task's `updatedAt` and a form field's error message. */
module Wrappers {

  datatype Option<+T> = None | Some(value: T)
}
