/** Optional values: a reference that may be missing (a React ref whose
    `current` is still null) or a choice that may not have been made. */
module Wrappers {

  datatype Option<+T> = None | Some(value: T)
}
