/** Optional values, used for absent headers, unset credentials and
    messages that have not arrived yet (Python's None). */
module Wrappers {
  datatype Option<+T> = None | Some(value: T)
}
