/** Optional values: a field or argument that may be absent. */
module Wrappers {
  datatype Option<+T> = None | Some(value: T)

  /** A JavaScript truthiness test on an optional string: present and not empty. */
  predicate Present(v: Option<string>) {
    v.Some? && v.value != ""
  }
}
