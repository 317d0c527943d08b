/** The "value or None" result used by the store's lookups and queries. */
module Wrappers {

  datatype Option<+T> = None | Some(value: T)
}
