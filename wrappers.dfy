/** Optional values: an absent DOM ref, an absent split piece, an omitted prop. */
module Wrappers {

  datatype Option<+T> = None | Some(value: T)
}
