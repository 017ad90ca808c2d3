/** Optional values, used for missing cells and for the
    error paths that the recommender swallows. */
module Wrappers {

  /** A value that may be absent. */
  datatype Option<+T> = None | Some(value: T)
}
