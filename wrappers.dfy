/** The optional-value datatype shared by the cleaner (a match or none) and the
    aggregation (a breakdown or none for an empty collection). */
module Wrappers {

  datatype Option<+T> = None | Some(value: T)
}
