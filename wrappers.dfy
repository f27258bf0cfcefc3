/** The optional value used for SQL `NULL` columns and JavaScript `null`. */
module Wrappers {

  datatype Option<+T> = None | Some(value: T)
}
